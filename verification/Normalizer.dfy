/** The normaliser's loop: it polls each log collection for the entries it has not seen, and turns them into
    documents, remembering which ports every address has been seen with. */
module Normalizer {
  import opened Options

  // What the regular expressions find in a log line; None stands for "unknown".
  datatype Endpoint = Endpoint(ip: Option<string>, port: Option<int>)

  // The parts of the program that look inside a line.
  datatype Reader = Reader(extract: string -> Endpoint, lower: string -> string)

  datatype Log = Log(id: nat, raw: string)

  datatype Entry = Entry(source: string, log: Log)

  datatype Tag = Nmap | Netcat | Libssh | SshBrute | LoginAttempt | Upload | Sqli | DirTraversal | PortScan

  datatype Doc = Doc(source: string, ip: Option<string>, port: Option<int>, raw: string, tags: seq<Tag>)

  // last_ids, ip_to_ports and the normalized collection.
  datatype State = State(last: map<string, nat>, ports: map<string, set<int>>, docs: seq<Doc>)

  const START := State(map[], map[], [])

  // ---- One log ---------------------------------------------------------------------------

  // Python's `part in text`.
  predicate Has(text: string, part: string)
    decreases |text|
  {
    part <= text || (text != "" && Has(text[1..], part))
  }

  function When(tags: seq<Tag>, holds: bool, tag: Tag): seq<Tag> { if holds then tags + [tag] else tags }

  // The tags that depend on the line alone, in the order they are given.
  function LineTags(l: string): seq<Tag> { TagsOf(SignsIn(l)) }

  // What a line shows.
  datatype Signs = Signs(scan: bool, netcat: bool, libssh: bool, brute: bool, login: bool, upload: bool, sqli: bool,
                         traversal: bool)

  function SignsIn(l: string): Signs {
    Signs(Has(l, "nmap") || Has(l, "masscan"),
          Has(l, "netcat") || Has(l, "nc"),
          Has(l, "libssh"),
          Has(l, "failed login") || Has(l, "authentication failed"),
          Has(l, "user root") || Has(l, "login attempt"),
          Has(l, "upload") || Has(l, "file saved"),
          Has(l, "sqli") || (Has(l, "select") && Has(l, "--")),
          Has(l, "../") || Has(l, "etc/passwd"))
  }

  function TagsOf(s: Signs): seq<Tag> {
    AttackTags(LoginTags(ToolTags(s.scan, s.netcat, s.libssh), s.brute, s.login), s.upload, s.sqli, s.traversal)
  }

  function ToolTags(scan: bool, netcat: bool, libssh: bool): seq<Tag> {
    When(When(When([], scan, Nmap), netcat, Netcat), libssh, Libssh)
  }

  function LoginTags(tags: seq<Tag>, brute: bool, login: bool): seq<Tag> {
    When(When(tags, brute, SshBrute), login, LoginAttempt)
  }

  function AttackTags(tags: seq<Tag>, upload: bool, sqli: bool, traversal: bool): seq<Tag> {
    When(When(When(tags, upload, Upload), sqli, Sqli), traversal, DirTraversal)
  }

  function PortsOf(ports: map<string, set<int>>, ip: string): set<int> { if ip in ports then ports[ip] else {} }

  function Tags(r: Reader, ports: map<string, set<int>>, raw: string, ip: Option<string>): seq<Tag> {
    When(LineTags(r.lower(raw)), ip.Some? && |PortsOf(ports, ip.value)| > 10, PortScan)
  }

  // A lookup in ip_to_ports leaves an entry behind, so an address met without a port has an empty one.
  function Noted(ports: map<string, set<int>>, e: Endpoint): map<string, set<int>> {
    if e.ip.None? then ports
    else ports[e.ip.value := PortsOf(ports, e.ip.value) + if e.port.Some? then {e.port.value} else {}]
  }

  predicate Known(e: Endpoint) { e.ip.Some? || e.port.Some? }

  function Handle(r: Reader, s: State, e: Entry): State {
    var found := r.extract(e.log.raw);
    var seen := s.(last := s.last[e.source := e.log.id]);
    if !Known(found) then seen
    else
      seen.(ports := Noted(s.ports, found),
            docs := s.docs + [Doc(e.source, found.ip, found.port, e.log.raw,
                                  Tags(r, s.ports, e.log.raw, found.ip))])
  }

  function HandleAll(r: Reader, s: State, h: seq<Entry>): State
    decreases |h|
  {
    if h == [] then s else Handle(r, HandleAll(r, s, h[..|h| - 1]), h[|h| - 1])
  }

  // ---- A collection's turn ---------------------------------------------------------------

  predicate Newer(s: State, source: string, id: nat) { source in s.last ==> id > s.last[source] }

  function Insert(l: Log, sorted: seq<Log>): seq<Log> {
    if sorted == [] || l.id <= sorted[0].id then [l] + sorted else [sorted[0]] + Insert(l, sorted[1..])
  }

  // The database's answer: the entries past the last one handled, by id.
  function Query(s: State, source: string, store: seq<Log>): seq<Log> {
    if store == [] then []
    else
      var rest := Query(s, source, store[1..]);
      if Newer(s, source, store[0].id) then Insert(store[0], rest) else rest
  }

  function Entries(source: string, logs: seq<Log>): seq<Entry> {
    seq(|logs|, i requires 0 <= i < |logs| => Entry(source, logs[i]))
  }

  // ---- The system ------------------------------------------------------------------------

  datatype Event = Append(source: string, log: Log) | Poll(source: string)

  // `handled` is history: every entry the loop has taken from a cursor, in order.
  datatype World = World(stores: map<string, seq<Log>>, state: State, handled: seq<Entry>)

  const EMPTY := World(map[], START, [])

  function Store(w: World, source: string): seq<Log> { if source in w.stores then w.stores[source] else [] }

  predicate HasId(store: seq<Log>, id: nat) { exists i :: 0 <= i < |store| && store[i].id == id }

  // A collection refuses a second entry with the same id.
  function Step(r: Reader, w: World, e: Event): World {
    match e
    case Append(source, log) =>
      if HasId(Store(w, source), log.id) then w
      else w.(stores := w.stores[source := Store(w, source) + [log]])
    case Poll(source) =>
      var batch := Entries(source, Query(w.state, source, Store(w, source)));
      w.(state := HandleAll(r, w.state, batch), handled := w.handled + batch)
  }

  function Run(r: Reader, es: seq<Event>): World
    decreases |es|
  {
    if es == [] then EMPTY else Step(r, Run(r, es[..|es| - 1]), es[|es| - 1])
  }

  // ---- The query -------------------------------------------------------------------------

  predicate Increasing(logs: seq<Log>) { forall i, j :: 0 <= i < j < |logs| ==> logs[i].id < logs[j].id }

  predicate Distinct(logs: seq<Log>) { forall i, j :: 0 <= i < j < |logs| ==> logs[i].id != logs[j].id }

  lemma {:induction false} InsertMeaning(l: Log, sorted: seq<Log>)
    requires Increasing(sorted) && forall i :: 0 <= i < |sorted| ==> sorted[i].id != l.id
    ensures Increasing(Insert(l, sorted))
    ensures forall x :: x in Insert(l, sorted) <==> x == l || x in sorted
  {
    if sorted != [] && l.id > sorted[0].id {
      InsertMeaning(l, sorted[1..]);
      var rest := Insert(l, sorted[1..]);
      forall i | 0 <= i < |rest| ensures sorted[0].id < rest[i].id {
        assert rest[i] in rest;
      }
    }
  }

  lemma {:induction false} QueryMeaning(s: State, source: string, store: seq<Log>)
    requires Distinct(store)
    ensures Increasing(Query(s, source, store))
    ensures forall x :: x in Query(s, source, store) <==> x in store && Newer(s, source, x.id)
  {
    if store != [] {
      QueryMeaning(s, source, store[1..]);
      var rest := Query(s, source, store[1..]);
      forall i | 0 <= i < |rest| ensures rest[i].id != store[0].id {
        assert rest[i] in rest;
      }
      if Newer(s, source, store[0].id) { InsertMeaning(store[0], rest); }
    }
  }

  // ---- What one turn does to the state ---------------------------------------------------

  lemma {:induction false} HandleAllAppend(r: Reader, s: State, g: seq<Entry>, h: seq<Entry>)
    ensures HandleAll(r, s, g + h) == HandleAll(r, HandleAll(r, s, g), h)
    decreases |h|
  {
    if h == [] {
      assert g + h == g;
    } else {
      assert (g + h)[..|g + h| - 1] == g + h[..|h| - 1];
      HandleAllAppend(r, s, g, h[..|h| - 1]);
    }
  }

  lemma {:induction false} TurnLast(r: Reader, s: State, source: string, logs: seq<Log>)
    ensures HandleAll(r, s, Entries(source, logs)).last ==
            if logs == [] then s.last else s.last[source := logs[|logs| - 1].id]
    decreases |logs|
  {
    if logs != [] {
      assert Entries(source, logs)[..|logs| - 1] == Entries(source, logs[..|logs| - 1]);
      TurnLast(r, s, source, logs[..|logs| - 1]);
    }
  }

  // ---- Exactly once, in order ------------------------------------------------------------

  function From(source: string, h: seq<Entry>): seq<Log>
    decreases |h|
  {
    if h == [] then []
    else
      var most := From(source, h[..|h| - 1]);
      if h[|h| - 1].source == source then most + [h[|h| - 1].log] else most
  }

  lemma {:induction false} FromTurn(source: string, h: seq<Entry>, of: string, logs: seq<Log>)
    ensures From(source, h + Entries(of, logs)) == From(source, h) + if source == of then logs else []
    decreases |logs|
  {
    var all := h + Entries(of, logs);
    if logs == [] {
      assert all == h;
    } else {
      assert all[..|all| - 1] == h + Entries(of, logs[..|logs| - 1]);
      FromTurn(source, h, of, logs[..|logs| - 1]);
      assert logs == logs[..|logs| - 1] + [logs[|logs| - 1]];
    }
  }

  // What has been taken from a collection, and the id remembered for it.
  ghost predicate Orderly(store: seq<Log>, done: seq<Log>, s: State, source: string) {
    && Distinct(store)
    && Increasing(done)
    && (forall x :: x in done ==> x in store)
    && (source in s.last <==> done != [])
    && (done != [] ==> s.last[source] == done[|done| - 1].id)
  }

  ghost predicate Inv(w: World, source: string) {
    Orderly(Store(w, source), From(source, w.handled), w.state, source)
  }

  lemma AppendKeepsOrder(store: seq<Log>, done: seq<Log>, s: State, source: string, x: Log)
    requires Orderly(store, done, s, source) && !HasId(store, x.id)
    ensures Orderly(store + [x], done, s, source)
  {
  }

  lemma JoinIncreasing(a: seq<Log>, b: seq<Log>)
    requires Increasing(a) && Increasing(b)
    requires a != [] ==> forall j :: 0 <= j < |b| ==> a[|a| - 1].id < b[j].id
    ensures Increasing(a + b)
  {
  }

  lemma TurnKeepsOrder(store: seq<Log>, done: seq<Log>, s: State, t: State, source: string, logs: seq<Log>)
    requires Orderly(store, done, s, source) && logs == Query(s, source, store)
    requires t.last == if logs == [] then s.last else s.last[source := logs[|logs| - 1].id]
    ensures Orderly(store, done + logs, t, source)
  {
    QueryMeaning(s, source, store);
    forall j | 0 <= j < |logs| ensures Newer(s, source, logs[j].id) { assert logs[j] in logs; }
    JoinIncreasing(done, logs);
    forall x | x in done + logs ensures x in store {
      if x !in done { assert x in logs; }
    }
  }

  lemma StepKeepsInv(r: Reader, w: World, e: Event, source: string)
    requires Inv(w, source)
    ensures Inv(Step(r, w, e), source)
  {
    var store, done := Store(w, source), From(source, w.handled);
    match e
    case Append(of, x) =>
      if of == source && !HasId(store, x.id) { AppendKeepsOrder(store, done, w.state, source, x); }
    case Poll(of) =>
      var logs := Query(w.state, of, Store(w, of));
      FromTurn(source, w.handled, of, logs);
      TurnLast(r, w.state, of, logs);
      if of == source { TurnKeepsOrder(store, done, w.state, Step(r, w, e).state, source, logs); }
  }

  lemma {:induction false} RunKeepsInv(r: Reader, es: seq<Event>, source: string)
    ensures Inv(Run(r, es), source)
    decreases |es|
  {
    if es != [] {
      RunKeepsInv(r, es[..|es| - 1], source);
      StepKeepsInv(r, Run(r, es[..|es| - 1]), es[|es| - 1], source);
    }
  }

  /** In any run, whatever the ids, the logs taken from a collection are in increasing id order, so none is ever
      taken twice, and a poll leaves behind exactly those that a later id had already overtaken. */
  lemma PollTakesTheNewer(r: Reader, es: seq<Event>, source: string, x: Log)
    ensures Increasing(From(source, Run(r, es).handled))
    ensures var w, v := Run(r, es), Run(r, es + [Poll(source)]);
            x in From(source, v.handled) <==>
            x in From(source, w.handled) || (x in Store(w, source) && Newer(w.state, source, x.id))
  {
    RunKeepsInv(r, es, source);
    var w, more := Run(r, es), es + [Poll(source)];
    var logs := Query(w.state, source, Store(w, source));
    assert more[..|es|] == es && Run(r, more) == Step(r, w, Poll(source));
    QueryMeaning(w.state, source, Store(w, source));
    FromTurn(source, w.handled, source, logs);
    assert From(source, Run(r, more).handled) == From(source, w.handled) + logs;
  }

  // The fate of a log is settled when it is appended.
  ghost predicate Settled(w: World, source: string, x: Log, late: bool, polled: bool) {
    var done := x in From(source, w.handled);
    && x in Store(w, source)
    && (late ==> !done && !Newer(w.state, source, x.id))
    && (!late && !done ==> !polled && Newer(w.state, source, x.id))
  }

  lemma StepKeepsSettled(r: Reader, w: World, e: Event, source: string, x: Log, late: bool, polled: bool)
    requires Inv(w, source) && Settled(w, source, x, late, polled)
    ensures Settled(Step(r, w, e), source, x, late, polled || e == Poll(source))
  {
    match e
    case Append(_, _) =>
    case Poll(of) =>
      if of == source {
        PollKeepsSettled(r, w, source, x, late, polled);
      } else {
        var logs := Query(w.state, of, Store(w, of));
        FromTurn(source, w.handled, of, logs);
        TurnLast(r, w.state, of, logs);
      }
  }

  lemma PollKeepsSettled(r: Reader, w: World, source: string, x: Log, late: bool, polled: bool)
    requires Inv(w, source) && Settled(w, source, x, late, polled)
    ensures Settled(Step(r, w, Poll(source)), source, x, late, true)
  {
    var store := Store(w, source);
    var logs := Query(w.state, source, store);
    FromTurn(source, w.handled, source, logs);
    TurnLast(r, w.state, source, logs);
    QueryMeaning(w.state, source, store);
    if logs != [] { assert logs[|logs| - 1] in logs; }
  }

  lemma SettledAtOnce(r: Reader, w: World, source: string, x: Log)
    requires Inv(w, source) && !HasId(Store(w, source), x.id)
    ensures Settled(Step(r, w, Append(source, x)), source, x, !Newer(w.state, source, x.id), false)
  {
    var store := Store(w, source);
    assert Store(Step(r, w, Append(source, x)), source) == store + [x];
    assert x !in store by {
      if k :| 0 <= k < |store| && store[k] == x { assert false; }
    }
  }

  ghost predicate PolledSince(es: seq<Event>, k: int, source: string) {
    exists j :: 0 <= k < j < |es| && es[j] == Poll(source)
  }

  lemma PolledLately(es: seq<Event>, k: nat, source: string)
    requires k < |es| - 1
    ensures PolledSince(es, k, source) ==> PolledSince(es[..|es| - 1], k, source) || es[|es| - 1] == Poll(source)
  {
    var most := es[..|es| - 1];
    if j :| k < j < |es| && es[j] == Poll(source) {
      if j < |most| { assert most[j] == Poll(source); }
    }
  }

  lemma {:induction false} SettledSince(r: Reader, es: seq<Event>, k: nat, source: string, x: Log, at: World)
    requires k < |es| && es[k] == Append(source, x)
    requires at == Run(r, es[..k]) && !HasId(Store(at, source), x.id)
    ensures Settled(Run(r, es), source, x, !Newer(at.state, source, x.id), PolledSince(es, k, source))
    decreases |es|
  {
    var most, e := es[..|es| - 1], es[|es| - 1];
    var w := Run(r, most);
    if k == |most| {
      RunKeepsInv(r, most, source);
      assert at == w by { assert most == es[..k]; }
      SettledAtOnce(r, w, source, x);
      assert !PolledSince(es, k, source);
    } else {
      RunKeepsInv(r, most, source);
      assert most[..k] == es[..k];
      SettledSince(r, most, k, source, x, at);
      StepKeepsSettled(r, w, e, source, x, !Newer(at.state, source, x.id), PolledSince(most, k, source));
      PolledLately(es, k, source);
    }
  }

  /** Once its collection has been polled again, a log has been handled exactly if, when it was appended, no log
      of that collection with a higher id had been. */
  lemma HandledExactly(r: Reader, es: seq<Event>, k: nat, j: nat, source: string, x: Log)
    requires k < j < |es| && es[k] == Append(source, x) && es[j] == Poll(source)
    requires !HasId(Store(Run(r, es[..k]), source), x.id)
    ensures x in From(source, Run(r, es).handled) <==> Newer(Run(r, es[..k]).state, source, x.id)
  {
    SettledSince(r, es, k, source, x, Run(r, es[..k]));
    assert PolledSince(es, k, source);
  }

  // Every append to the collection has an id above all those before it.
  ghost predicate IdsIncrease(r: Reader, es: seq<Event>, source: string) {
    forall k :: 0 <= k < |es| && es[k].Append? && es[k].source == source ==>
                  forall i :: 0 <= i < |Store(Run(r, es[..k]), source)| ==>
                                Store(Run(r, es[..k]), source)[i].id < es[k].log.id
  }

  lemma {:induction false} QueryOfIncreasing(s: State, source: string, store: seq<Log>, n: nat)
    requires Increasing(store) && n <= |store|
    requires forall i :: 0 <= i < |store| ==> (Newer(s, source, store[i].id) <==> i >= n)
    ensures Query(s, source, store) == store[n..]
  {
    if store != [] {
      QueryOfIncreasing(s, source, store[1..], if n == 0 then 0 else n - 1);
      if n == 0 { assert Query(s, source, store) == [store[0]] + store[1..]; }
    }
  }

  ghost predicate TakenFirst(w: World, source: string, n: nat) {
    var store := Store(w, source);
    Increasing(store) && n <= |store| && From(source, w.handled) == store[..n]
  }

  lemma RestIsQueried(s: State, source: string, store: seq<Log>, n: nat)
    requires Increasing(store) && n <= |store| && Orderly(store, store[..n], s, source)
    ensures Query(s, source, store) == store[n..] && store[..n] + store[n..] == store
  {
    if n > 0 { assert store[..n][n - 1] == store[n - 1]; }
    NewerPastTheFirst(s, source, store, n);
    QueryOfIncreasing(s, source, store, n);
  }

  lemma PollMeaning(r: Reader, w: World, source: string)
    ensures var v, rest := Step(r, w, Poll(source)), Query(w.state, source, Store(w, source));
            Store(v, source) == Store(w, source) && From(source, v.handled) == From(source, w.handled) + rest
  {
    FromTurn(source, w.handled, source, Query(w.state, source, Store(w, source)));
  }

  lemma TurnTakesTheRest(r: Reader, w: World, source: string, n: nat)
    requires Inv(w, source) && TakenFirst(w, source, n)
    ensures TakenFirst(Step(r, w, Poll(source)), source, |Store(w, source)|)
  {
    var store, v := Store(w, source), Step(r, w, Poll(source));
    RestIsQueried(w.state, source, store, n);
    PollMeaning(r, w, source);
    assert From(source, v.handled) == store && store[..|store|] == store;
  }

  lemma NewerPastTheFirst(s: State, source: string, store: seq<Log>, n: nat)
    requires Increasing(store) && n <= |store|
    requires if n == 0 then source !in s.last else source in s.last && s.last[source] == store[n - 1].id
    ensures forall i :: 0 <= i < |store| ==> (Newer(s, source, store[i].id) <==> i >= n)
  {
  }

  lemma NewestKeepsTaken(r: Reader, w: World, source: string, n: nat, x: Log)
    requires TakenFirst(w, source, n)
    requires forall i :: 0 <= i < |Store(w, source)| ==> Store(w, source)[i].id < x.id
    ensures TakenFirst(Step(r, w, Append(source, x)), source, n)
  {
    var store := Store(w, source);
    assert Store(Step(r, w, Append(source, x)), source) == store + [x];
    assert (store + [x])[..n] == store[..n];
  }

  lemma {:induction false} HandledIsPrefix(r: Reader, es: seq<Event>, source: string) returns (n: nat)
    requires IdsIncrease(r, es, source)
    ensures TakenFirst(Run(r, es), source, n)
    ensures es != [] && es[|es| - 1] == Poll(source) ==> n == |Store(Run(r, es), source)|
    decreases |es|
  {
    n := 0;
    if es != [] {
      var most, e := es[..|es| - 1], es[|es| - 1];
      IncreasingBefore(r, es, source, |most|);
      n := HandledIsPrefix(r, most, source);
      var w := Run(r, most);
      match e
      case Append(of, x) =>
        if of == source { NewestKeepsTaken(r, w, source, n, x); }
      case Poll(of) =>
        FromTurn(source, w.handled, of, Query(w.state, of, Store(w, of)));
        if of == source {
          RunKeepsInv(r, most, source);
          TurnTakesTheRest(r, w, source, n);
          n := |Store(w, source)|;
        }
    }
  }

  lemma IncreasingBefore(r: Reader, es: seq<Event>, source: string, n: nat)
    requires n <= |es| && IdsIncrease(r, es, source)
    ensures IdsIncrease(r, es[..n], source)
  {
    forall k | 0 <= k < n ensures es[..n][..k] == es[..k] {}
  }

  /** With increasing ids, every run handles each collection's logs once and in order: what has been handled is a
      prefix of the collection, and all of it right after a poll. */
  lemma EachLogOnceInOrder(r: Reader, es: seq<Event>, source: string)
    requires IdsIncrease(r, es, source)
    ensures var done, store := From(source, Run(r, es).handled), Store(Run(r, es), source);
            |done| <= |store| && done == store[..|done|]
    ensures var w := Run(r, es + [Poll(source)]);
            From(source, w.handled) == Store(w, source) == Store(Run(r, es), source)
  {
    var n := HandledIsPrefix(r, es, source);
    var w, more := Run(r, es), es + [Poll(source)];
    assert more[..|es|] == es && Run(r, more) == Step(r, w, Poll(source));
    RunKeepsInv(r, es, source);
    TurnTakesTheRest(r, w, source, n);
    assert Store(Run(r, more), source) == Store(w, source);
    assert From(source, w.handled) == Store(w, source)[..n];
  }

  // ---- What the documents say ------------------------------------------------------------

  // The distinct ports that the logs gave together with an address.
  ghost function PortsGiven(r: Reader, h: seq<Entry>, ip: string): set<int> {
    set i | 0 <= i < |h| && r.extract(h[i].log.raw).ip == Some(ip) && r.extract(h[i].log.raw).port.Some?
      :: r.extract(h[i].log.raw).port.value
  }

  // The document for the i-th log of a history, said without any running state.
  ghost function Report(r: Reader, h: seq<Entry>, i: nat): Doc
    requires i < |h|
  {
    var raw := h[i].log.raw;
    var found := r.extract(raw);
    Doc(h[i].source, found.ip, found.port, raw,
        When(LineTags(r.lower(raw)), found.ip.Some? && |PortsGiven(r, h[..i], found.ip.value)| > 10, PortScan))
  }

  ghost function Reports(r: Reader, h: seq<Entry>, n: nat): seq<Doc>
    requires n <= |h|
  {
    if n == 0 then []
    else Reports(r, h, n - 1) + if Known(r.extract(h[n - 1].log.raw)) then [Report(r, h, n - 1)] else []
  }

  lemma {:induction false} ReportsLocal(r: Reader, h: seq<Entry>, n: nat)
    requires n < |h|
    ensures Reports(r, h, n) == Reports(r, h[..|h| - 1], n)
  {
    if n > 0 {
      ReportsLocal(r, h, n - 1);
      assert h[..|h| - 1][..n - 1] == h[..n - 1];
    }
  }

  lemma PortsGivenGrow(r: Reader, h: seq<Entry>, ip: string)
    requires h != []
    ensures var e := r.extract(h[|h| - 1].log.raw);
            PortsGiven(r, h, ip) == PortsGiven(r, h[..|h| - 1], ip) +
                                    if e.ip == Some(ip) && e.port.Some? then {e.port.value} else {}
  {
    var most := h[..|h| - 1];
    var e := r.extract(h[|h| - 1].log.raw);
    var now := PortsGiven(r, most, ip) + if e.ip == Some(ip) && e.port.Some? then {e.port.value} else {};
    forall p | p in PortsGiven(r, h, ip) ensures p in now {
      var i :| 0 <= i < |h| && r.extract(h[i].log.raw).ip == Some(ip) && r.extract(h[i].log.raw).port == Some(p);
      if i < |most| { assert most[i] == h[i]; }
    }
    forall p | p in now ensures p in PortsGiven(r, h, ip) {
      if p in PortsGiven(r, most, ip) {
        var i :| 0 <= i < |most| && r.extract(most[i].log.raw).ip == Some(ip) &&
                 r.extract(most[i].log.raw).port == Some(p);
        assert h[i] == most[i];
      }
    }
  }

  lemma DocStep(r: Reader, s: State, h: seq<Entry>, e: Entry)
    requires h != [] && e == h[|h| - 1]
    requires forall ip :: PortsOf(s.ports, ip) == PortsGiven(r, h[..|h| - 1], ip)
    ensures Handle(r, s, e).docs == s.docs + if Known(r.extract(e.log.raw)) then [Report(r, h, |h| - 1)] else []
  {
  }

  lemma PortStep(r: Reader, s: State, h: seq<Entry>, e: Entry, ip: string)
    requires h != [] && e == h[|h| - 1] && PortsOf(s.ports, ip) == PortsGiven(r, h[..|h| - 1], ip)
    ensures PortsOf(Handle(r, s, e).ports, ip) == PortsGiven(r, h, ip)
  {
    PortsGivenGrow(r, h, ip);
  }

  lemma {:induction false} FoldMeaning(r: Reader, h: seq<Entry>)
    ensures HandleAll(r, START, h).docs == Reports(r, h, |h|)
    ensures forall ip :: PortsOf(HandleAll(r, START, h).ports, ip) == PortsGiven(r, h, ip)
    decreases |h|
  {
    if h != [] {
      var most, e := h[..|h| - 1], h[|h| - 1];
      var s := HandleAll(r, START, most);
      FoldMeaning(r, most);
      ReportsLocal(r, h, |most|);
      assert HandleAll(r, START, h) == Handle(r, s, e);
      DocStep(r, s, h, e);
      forall ip ensures PortsOf(Handle(r, s, e).ports, ip) == PortsGiven(r, h, ip) { PortStep(r, s, h, e, ip); }
    }
  }

  lemma {:induction false} StateIsFold(r: Reader, es: seq<Event>)
    ensures Run(r, es).state == HandleAll(r, START, Run(r, es).handled)
    decreases |es|
  {
    if es != [] {
      var w := Run(r, es[..|es| - 1]);
      StateIsFold(r, es[..|es| - 1]);
      match es[|es| - 1]
      case Append(_, _) =>
      case Poll(of) => HandleAllAppend(r, START, w.handled, Entries(of, Query(w.state, of, Store(w, of))));
    }
  }

  /** Polling refines a batch: however polls and appends interleave, the documents are those of the handled logs
      read once from start to end, and one is tagged as a port scan exactly when the logs handled before it gave
      its address more than ten distinct ports. */
  lemma DocumentsAreTheBatch(r: Reader, es: seq<Event>)
    ensures var w := Run(r, es); w.state.docs == Reports(r, w.handled, |w.handled|)
    ensures forall ip :: PortsOf(Run(r, es).state.ports, ip) == PortsGiven(r, Run(r, es).handled, ip)
  {
    StateIsFold(r, es);
    FoldMeaning(r, Run(r, es).handled);
  }

  // The text has the part in it somewhere.
  ghost predicate Holds(text: string, part: string) {
    exists before: string, after: string :: text == before + part + after
  }

  lemma {:induction false} HasExactly(text: string, part: string)
    ensures Has(text, part) <==> Holds(text, part)
    decreases |text|
  {
    if part <= text {
      assert text == [] + part + text[|part|..];
    } else if text != "" {
      HasExactly(text[1..], part);
      if Holds(text[1..], part) {
        var before: string, after: string :| text[1..] == before + part + after;
        assert text == ([text[0]] + before) + part + after;
      }
      if Holds(text, part) {
        var before: string, after: string :| text == before + part + after;
        assert before == "" ==> part <= text;
        assert text[1..] == before[1..] + part + after;
      }
    }
  }

  lemma ToolTagsExactly(scan: bool, netcat: bool, libssh: bool)
    ensures forall x :: x in ToolTags(scan, netcat, libssh) <==>
        (scan && x == Nmap) || (netcat && x == Netcat) || (libssh && x == Libssh)
  {
  }

  lemma LoginTagsExactly(tags: seq<Tag>, brute: bool, login: bool)
    ensures forall x :: x in LoginTags(tags, brute, login) <==>
        x in tags || (brute && x == SshBrute) || (login && x == LoginAttempt)
  {
  }

  lemma AttackTagsExactly(tags: seq<Tag>, upload: bool, sqli: bool, traversal: bool)
    ensures forall x :: x in AttackTags(tags, upload, sqli, traversal) <==>
        x in tags || (upload && x == Upload) || (sqli && x == Sqli) || (traversal && x == DirTraversal)
  {
  }

  lemma TagsInSteps(s: Signs, tools: seq<Tag>, logins: seq<Tag>, tags: seq<Tag>)
    requires tools == ToolTags(s.scan, s.netcat, s.libssh) && logins == LoginTags(tools, s.brute, s.login)
    requires tags == AttackTags(logins, s.upload, s.sqli, s.traversal)
    ensures (Nmap in tags <==> s.scan) && (Netcat in tags <==> s.netcat) && (Libssh in tags <==> s.libssh)
    ensures (SshBrute in tags <==> s.brute) && (LoginAttempt in tags <==> s.login) && (Upload in tags <==> s.upload)
    ensures (Sqli in tags <==> s.sqli) && (DirTraversal in tags <==> s.traversal) && PortScan !in tags
  {
    ToolTagsExactly(s.scan, s.netcat, s.libssh);
    LoginTagsExactly(tools, s.brute, s.login);
    AttackTagsExactly(logins, s.upload, s.sqli, s.traversal);
  }

  lemma TagsExactly(s: Signs, tags: seq<Tag>)
    requires tags == TagsOf(s)
    ensures (Nmap in tags <==> s.scan) && (Netcat in tags <==> s.netcat) && (Libssh in tags <==> s.libssh)
    ensures (SshBrute in tags <==> s.brute) && (LoginAttempt in tags <==> s.login) && (Upload in tags <==> s.upload)
    ensures (Sqli in tags <==> s.sqli) && (DirTraversal in tags <==> s.traversal) && PortScan !in tags
  {
    var tools := ToolTags(s.scan, s.netcat, s.libssh);
    TagsInSteps(s, tools, LoginTags(tools, s.brute, s.login), tags);
  }

  /** Which tags a line gets, each exactly on its own phrases; the line alone never looks like a port scan. */
  lemma LineTagsExactly(l: string, tags: seq<Tag>)
    requires tags == LineTags(l)
    ensures Nmap in tags <==> Has(l, "nmap") || Has(l, "masscan")
    ensures Netcat in tags <==> Has(l, "netcat") || Has(l, "nc")
    ensures Libssh in tags <==> Has(l, "libssh")
    ensures SshBrute in tags <==> Has(l, "failed login") || Has(l, "authentication failed")
    ensures LoginAttempt in tags <==> Has(l, "user root") || Has(l, "login attempt")
    ensures Upload in tags <==> Has(l, "upload") || Has(l, "file saved")
    ensures Sqli in tags <==> Has(l, "sqli") || (Has(l, "select") && Has(l, "--"))
    ensures DirTraversal in tags <==> Has(l, "../") || Has(l, "etc/passwd")
    ensures PortScan !in tags
  {
    TagsExactly(SignsIn(l), tags);
  }

  // How many of the logs gave an address or a port.
  function Fruitful(r: Reader, h: seq<Entry>): nat
    decreases |h|
  {
    if h == [] then 0
    else
      var found := r.extract(h[|h| - 1].log.raw);
      Fruitful(r, h[..|h| - 1]) + if found.ip.Some? || found.port.Some? then 1 else 0
  }

  lemma {:induction false} KthReport(r: Reader, h: seq<Entry>, n: nat, k: nat) returns (i: nat)
    requires n <= |h| && k < |Reports(r, h, n)|
    ensures i < n && Known(r.extract(h[i].log.raw)) && Fruitful(r, h[..i]) == k
    ensures Reports(r, h, n)[k] == Report(r, h, i)
  {
    ReportsCount(r, h, n - 1);
    if k < |Reports(r, h, n - 1)| { i := KthReport(r, h, n - 1, k); } else { i := n - 1; }
  }

  lemma {:induction false} ReportsCount(r: Reader, h: seq<Entry>, n: nat)
    requires n <= |h|
    ensures |Reports(r, h, n)| == Fruitful(r, h[..n])
  {
    if n > 0 {
      assert h[..n][..n - 1] == h[..n - 1];
      ReportsCount(r, h, n - 1);
    }
  }

  /** The k-th document of any run is that of the k-th handled log in which anything was found, and it has the
      port-scan tag exactly when the logs handled before that one, in all collections, gave its address more than
      ten distinct ports. */
  lemma ScanTaggedExactly(r: Reader, es: seq<Event>, k: nat) returns (i: nat)
    requires k < |Run(r, es).state.docs|
    ensures var h := Run(r, es).handled;
            && i < |h| && Fruitful(r, h[..i]) == k
            && (r.extract(h[i].log.raw).ip.Some? || r.extract(h[i].log.raw).port.Some?)
            && var d := Run(r, es).state.docs[k];
               && d.source == h[i].source && d.raw == h[i].log.raw && Endpoint(d.ip, d.port) == r.extract(d.raw)
               && (PortScan in d.tags <==> d.ip.Some? && |PortsGiven(r, h[..i], d.ip.value)| > 10)
  {
    var h := Run(r, es).handled;
    DocumentsAreTheBatch(r, es);
    i := KthReport(r, h, |h|, k);
    var l := r.lower(h[i].log.raw);
    TagsExactly(SignsIn(l), LineTags(l));
  }

  // All events concern one collection.
  ghost predicate Only(es: seq<Event>, source: string) { forall i :: 0 <= i < |es| ==> es[i].source == source }

  lemma EntriesAppend(source: string, a: seq<Log>, b: seq<Log>)
    ensures Entries(source, a + b) == Entries(source, a) + Entries(source, b)
  {
  }

  lemma {:induction false} OnlyItsLogs(r: Reader, es: seq<Event>, source: string)
    requires Only(es, source)
    ensures var h := Run(r, es).handled; h == Entries(source, From(source, h))
    decreases |es|
  {
    if es != [] {
      var most, e := es[..|es| - 1], es[|es| - 1];
      var w := Run(r, most);
      assert Only(most, source) by {
        forall i | 0 <= i < |most| ensures most[i].source == source { assert most[i] == es[i]; }
      }
      OnlyItsLogs(r, most, source);
      if e.Poll? {
        var logs := Query(w.state, source, Store(w, source));
        FromTurn(source, w.handled, source, logs);
        EntriesAppend(source, From(source, w.handled), logs);
      }
    }
  }

  /** The schedule of polls leaves no trace: with one collection and increasing ids, any run that ends in a poll
      leaves the state of a single pass over the collection. */
  lemma ScheduleLeavesNoTrace(r: Reader, es: seq<Event>, source: string)
    requires Only(es, source) && IdsIncrease(r, es, source)
    ensures var w := Run(r, es + [Poll(source)]);
            w.state == HandleAll(r, START, Entries(source, Store(Run(r, es), source)))
  {
    EachLogOnceInOrder(r, es, source);
    StateIsFold(r, es + [Poll(source)]);
    OnlyItsLogs(r, es + [Poll(source)], source);
  }

  // ---- The program -----------------------------------------------------------------------

  class Loop {
    const reader: Reader
    var lastIds: map<string, nat>
    var ipToPorts: map<string, set<int>>
    var normalized: seq<Doc>

    function View(): State
      reads this
    {
      State(lastIds, ipToPorts, normalized)
    }

    constructor (reader: Reader)
      ensures View() == START && this.reader == reader
    {
      this.reader := reader;
      lastIds, ipToPorts, normalized := map[], map[], [];
    }

    method TagLine(l: string) returns (tags: seq<Tag>)
      ensures tags == LineTags(l)
    {
      var s := SignsIn(l);
      tags := Append(s);
    }

    method Append(s: Signs) returns (tags: seq<Tag>)
      ensures tags == TagsOf(s)
    {
      tags := [];
      if s.scan { tags := tags + [Nmap]; }
      if s.netcat { tags := tags + [Netcat]; }
      if s.libssh { tags := tags + [Libssh]; }
      ghost var tools := ToolTags(s.scan, s.netcat, s.libssh);
      assert tags == tools;
      if s.brute { tags := tags + [SshBrute]; }
      if s.login { tags := tags + [LoginAttempt]; }
      ghost var logins := LoginTags(tools, s.brute, s.login);
      assert tags == logins;
      if s.upload { tags := tags + [Upload]; }
      if s.sqli { tags := tags + [Sqli]; }
      if s.traversal { tags := tags + [DirTraversal]; }
    }

    method GenerateTags(raw: string, ip: Option<string>) returns (tags: seq<Tag>)
      modifies this`ipToPorts
      ensures tags == Tags(reader, old(ipToPorts), raw, ip)
      ensures ipToPorts == Noted(old(ipToPorts), Endpoint(ip, None))
    {
      var l := reader.lower(raw);
      tags := TagLine(l);
      if ip.Some? {
        if ip.value !in ipToPorts { ipToPorts := ipToPorts[ip.value := {}]; }
        if |ipToPorts[ip.value]| > 10 { tags := tags + [PortScan]; }
      }
    }

    // The body of the loop over a cursor.
    method Take(source: string, log: Log)
      modifies this
      ensures View() == Handle(reader, old(View()), Entry(source, log))
    {
      lastIds := lastIds[source := log.id];
      var found := reader.extract(log.raw);
      if found.ip.None? && found.port.None? { return; }
      var tags := GenerateTags(log.raw, found.ip);
      if found.ip.Some? && found.port.Some? {
        ipToPorts := ipToPorts[found.ip.value := ipToPorts[found.ip.value] + {found.port.value}];
      }
      assert ipToPorts == Noted(old(ipToPorts), found);
      normalized := normalized + [Doc(source, found.ip, found.port, log.raw, tags)];
    }

    // One collection's turn over what the query answered.
    method Poll(source: string, cursor: seq<Log>)
      modifies this
      ensures View() == HandleAll(reader, old(View()), Entries(source, cursor))
    {
      ghost var all := Entries(source, cursor);
      for k := 0 to |cursor|
        invariant View() == HandleAll(reader, old(View()), all[..k])
      {
        assert all[..k + 1][..k] == all[..k];
        Take(source, cursor[k]);
      }
      assert all[..|cursor|] == all;
    }

    // The loop's body: every collection in turn.
    method Pass(sources: seq<string>, world: World) returns (after: World)
      requires world.state == View()
      modifies this
      ensures after.state == View()
      ensures after == Polled(reader, world, sources)
    {
      after := world;
      for k := 0 to |sources|
        invariant after.state == View()
        invariant after == Polled(reader, world, sources[..k])
      {
        assert sources[..k + 1][..k] == sources[..k];
        var cursor := Query(View(), sources[k], Store(after, sources[k]));
        Poll(sources[k], cursor);
        after := World(after.stores, View(), after.handled + Entries(sources[k], cursor));
      }
      assert sources[..|sources|] == sources;
    }
  }

  function Polled(r: Reader, w: World, sources: seq<string>): World
    decreases |sources|
  {
    if sources == [] then w
    else Step(r, Polled(r, w, sources[..|sources| - 1]), Poll(sources[|sources| - 1]))
  }
}
