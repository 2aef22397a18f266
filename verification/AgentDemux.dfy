/** Demultiplexing one agent's message stream into connections. `name` renders an address, as net.Addr.String. */
module AgentDemux {
  import opened Words
  import opened AgentWire

  // `taken` is what the handler has read so far.
  datatype Conn = Conn(laddr: Addr, raddr: Addr, buff: seq<byte>, closed: bool, taken: seq<byte>)

  // `all` lists every connection ever announced; `live` is the listener's slice of them, by position in `all`.
  datatype Session = Session(all: seq<Conn>, live: seq<nat>, out: seq<Message>, ended: bool)

  datatype Event = FromAgent(m: Message) | Hangup | HandlerReads(k: nat, n: nat) | HandlerCloses(k: nat)

  type Naming = Addr -> string

  predicate Same(name: Naming, l: Addr, r: Addr, l': Addr, r': Addr) { name(l) == name(l') && name(r) == name(r') }

  // Connections.Get: the first live connection of the pair, as a position in `live`.
  function Lookup(name: Naming, s: Session, l: Addr, r: Addr, from: nat): nat
    requires from <= |s.live|
    decreases |s.live| - from
  {
    if from == |s.live| then from
    else
      var k := s.live[from];
      if k < |s.all| && Same(name, s.all[k].laddr, s.all[k].raddr, l, r) then from else Lookup(name, s, l, r, from + 1)
  }

  function ReceiveInto(c: Conn, payload: seq<byte>): Conn { if c.closed then c else c.(buff := c.buff + payload) }

  function CloseOne(s: Session, k: nat): Session {
    if k < |s.all| && !s.all[k].closed then
      s.(all := s.all[k := s.all[k].(closed := true)], out := s.out + [Eof(s.all[k].laddr, s.all[k].raddr)])
    else s
  }

  // The deferred clean-up: every live connection is closed, and what it sends is drained.
  function End(s: Session): Session {
    s.(ended := true, all := seq(|s.all|, i requires 0 <= i < |s.all| =>
         if i in s.live then s.all[i].(closed := true) else s.all[i]))
  }

  function OnMessage(name: Naming, s: Session, m: Message): Session {
    match m
    case Hello(l, r) => s.(all := s.all + [Conn(l, r, [], false, [])], live := s.live + [|s.all|])
    case ReadWriteTcp(l, r, payload) =>
      var i := Lookup(name, s, l, r, 0);
      if i < |s.live| && s.live[i] < |s.all| then
        s.(all := s.all[s.live[i] := ReceiveInto(s.all[s.live[i]], payload)])
      else s
    case Eof(l, r) =>
      var i := Lookup(name, s, l, r, 0);
      if i < |s.live| then CloseOne(s.(live := s.live[..i] + s.live[i + 1..]), s.live[i]) else s
    // a datagram between addresses that are not UDP panics, and the session ends
    case ReadWriteUdp(l, r, _) => if l.UdpAddr? && r.UdpAddr? then s else End(s)
    case _ => s
  }

  function Step(name: Naming, s: Session, e: Event): Session {
    match e
    case FromAgent(m) => if s.ended then s else OnMessage(name, s, m)
    case Hangup => if s.ended then s else End(s)
    case HandlerReads(k, n) =>
      if k < |s.all| then
        var c := s.all[k];
        var got := if n <= |c.buff| then n else |c.buff|;
        s.(all := s.all[k := c.(buff := c.buff[got..], taken := c.taken + c.buff[..got])])
      else s
    case HandlerCloses(k) => CloseOne(s, k)
  }

  const EMPTY := Session([], [], [], false)

  function Run(name: Naming, es: seq<Event>): Session {
    if es == [] then EMPTY else Step(name, Run(name, es[..|es| - 1]), es[|es| - 1])
  }

  // ---- What the trace alone says each connection is due ----------------------------------

  predicate Ends(e: Event) {
    e.Hangup? || (e.FromAgent? && e.m.ReadWriteUdp? && !(e.m.laddr.UdpAddr? && e.m.raddr.UdpAddr?))
  }

  predicate Over(es: seq<Event>) { exists i :: 0 <= i < |es| && Ends(es[i]) }

  // The pairs announced, in order.
  function Hellos(es: seq<Event>): seq<(Addr, Addr)> {
    if es == [] then []
    else
      var e := es[|es| - 1];
      Hellos(es[..|es| - 1]) +
        if e.FromAgent? && e.m.Hello? && !Over(es[..|es| - 1]) then [(e.m.laddr, e.m.raddr)] else []
  }

  predicate Concerns(name: Naming, m: Message, pair: (Addr, Addr)) {
    (m.ReadWriteTcp? || m.Eof? || m.Hello?) && Same(name, pair.0, pair.1, m.laddr, m.raddr)
  }

  // The agent sent EOF for the k-th announced pair after announcing it.
  predicate Finished(name: Naming, es: seq<Event>, k: nat) {
    es != [] &&
    var most, e := es[..|es| - 1], es[|es| - 1];
    k < |Hellos(most)| &&
    (Finished(name, most, k) || (!Over(most) && e.FromAgent? && e.m.Eof? && Concerns(name, e.m, Hellos(most)[k])))
  }

  // The connection no longer takes data: EOF, closed by its handler, or the session is over.
  predicate Shut(name: Naming, es: seq<Event>, k: nat) {
    es != [] &&
    var most, e := es[..|es| - 1], es[|es| - 1];
    k < |Hellos(most)| && (Shut(name, most, k) || Finished(name, es, k) || e == HandlerCloses(k) || Over(es))
  }

  // The payloads for the k-th announced pair between its announcement and its shutting, in order.
  function Due(name: Naming, es: seq<Event>, k: nat): seq<byte> {
    if es == [] then []
    else
      var most, e := es[..|es| - 1], es[|es| - 1];
      Due(name, most, k) +
        if e.FromAgent? && e.m.ReadWriteTcp? && k < |Hellos(most)| && Concerns(name, e.m, Hellos(most)[k])
           && !Shut(name, most, k) && !Over(most)
        then e.m.payload else []
  }

  // No pair is announced again before its EOF.
  ghost predicate NoReannouncement(name: Naming, es: seq<Event>) {
    es == [] ||
    var most, e := es[..|es| - 1], es[|es| - 1];
    NoReannouncement(name, most) &&
    (e.FromAgent? && e.m.Hello? && !Over(most) ==>
      forall k :: 0 <= k < |Hellos(most)| && Concerns(name, e.m, Hellos(most)[k]) ==> Finished(name, most, k))
  }

  // ---- The session follows the trace -----------------------------------------------------

  ghost predicate ConnOk(name: Naming, es: seq<Event>, c: Conn, k: nat) {
    && k < |Hellos(es)| && (c.laddr, c.raddr) == Hellos(es)[k]
    && c.closed == Shut(name, es, k)
    && c.taken + c.buff == Due(name, es, k)
  }

  ghost predicate LiveOk(name: Naming, es: seq<Event>, live: seq<nat>) {
    && (forall k: nat :: k in live <==> k < |Hellos(es)| && !Finished(name, es, k))
    && Apart(name, Hellos(es), live)
  }

  // No connection is listed twice, and no two listed ones are of the same pair.
  ghost predicate Apart(name: Naming, pairs: seq<(Addr, Addr)>, live: seq<nat>) {
    && (forall i, j :: 0 <= i < j < |live| ==> live[i] != live[j])
    && (forall j, k :: j in live && k in live && j != k && j < |pairs| && k < |pairs| ==>
          !Same(name, pairs[j].0, pairs[j].1, pairs[k].0, pairs[k].1))
  }

  ghost predicate Follows(name: Naming, es: seq<Event>, s: Session) {
    && |s.all| == |Hellos(es)|
    && (forall k :: 0 <= k < |s.all| ==> ConnOk(name, es, s.all[k], k))
    && s.ended == Over(es)
    && (!s.ended ==> LiveOk(name, es, s.live))
  }

  lemma LiveBelow(name: Naming, es: seq<Event>, s: Session)
    requires Follows(name, es, s) && !s.ended
    ensures forall i :: 0 <= i < |s.live| ==> s.live[i] < |s.all|
  {
    forall i | 0 <= i < |s.live| ensures s.live[i] < |s.all| { assert s.live[i] in s.live; }
  }

  lemma {:induction false} LookupMeaning(name: Naming, s: Session, l: Addr, r: Addr, from: nat)
    requires from <= |s.live| && forall i :: 0 <= i < |s.live| ==> s.live[i] < |s.all|
    ensures var i := Lookup(name, s, l, r, from);
      && from <= i <= |s.live|
      && (i < |s.live| ==> Same(name, s.all[s.live[i]].laddr, s.all[s.live[i]].raddr, l, r))
      && forall j :: from <= j < i ==> !Same(name, s.all[s.live[j]].laddr, s.all[s.live[j]].raddr, l, r)
    decreases |s.live| - from
  {
    if from < |s.live| && !Same(name, s.all[s.live[from]].laddr, s.all[s.live[from]].raddr, l, r) {
      LookupMeaning(name, s, l, r, from + 1);
    }
  }

  lemma OverSnoc(es: seq<Event>, e: Event)
    ensures Over(es + [e]) == (Over(es) || Ends(e))
  {
    var fs := es + [e];
    if Over(es) { var i :| 0 <= i < |es| && Ends(es[i]); assert Ends(fs[i]); }
    if Ends(e) { assert Ends(fs[|es|]); }
  }

  // The trace functions one event later.
  predicate Announces(es: seq<Event>, e: Event) { e.FromAgent? && e.m.Hello? && !Over(es) }

  predicate Finishes(name: Naming, es: seq<Event>, e: Event, k: nat) {
    k < |Hellos(es)| && !Over(es) && e.FromAgent? && e.m.Eof? && Concerns(name, e.m, Hellos(es)[k])
  }

  predicate Feeds(name: Naming, es: seq<Event>, e: Event, k: nat) {
    && k < |Hellos(es)| && !Over(es) && e.FromAgent? && e.m.ReadWriteTcp?
    && Concerns(name, e.m, Hellos(es)[k]) && !Shut(name, es, k)
  }

  lemma OneLater(name: Naming, es: seq<Event>, e: Event, k: nat)
    ensures Hellos(es + [e]) == Hellos(es) + if Announces(es, e) then [(e.m.laddr, e.m.raddr)] else []
    ensures Finished(name, es + [e], k) == (k < |Hellos(es)| && (Finished(name, es, k) || Finishes(name, es, e, k)))
    ensures Shut(name, es + [e], k) ==
        (k < |Hellos(es)| &&
         (Shut(name, es, k) || Finished(name, es + [e], k) || e == HandlerCloses(k) || Over(es) || Ends(e)))
    ensures Due(name, es + [e], k) == Due(name, es, k) + if Feeds(name, es, e, k) then e.m.payload else []
  {
    assert (es + [e])[..|es|] == es;
    OverSnoc(es, e);
  }

  lemma {:induction false} NothingBeforeHello(name: Naming, es: seq<Event>, k: nat)
    ensures k >= |Hellos(es)| ==> Due(name, es, k) == [] && !Shut(name, es, k) && !Finished(name, es, k)
    ensures Finished(name, es, k) ==> Shut(name, es, k)
  {
    if es != [] { NothingBeforeHello(name, es[..|es| - 1], k); }
  }

  // ---- One event at a time ---------------------------------------------------------------

  // Nothing live is of the announced pair.
  lemma AnnouncedApart(name: Naming, es: seq<Event>, s: Session, e: Event)
    requires Follows(name, es, s) && NoReannouncement(name, es + [e]) && !s.ended && e.FromAgent? && e.m.Hello?
    ensures forall k :: k in s.live ==>
        k < |Hellos(es)| && !Same(name, Hellos(es)[k].0, Hellos(es)[k].1, e.m.laddr, e.m.raddr)
  {
    assert (es + [e])[..|es|] == es;
    forall k | k in s.live ensures !Concerns(name, e.m, Hellos(es)[k]) {}
  }

  lemma ApartGrows(name: Naming, pairs: seq<(Addr, Addr)>, live: seq<nat>, l: Addr, r: Addr, grown: seq<nat>)
    requires Apart(name, pairs, live) && grown == live + [|pairs|]
    requires forall k :: k in live ==> k < |pairs| && !Same(name, pairs[k].0, pairs[k].1, l, r)
    ensures Apart(name, pairs + [(l, r)], grown)
    ensures forall k: nat :: k in grown <==> k in live || k == |pairs|
  {
    assert grown[|live|] == |pairs|;
    forall i, j | 0 <= i < j < |grown| ensures grown[i] != grown[j] {
      assert grown[i] == live[i] && live[i] in live;
    }
  }

  lemma HelloLive(name: Naming, es: seq<Event>, s: Session, e: Event, live: seq<nat>)
    requires Follows(name, es, s) && NoReannouncement(name, es + [e]) && !s.ended
    requires e.FromAgent? && e.m.Hello? && live == s.live + [|s.all|]
    ensures LiveOk(name, es + [e], live)
  {
    AnnouncedApart(name, es, s, e);
    ApartGrows(name, Hellos(es), s.live, e.m.laddr, e.m.raddr, live);
    OneLater(name, es, e, 0);
    forall k: nat ensures k in live <==> k < |Hellos(es + [e])| && !Finished(name, es + [e], k) {
      OneLater(name, es, e, k);
      NothingBeforeHello(name, es, k);
    }
  }

  lemma HelloFollows(name: Naming, es: seq<Event>, s: Session, e: Event)
    requires Follows(name, es, s) && NoReannouncement(name, es + [e]) && !s.ended
    requires e.FromAgent? && e.m.Hello?
    ensures Follows(name, es + [e], Step(name, s, e))
  {
    var t, n := Step(name, s, e), |s.all|;
    OverSnoc(es, e);
    OneLater(name, es, e, 0);
    forall k | 0 <= k <= n ensures ConnOk(name, es + [e], t.all[k], k) {
      OneLater(name, es, e, k);
      NothingBeforeHello(name, es, k);
      if k < n { assert ConnOk(name, es, s.all[k], k); }
    }
    HelloLive(name, es, s, e, t.live);
  }

  lemma UnaffectedFollows(name: Naming, es: seq<Event>, s: Session, e: Event)
    requires Follows(name, es, s) && !Announces(es, e) && !Ends(e) && !e.HandlerReads?
    requires forall k :: 0 <= k < |s.all| ==>
        !Finishes(name, es, e, k) && !Feeds(name, es, e, k) && (e == HandlerCloses(k) ==> s.all[k].closed)
    ensures Follows(name, es + [e], s)
  {
    OverSnoc(es, e);
    OneLater(name, es, e, 0);
    forall k | 0 <= k < |s.all| ensures ConnOk(name, es + [e], s.all[k], k) {
      OneLater(name, es, e, k);
      NothingBeforeHello(name, es, k);
      assert ConnOk(name, es, s.all[k], k);
      if s.ended { OverShuts(name, es, k); }
    }
    if !s.ended {
      forall k: nat ensures k in s.live <==> k < |Hellos(es + [e])| && !Finished(name, es + [e], k) {
        OneLater(name, es, e, k);
      }
    }
  }

  lemma {:induction false} OverShuts(name: Naming, es: seq<Event>, k: nat)
    requires Over(es) && k < |Hellos(es)|
    ensures Shut(name, es, k)
  {
    var most := es[..|es| - 1];
    assert most + [es[|es| - 1]] == es;
    OneLater(name, most, es[|es| - 1], k);
    OverSnoc(most, es[|es| - 1]);
  }

  // Lookup finds the only live connection of the pair, if there is one.
  lemma TheLiveOne(name: Naming, es: seq<Event>, s: Session, l: Addr, r: Addr)
    requires Follows(name, es, s) && !s.ended
    ensures var i := Lookup(name, s, l, r, 0);
      && i <= |s.live| && (i < |s.live| ==> s.live[i] < |s.all|)
      && forall k :: (0 <= k < |Hellos(es)| && !Finished(name, es, k) &&
                      Same(name, Hellos(es)[k].0, Hellos(es)[k].1, l, r))
                     <==> i < |s.live| && k == s.live[i]
  {
    LiveBelow(name, es, s);
    LookupMeaning(name, s, l, r, 0);
    var i := Lookup(name, s, l, r, 0);
    assert forall k :: 0 <= k < |s.all| ==> ConnOk(name, es, s.all[k], k);
    forall k | 0 <= k < |Hellos(es)| && !Finished(name, es, k) && Same(name, Hellos(es)[k].0, Hellos(es)[k].1, l, r)
      ensures i < |s.live| && k == s.live[i]
    {
      assert k in s.live;
      var j :| 0 <= j < |s.live| && s.live[j] == k;
      assert i <= j;
    }
    if i < |s.live| { assert ConnOk(name, es, s.all[s.live[i]], s.live[i]); }
  }

  // One connection changes, as it is due; the listener's slice stays.
  lemma OneConnFollows(name: Naming, es: seq<Event>, s: Session, e: Event, k: nat, c: Conn, t: Session)
    requires Follows(name, es, s) && !Announces(es, e) && !Ends(e) && k < |s.all|
    requires t.all == s.all[k := c] && t.ended == s.ended
    requires c.laddr == s.all[k].laddr && c.raddr == s.all[k].raddr
    requires c.closed == Shut(name, es + [e], k) && c.taken + c.buff == Due(name, es + [e], k)
    requires forall j :: 0 <= j < |s.all| && j != k ==>
        !Finishes(name, es, e, j) && !Feeds(name, es, e, j) && e != HandlerCloses(j)
    requires !s.ended ==> LiveOk(name, es + [e], t.live)
    ensures Follows(name, es + [e], t)
  {
    OverSnoc(es, e);
    OneLater(name, es, e, k);
    assert ConnOk(name, es, s.all[k], k);
    forall j | 0 <= j < |s.all| ensures ConnOk(name, es + [e], t.all[j], j) {
      OneLater(name, es, e, j);
      NothingBeforeHello(name, es, j);
      assert ConnOk(name, es, s.all[j], j);
      if s.ended { OverShuts(name, es, j); }
    }
  }

  // Without an EOF the set of live connections stays.
  lemma LiveStays(name: Naming, es: seq<Event>, e: Event, live: seq<nat>)
    requires LiveOk(name, es, live) && !Announces(es, e)
    requires forall k :: 0 <= k < |Hellos(es)| ==> !Finishes(name, es, e, k)
    ensures LiveOk(name, es + [e], live)
  {
    OneLater(name, es, e, 0);
    forall k: nat ensures k in live <==> k < |Hellos(es + [e])| && !Finished(name, es + [e], k) {
      OneLater(name, es, e, k);
    }
  }

  // Every connection the message concerns has had its EOF, except the k-th.
  ghost predicate OnlyFor(name: Naming, es: seq<Event>, m: Message, k: nat) {
    forall j :: 0 <= j < |Hellos(es)| && Concerns(name, m, Hellos(es)[j]) ==> j == k || Finished(name, es, j)
  }

  // Where the lookup for a message ends, and what that says about the trace.
  lemma Target(name: Naming, es: seq<Event>, s: Session, m: Message) returns (i: nat)
    requires Follows(name, es, s) && !s.ended && (m.ReadWriteTcp? || m.Eof?)
    ensures i == Lookup(name, s, m.laddr, m.raddr, 0) <= |s.live|
    ensures if i == |s.live| then OnlyFor(name, es, m, |s.all|)
            else var k := s.live[i];
              k < |s.all| && OnlyFor(name, es, m, k) && Concerns(name, m, Hellos(es)[k]) && !Finished(name, es, k)
  {
    TheLiveOne(name, es, s, m.laddr, m.raddr);
    i := Lookup(name, s, m.laddr, m.raddr, 0);
  }

  lemma FinishedIsShut(name: Naming, es: seq<Event>)
    ensures forall k: nat :: Finished(name, es, k) ==> Shut(name, es, k)
  {
    forall k: nat ensures Finished(name, es, k) ==> Shut(name, es, k) { NothingBeforeHello(name, es, k); }
  }

  lemma DataToOne(name: Naming, es: seq<Event>, s: Session, e: Event, k: nat, t: Session)
    requires Follows(name, es, s) && !s.ended && e.FromAgent? && e.m.ReadWriteTcp? && k < |s.all|
    requires OnlyFor(name, es, e.m, k) && Concerns(name, e.m, Hellos(es)[k])
    requires t == s.(all := s.all[k := ReceiveInto(s.all[k], e.m.payload)])
    ensures Follows(name, es + [e], t)
  {
    assert ConnOk(name, es, s.all[k], k);
    OneLater(name, es, e, k);
    FinishedIsShut(name, es);
    LiveStays(name, es, e, s.live);
    NothingBeforeHello(name, es, k);
    OneConnFollows(name, es, s, e, k, t.all[k], t);
  }

  lemma DataToNone(name: Naming, es: seq<Event>, s: Session, e: Event)
    requires Follows(name, es, s) && !s.ended && e.FromAgent? && e.m.ReadWriteTcp?
    requires OnlyFor(name, es, e.m, |s.all|)
    ensures Follows(name, es + [e], s)
  {
    FinishedIsShut(name, es);
    UnaffectedFollows(name, es, s, e);
  }

  lemma DataFollows(name: Naming, es: seq<Event>, s: Session, e: Event)
    requires Follows(name, es, s) && !s.ended && e.FromAgent? && e.m.ReadWriteTcp?
    ensures Follows(name, es + [e], Step(name, s, e))
  {
    var i := Target(name, es, s, e.m);
    if i < |s.live| {
      DataToOne(name, es, s, e, s.live[i], Step(name, s, e));
    } else {
      DataToNone(name, es, s, e);
    }
  }

  lemma WithoutOne(live: seq<nat>, i: nat, rest: seq<nat>)
    requires i < |live| && rest == live[..i] + live[i + 1..]
    requires forall j, k :: 0 <= j < k < |live| ==> live[j] != live[k]
    ensures forall j, k :: 0 <= j < k < |rest| ==> rest[j] != rest[k]
    ensures forall x :: x in rest <==> x in live && x != live[i]
  {
    forall x | x in live && x != live[i] ensures x in rest {
      var j :| 0 <= j < |live| && live[j] == x;
      assert rest[if j < i then j else j - 1] == x;
    }
  }

  lemma EofLive(name: Naming, es: seq<Event>, s: Session, e: Event, i: nat)
    requires Follows(name, es, s) && !s.ended && e.FromAgent? && e.m.Eof? && i < |s.live|
    requires forall k :: 0 <= k < |Hellos(es)| && !Finished(name, es, k) ==>
        (Finishes(name, es, e, k) <==> k == s.live[i])
    ensures LiveOk(name, es + [e], s.live[..i] + s.live[i + 1..])
  {
    var rest := s.live[..i] + s.live[i + 1..];
    OneLater(name, es, e, 0);
    WithoutOne(s.live, i, rest);
    forall k: nat ensures k in rest <==> k < |Hellos(es + [e])| && !Finished(name, es + [e], k) {
      OneLater(name, es, e, k);
    }
  }

  lemma EofFollows(name: Naming, es: seq<Event>, s: Session, e: Event)
    requires Follows(name, es, s) && !s.ended && e.FromAgent? && e.m.Eof?
    ensures Follows(name, es + [e], Step(name, s, e))
  {
    var i := Target(name, es, s, e.m);
    if i < |s.live| {
      EofToOne(name, es, s, e, i, s.live[i], Step(name, s, e));
    } else {
      EofUnknown(name, es, s, e);
    }
  }

  lemma EofToOne(name: Naming, es: seq<Event>, s: Session, e: Event, i: nat, k: nat, t: Session)
    requires Follows(name, es, s) && !s.ended && e.FromAgent? && e.m.Eof? && i < |s.live| && k == s.live[i] < |s.all|
    requires OnlyFor(name, es, e.m, k) && Concerns(name, e.m, Hellos(es)[k]) && !Finished(name, es, k)
    requires t.all == s.all[k := s.all[k].(closed := true)] && t.ended == s.ended
    requires t.live == s.live[..i] + s.live[i + 1..]
    ensures Follows(name, es + [e], t)
  {
    EofLive(name, es, s, e, i);
    EofOneConn(name, es, s, e, k, t);
  }

  // An EOF for a pair also finishes connections of the pair that were finished before.
  lemma EofOneConn(name: Naming, es: seq<Event>, s: Session, e: Event, k: nat, t: Session)
    requires Follows(name, es, s) && !s.ended && e.FromAgent? && e.m.Eof? && k < |s.all| && Finishes(name, es, e, k)
    requires t.all == s.all[k := s.all[k].(closed := true)] && t.ended == s.ended
    requires forall j :: 0 <= j < |s.all| && j != k && Finishes(name, es, e, j) ==> Finished(name, es, j)
    requires LiveOk(name, es + [e], t.live)
    ensures Follows(name, es + [e], t)
  {
    OverSnoc(es, e);
    OneLater(name, es, e, k);
    forall j | 0 <= j < |s.all| ensures ConnOk(name, es + [e], t.all[j], j) {
      OneLater(name, es, e, j);
      NothingBeforeHello(name, es, j);
      assert ConnOk(name, es, s.all[j], j);
    }
  }

  lemma EofUnknown(name: Naming, es: seq<Event>, s: Session, e: Event)
    requires Follows(name, es, s) && !s.ended && e.FromAgent? && e.m.Eof?
    requires forall j :: 0 <= j < |s.all| && Finishes(name, es, e, j) ==> Finished(name, es, j)
    ensures Follows(name, es + [e], s)
  {
    OverSnoc(es, e);
    OneLater(name, es, e, 0);
    forall j | 0 <= j < |s.all| ensures ConnOk(name, es + [e], s.all[j], j) {
      OneLater(name, es, e, j);
      NothingBeforeHello(name, es, j);
      assert ConnOk(name, es, s.all[j], j);
    }
    forall k: nat ensures k in s.live <==> k < |Hellos(es + [e])| && !Finished(name, es + [e], k) {
      OneLater(name, es, e, k);
    }
  }

  lemma EndFollows(name: Naming, es: seq<Event>, s: Session, e: Event)
    requires Follows(name, es, s) && !s.ended && Ends(e)
    ensures Follows(name, es + [e], End(s))
  {
    OverSnoc(es, e);
    OneLater(name, es, e, 0);
    forall k | 0 <= k < |s.all| ensures ConnOk(name, es + [e], End(s).all[k], k) {
      OneLater(name, es, e, k);
      NothingBeforeHello(name, es, k);
      assert ConnOk(name, es, s.all[k], k);
    }
  }

  lemma HandlerFollows(name: Naming, es: seq<Event>, s: Session, e: Event)
    requires Follows(name, es, s) && (e.HandlerReads? || e.HandlerCloses?)
    ensures Follows(name, es + [e], Step(name, s, e))
  {
    OverSnoc(es, e);
    OneLater(name, es, e, e.k);
    NothingBeforeHello(name, es, e.k);
    if !s.ended { LiveStays(name, es, e, s.live); }
    var t := Step(name, s, e);
    if e.k < |s.all| {
      assert ConnOk(name, es, s.all[e.k], e.k);
      if s.ended { OverShuts(name, es, e.k); }
      assert t.all == s.all[e.k := t.all[e.k]];
      if e.HandlerReads? {
        var c := s.all[e.k];
        var got := if e.n <= |c.buff| then e.n else |c.buff|;
        assert c.taken + c.buff[..got] + c.buff[got..] == c.taken + c.buff;
      }
      OneConnFollows(name, es, s, e, e.k, t.all[e.k], t);
    } else {
      forall j | 0 <= j < |s.all| ensures ConnOk(name, es + [e], s.all[j], j) {
        OneLater(name, es, e, j);
        assert ConnOk(name, es, s.all[j], j);
        if s.ended { OverShuts(name, es, j); }
        NothingBeforeHello(name, es, j);
      }
    }
  }

  lemma StepFollows(name: Naming, es: seq<Event>, s: Session, e: Event)
    requires Follows(name, es, s) && NoReannouncement(name, es + [e])
    ensures Follows(name, es + [e], Step(name, s, e))
  {
    if e.HandlerReads? || e.HandlerCloses? {
      HandlerFollows(name, es, s, e);
    } else if s.ended {
      StayOver(name, es, s, e);
    } else if Ends(e) {
      EndFollows(name, es, s, e);
    } else if e.m.Hello? {
      HelloFollows(name, es, s, e);
    } else if e.m.ReadWriteTcp? {
      DataFollows(name, es, s, e);
    } else if e.m.Eof? {
      EofFollows(name, es, s, e);
    } else {
      UnaffectedFollows(name, es, s, e);
    }
  }

  lemma StayOver(name: Naming, es: seq<Event>, s: Session, e: Event)
    requires Follows(name, es, s) && s.ended && (e.FromAgent? || e.Hangup?)
    ensures Follows(name, es + [e], s)
  {
    OverSnoc(es, e);
    OneLater(name, es, e, 0);
    forall k | 0 <= k < |s.all| ensures ConnOk(name, es + [e], s.all[k], k) {
      OneLater(name, es, e, k);
      NothingBeforeHello(name, es, k);
      assert ConnOk(name, es, s.all[k], k);
      OverShuts(name, es, k);
    }
  }

  /** If no pair is announced again before its EOF, then under any interleaving of agent messages with the
      handlers' reads and closes every connection gets exactly the payloads due to it, in order: what its
      handler read followed by what is still buffered. */
  lemma {:induction false} DemuxIsFaithful(name: Naming, es: seq<Event>)
    requires NoReannouncement(name, es)
    ensures Follows(name, es, Run(name, es))
  {
    if es != [] {
      var most, e := es[..|es| - 1], es[|es| - 1];
      assert most + [e] == es;
      DemuxIsFaithful(name, most);
      StepFollows(name, most, Run(name, most), e);
    }
  }

  lemma FaithfulConnection(name: Naming, es: seq<Event>, k: nat)
    requires NoReannouncement(name, es) && k < |Run(name, es).all|
    ensures k < |Hellos(es)| && Run(name, es).all[k].taken + Run(name, es).all[k].buff == Due(name, es, k)
  {
    DemuxIsFaithful(name, es);
    assert ConnOk(name, es, Run(name, es).all[k], k);
  }

  // ---- What goes back to the agent -------------------------------------------------------

  // The first announced connection the message concerns that has not had its EOF.
  function Addressee(name: Naming, es: seq<Event>, m: Message, from: nat): nat
    requires from <= |Hellos(es)|
    decreases |Hellos(es)| - from
  {
    if from == |Hellos(es)| || (Concerns(name, m, Hellos(es)[from]) && !Finished(name, es, from)) then from
    else Addressee(name, es, m, from + 1)
  }

  // The EOF of the k-th connection, unless it is shut already.
  function Farewell(name: Naming, es: seq<Event>, k: nat): seq<Message> {
    if k < |Hellos(es)| && !Shut(name, es, k) then [Eof(Hellos(es)[k].0, Hellos(es)[k].1)] else []
  }

  // What the trace alone says is sent: the EOF of each connection, when its handler closes it or the agent's EOF
  // retires it, whichever comes first; nothing at the end of the session.
  function EofsDue(name: Naming, es: seq<Event>): seq<Message> {
    if es == [] then []
    else
      var most, e := es[..|es| - 1], es[|es| - 1];
      EofsDue(name, most) +
        if e.HandlerCloses? then Farewell(name, most, e.k)
        else if e.FromAgent? && e.m.Eof? && !Over(most) then Farewell(name, most, Addressee(name, most, e.m, 0))
        else []
  }

  lemma {:induction false} AddresseeMeaning(name: Naming, es: seq<Event>, m: Message, from: nat, k: nat)
    requires from <= k <= |Hellos(es)| && OnlyFor(name, es, m, k)
    requires k < |Hellos(es)| ==> Concerns(name, m, Hellos(es)[k]) && !Finished(name, es, k)
    ensures Addressee(name, es, m, from) == k
    decreases k - from
  {
    if from < k { AddresseeMeaning(name, es, m, from + 1, k); }
  }

  lemma RetiringSends(name: Naming, es: seq<Event>, s: Session, m: Message)
    requires Follows(name, es, s) && !s.ended && m.Eof?
    ensures OnMessage(name, s, m).out == s.out + Farewell(name, es, Addressee(name, es, m, 0))
  {
    var i := Target(name, es, s, m);
    var k := if i < |s.live| then s.live[i] else |s.all|;
    AddresseeMeaning(name, es, m, 0, k);
    if k < |s.all| { assert ConnOk(name, es, s.all[k], k); }
  }

  lemma ClosingSends(name: Naming, es: seq<Event>, s: Session, k: nat)
    requires Follows(name, es, s)
    ensures CloseOne(s, k).out == s.out + Farewell(name, es, k)
  {
    if k < |s.all| { assert ConnOk(name, es, s.all[k], k); }
  }

  /** If no pair is announced again before its EOF, the agent is sent exactly the EOFs due, in order: one for each
      connection that its handler closes or the agent's EOF retires, with the connection's own pair. */
  lemma {:induction false} EofsGoOut(name: Naming, es: seq<Event>)
    requires NoReannouncement(name, es)
    ensures Run(name, es).out == EofsDue(name, es)
  {
    if es != [] {
      var most, e := es[..|es| - 1], es[|es| - 1];
      var s := Run(name, most);
      EofsGoOut(name, most);
      DemuxIsFaithful(name, most);
      if e.HandlerCloses? { ClosingSends(name, most, s, e.k); }
      if e.FromAgent? && e.m.Eof? && !s.ended { RetiringSends(name, most, s, e.m); }
    }
  }

  // After a Hello the pair is looked up where it was before, or at the new end of the slice.
  lemma LookupAfterHello(name: Naming, s: Session, l: Addr, r: Addr)
    requires forall i :: 0 <= i < |s.live| ==> s.live[i] < |s.all|
    ensures Lookup(name, OnMessage(name, s, Hello(l, r)), l, r, 0) == Lookup(name, s, l, r, 0) <= |s.live|
  {
    var t := OnMessage(name, s, Hello(l, r));
    LookupMeaning(name, t, l, r, 0);
    LookupMeaning(name, s, l, r, 0);
    var i, j := Lookup(name, s, l, r, 0), Lookup(name, t, l, r, 0);
    assert t.live[|s.live|] == |s.all| && t.all[|s.all|] == Conn(l, r, [], false, []);
    assert forall m :: 0 <= m < |s.live| ==> t.live[m] == s.live[m] && t.all[t.live[m]] == s.all[s.live[m]];
    assert i < |s.live| ==> j <= i;
    assert j < |s.live| ==> i <= j;
  }

  function Announced(name: Naming, s: Session, l: Addr, r: Addr, payload: seq<byte>): Session {
    OnMessage(name, OnMessage(name, s, Hello(l, r)), ReadWriteTcp(l, r, payload))
  }

  lemma NewOneServedExactly(name: Naming, s: Session, l: Addr, r: Addr, payload: seq<byte>)
    requires payload != [] && forall i :: 0 <= i < |s.live| ==> s.live[i] < |s.all|
    ensures |Announced(name, s, l, r, payload).all| == |s.all| + 1
    ensures Announced(name, s, l, r, payload).all[|s.all|].buff == payload <==> Lookup(name, s, l, r, 0) == |s.live|
  {
    LookupAfterHello(name, s, l, r);
    var t := OnMessage(name, s, Hello(l, r));
    var i := Lookup(name, s, l, r, 0);
    assert t.live[i] == |s.all| <==> i == |s.live|;
    assert t.all[|s.all|].buff == [];
  }

  // The k-th connection is one of the pair's, and has not had its EOF.
  predicate Waiting(name: Naming, es: seq<Event>, l: Addr, r: Addr, k: nat) {
    k < |Hellos(es)| && Same(name, Hellos(es)[k].0, Hellos(es)[k].1, l, r) && !Finished(name, es, k)
  }

  /** The condition is needed: in a session that follows its trace, a connection announced for a pair gets the
      pair's next payload exactly when every earlier connection of the pair has had its EOF. */
  lemma ReannouncedIsStarved(name: Naming, es: seq<Event>, s: Session, l: Addr, r: Addr, payload: seq<byte>)
    requires Follows(name, es, s) && !s.ended && payload != []
    ensures var t := Announced(name, s, l, r, payload);
      && |t.all| == |s.all| + 1
      && (t.all[|s.all|].buff == payload <==>
            forall j :: 0 <= j < |Hellos(es)| ==> !Waiting(name, es, l, r, j))
  {
    LiveBelow(name, es, s);
    NewOneServedExactly(name, s, l, r, payload);
    TheLiveOne(name, es, s, l, r);
    var i := Lookup(name, s, l, r, 0);
    assert i < |s.live| ==> 0 <= s.live[i] < |Hellos(es)| && Waiting(name, es, l, r, s.live[i]);
  }

  // ---- From bytes to connections ---------------------------------------------------------

  function Feed(name: Naming, s: Session, ms: seq<Message>): Session
    decreases |ms|
  {
    if ms == [] then s else Feed(name, Step(name, s, FromAgent(ms[0])), ms[1..])
  }

  lemma {:induction false} FeedAfterEnd(name: Naming, s: Session, ms: seq<Message>)
    requires s.ended
    ensures Feed(name, s, ms) == s
    decreases |ms|
  {
    if ms != [] { FeedAfterEnd(name, s, ms[1..]); }
  }

  function Messages(ms: seq<Message>): seq<Event> { seq(|ms|, i requires 0 <= i < |ms| => FromAgent(ms[i])) }

  lemma {:induction false} FeedSnoc(name: Naming, s: Session, ms: seq<Message>, m: Message)
    ensures Feed(name, s, ms + [m]) == Step(name, Feed(name, s, ms), FromAgent(m))
    decreases |ms|
  {
    if ms != [] {
      FeedSnoc(name, Step(name, s, FromAgent(ms[0])), ms[1..], m);
      assert (ms + [m])[1..] == ms[1..] + [m];
    } else {
      assert (ms + [m])[1..] == [];
    }
  }

  lemma {:induction false} FeedIsRun(name: Naming, ms: seq<Message>)
    ensures Feed(name, EMPTY, ms) == Run(name, Messages(ms))
    decreases |ms|
  {
    if ms != [] {
      var most, m := ms[..|ms| - 1], ms[|ms| - 1];
      assert ms == most + [m] && Messages(ms)[..|ms| - 1] == Messages(most);
      FeedSnoc(name, EMPTY, most, m);
      FeedIsRun(name, most);
    }
  }

  /** End to end: what the agent sends as frames, the session buffers per connection as due. */
  lemma SentIsDelivered(name: Naming, ms: seq<Message>, k: nat)
    requires forall i :: 0 <= i < |ms| ==> Addressed(ms[i]) && Fits(ms[i])
    requires NoReannouncement(name, Messages(ms)) && k < |Hellos(Messages(ms))|
    ensures var s := Feed(name, EMPTY, ReceiveAll(SendAll(ms)));
      k < |s.all| && s.all[k].taken + s.all[k].buff == Due(name, Messages(ms), k)
  {
    StreamRoundTrip(ms);
    FeedIsRun(name, ms);
    DemuxIsFaithful(name, Messages(ms));
    assert ConnOk(name, Messages(ms), Run(name, Messages(ms)).all[k], k);
  }
}
