/** Honeytrap's port table, the choice of a service for a connection, and the peeking connection. */
module Dispatch {
  import opened Options
  import opened Words

  // ---- Addresses -------------------------------------------------------------------------

  // No IP is the wildcard.
  datatype Addr = Tcp(ip: Option<seq<byte>>, port: int) | Udp(ip: Option<seq<byte>>, port: int) | OtherAddr

  const V4_IN_V6: seq<byte> := [0, 0, 0, 0, 0, 0, 0, 0, 0, 0, 0xFF, 0xFF]

  // net.IP.Equal: an IPv4 address equals its 16-byte form.
  predicate IpEqual(a: seq<byte>, b: seq<byte>) {
    if |a| == |b| then a == b
    else if |a| == 4 && |b| == 16 then b[..12] == V4_IN_V6 && a == b[12..]
    else if |a| == 16 && |b| == 4 then a[..12] == V4_IN_V6 && a[12..] == b
    else false
  }

  predicate IpMatches(a: Option<seq<byte>>, b: Option<seq<byte>>) { a.None? || b.None? || IpEqual(a.value, b.value) }

  predicate CompareAddr(a: Addr, b: Addr) {
    match a
    case Tcp(ip, port) => b.Tcp? && port == b.port && IpMatches(ip, b.ip)
    case Udp(ip, port) => b.Udp? && port == b.port && IpMatches(ip, b.ip)
    case OtherAddr => false
  }

  // An IP in its 16-byte form.
  function Wide(ip: seq<byte>): seq<byte> {
    if |ip| == 4 then [0, 0, 0, 0, 0, 0, 0, 0, 0, 0, 0xFF, 0xFF] + ip else ip
  }

  // Same transport, same port, and not two different IPs.
  predicate Meets(a: Addr, b: Addr) {
    && ((a.Tcp? && b.Tcp?) || (a.Udp? && b.Udp?)) && a.port == b.port
    && (a.ip.None? || b.ip.None? || Wide(a.ip.value) == Wide(b.ip.value))
  }

  lemma WideEqual(a: seq<byte>, b: seq<byte>)
    ensures IpEqual(a, b) <==> Wide(a) == Wide(b)
  {
    var p := V4_IN_V6;
    if |a| == 4 && |b| == 4 {
      assert Wide(a)[12..] == a && Wide(b)[12..] == b;
    } else if |a| == 4 && |b| == 16 {
      assert Wide(a)[..12] == p && Wide(a)[12..] == a && b == b[..12] + b[12..];
    } else if |a| == 16 && |b| == 4 {
      assert Wide(b)[..12] == p && Wide(b)[12..] == b && a == a[..12] + a[12..];
    }
  }

  /** Two addresses match exactly when transport and port are the same and the IPs, if both are given, are equal in
      their 16-byte forms. */
  lemma MatchExactly(a: Addr, b: Addr)
    ensures CompareAddr(a, b) <==> Meets(a, b)
  {
    if a != OtherAddr && b != OtherAddr && a.ip.Some? && b.ip.Some? { WideEqual(a.ip.value, b.ip.value); }
  }

  lemma IpEqualEuclidean(a: seq<byte>, b: seq<byte>, c: seq<byte>)
    requires IpEqual(a, c) && IpEqual(b, c)
    ensures IpEqual(a, b)
  {
    if |a| == |b| == 16 && |c| == 4 {
      assert a == a[..12] + a[12..] && b == b[..12] + b[12..];
    }
  }

  predicate Concrete(a: Addr) { a != OtherAddr && a.ip.Some? }

  /** Two addresses that both match one with a concrete IP match each other ... */
  lemma MatchingIsTransitiveThroughConcrete(a: Addr, b: Addr, local: Addr)
    requires Concrete(local) && CompareAddr(a, local) && CompareAddr(b, local)
    ensures CompareAddr(a, b)
  {
    if a.ip.Some? && b.ip.Some? { IpEqualEuclidean(a.ip.value, b.ip.value, local.ip.value); }
  }

  /** ... though not through a wildcard. */
  lemma MatchingIsNotTransitive()
    ensures var (a, w, b) := (Tcp(Some([10, 0, 0, 1]), 80), Tcp(None, 80), Tcp(Some([10, 0, 0, 2]), 80));
      CompareAddr(a, w) && CompareAddr(w, b) && !CompareAddr(a, b)
  {
    assert [10, 0, 0, 1][3] != [10, 0, 0, 2][3];
  }

  // ---- Registration ----------------------------------------------------------------------

  datatype Service = Plain(id: nat) | Checking(id: nat, canHandle: seq<byte> -> bool)

  datatype Entry = Entry(addr: Addr, services: seq<Service>)

  predicate Clashes(ports: seq<Entry>, addr: Addr) { exists i :: 0 <= i < |ports| && CompareAddr(ports[i].addr, addr) }

  function Register(ports: seq<Entry>, wanted: seq<Entry>): seq<Entry>
    decreases |wanted|
  {
    if wanted == [] then ports
    else if wanted[0].services == [] || Clashes(ports, wanted[0].addr) then Register(ports, wanted[1..])
    else Register(ports + [wanted[0]], wanted[1..])
  }

  ghost predicate PairwiseApart(ports: seq<Entry>) {
    forall i, j :: 0 <= i < |ports| && 0 <= j < |ports| && i != j ==> !CompareAddr(ports[i].addr, ports[j].addr)
  }

  lemma CompareSymmetric(a: Addr, b: Addr)
    ensures CompareAddr(a, b) == CompareAddr(b, a)
  {
  }

  /** Whatever the configuration, no two registered addresses match, and every entry is served or clashes. */
  lemma {:induction false} RegisteredApart(ports: seq<Entry>, wanted: seq<Entry>)
    requires PairwiseApart(ports)
    ensures var t := Register(ports, wanted);
      && PairwiseApart(t) && |ports| <= |t| && t[..|ports|] == ports
      && (forall k :: 0 <= k < |wanted| && wanted[k].services != [] && wanted[k].addr != OtherAddr ==>
            Clashes(t, wanted[k].addr))
    decreases |wanted|
  {
    if wanted != [] {
      var first := wanted[0];
      var next := if first.services == [] || Clashes(ports, first.addr) then ports else ports + [first];
      forall i, j | 0 <= i < |next| && 0 <= j < |next| && i != j ensures !CompareAddr(next[i].addr, next[j].addr) {
        CompareSymmetric(next[i].addr, next[j].addr);
      }
      RegisteredApart(next, wanted[1..]);
      var t := Register(ports, wanted);
      assert t[..|ports|] == t[..|next|][..|ports|];
      forall k | 0 <= k < |wanted| && wanted[k].services != [] && wanted[k].addr != OtherAddr
        ensures Clashes(t, wanted[k].addr)
      {
        if k > 0 {
          assert wanted[1..][k - 1] == wanted[k];
        } else {
          if Clashes(ports, first.addr) {
            var i :| 0 <= i < |ports| && CompareAddr(ports[i].addr, first.addr);
            assert t[..|ports|][i] == ports[i];
            assert CompareAddr(t[i].addr, first.addr);
          } else {
            assert t[..|next|][|ports|] == first;
            assert CompareAddr(t[|ports|].addr, first.addr);
          }
        }
      }
    }
  }

  lemma {:induction false} RegisterAppend(ports: seq<Entry>, a: seq<Entry>, b: seq<Entry>)
    ensures Register(ports, a + b) == Register(Register(ports, a), b)
    decreases |a|
  {
    if a == [] {
      assert a + b == b;
    } else {
      assert (a + b)[1..] == a[1..] + b;
      RegisterAppend(if a[0].services == [] || Clashes(ports, a[0].addr) then ports else ports + [a[0]], a[1..], b);
    }
  }

  // Nothing registered already has the entry's transport and port and an equal or absent IP.
  ghost predicate Unmet(ports: seq<Entry>, addr: Addr) { forall i :: 0 <= i < |ports| ==> !Meets(ports[i].addr, addr) }

  /** The k-th configured entry is registered, at the end of the table so far, exactly when it has services and no
      entry registered before it has the same transport, the same port and an equal or absent IP; and what is
      registered so far stays. */
  lemma EntryRegisteredExactly(wanted: seq<Entry>, k: nat)
    requires k < |wanted|
    ensures var before, all := Register([], wanted[..k]), Register([], wanted);
      var after := before + if wanted[k].services != [] && Unmet(before, wanted[k].addr) then [wanted[k]] else [];
      |after| <= |all| && all[..|after|] == after
  {
    var before := Register([], wanted[..k]);
    forall i | 0 <= i < |before|
      ensures CompareAddr(before[i].addr, wanted[k].addr) == Meets(before[i].addr, wanted[k].addr)
    {
      MatchExactly(before[i].addr, wanted[k].addr);
    }
    var next := if wanted[k].services == [] || Clashes(before, wanted[k].addr) then before else before + [wanted[k]];
    RegisterAppend([], wanted[..k], wanted[k..]);
    assert wanted[..k] + wanted[k..] == wanted && wanted[k..][1..] == wanted[k + 1..];
    RegisteredApart([], wanted[..k]);
    forall i, j | 0 <= i < |next| && 0 <= j < |next| && i != j ensures !CompareAddr(next[i].addr, next[j].addr) {
      CompareSymmetric(next[i].addr, next[j].addr);
    }
    RegisteredApart(next, wanted[k + 1..]);
  }

  method RegisterAll(wanted: seq<Entry>) returns (ports: seq<Entry>)
    ensures ports == Register([], wanted)
  {
    ports := [];
    var n := 0;
    while n < |wanted|
      invariant n <= |wanted| && Register(ports, wanted[n..]) == Register([], wanted)
    {
      assert wanted[n..][1..] == wanted[n + 1..];
      var entry := wanted[n];
      n := n + 1;
      if entry.services == [] { continue; }
      var found := false;
      for i := 0 to |ports|
        invariant found == exists k :: 0 <= k < i && CompareAddr(ports[k].addr, entry.addr)
      {
        if CompareAddr(ports[i].addr, entry.addr) { found := true; }
      }
      if found { continue; }
      ports := ports + [entry];
    }
  }

  // ---- Lookup ----------------------------------------------------------------------------

  // The loop over the table in the order the map happens to yield: the last match counts.
  function Candidates(order: seq<Entry>, local: Addr): seq<Service> {
    if order == [] then []
    else if CompareAddr(order[|order| - 1].addr, local) then order[|order| - 1].services
    else Candidates(order[..|order| - 1], local)
  }

  method FindCandidates(order: seq<Entry>, local: Addr) returns (candidates: seq<Service>)
    ensures candidates == Candidates(order, local)
    ensures FoundIn(order, local, candidates)
  {
    candidates := [];
    for i := 0 to |order|
      invariant candidates == Candidates(order[..i], local)
    {
      assert order[..i + 1][..i] == order[..i];
      if !CompareAddr(order[i].addr, local) { continue; }
      candidates := order[i].services;
    }
    assert order[..|order|] == order;
    ServicesFoundExactly(order, local);
  }

  // The services are those of an entry that meets the address, or none when no entry does.
  ghost predicate FoundIn(order: seq<Entry>, local: Addr, services: seq<Service>) {
    || (exists i :: 0 <= i < |order| && Meets(order[i].addr, local) && order[i].services == services)
    || (services == [] && Unmet(order, local))
  }

  /** A connection gets the services of an entry with its local transport and port and an equal or absent IP, and
      gets none exactly when there is no such entry with services. */
  lemma ServicesFoundExactly(order: seq<Entry>, local: Addr)
    ensures FoundIn(order, local, Candidates(order, local))
  {
    CandidatesMeaning(order, local);
    forall i | 0 <= i < |order| ensures CompareAddr(order[i].addr, local) == Meets(order[i].addr, local) {
      MatchExactly(order[i].addr, local);
    }
    if i: nat :| Source(order, local, i) { assert Meets(order[i].addr, local); }
  }

  /** A connection with a concrete local IP matches at most one registered address. */
  lemma AtMostOneMatch(ports: seq<Entry>, local: Addr, i: nat, j: nat)
    requires PairwiseApart(ports) && Concrete(local) && i < |ports| && j < |ports|
    requires CompareAddr(ports[i].addr, local) && CompareAddr(ports[j].addr, local)
    ensures i == j
  {
    MatchingIsTransitiveThroughConcrete(ports[i].addr, ports[j].addr, local);
  }

  ghost predicate Source(order: seq<Entry>, local: Addr, i: nat) {
    i < |order| && CompareAddr(order[i].addr, local) && order[i].services == Candidates(order, local)
  }

  lemma {:induction false} CandidatesMeaning(order: seq<Entry>, local: Addr)
    ensures (exists i: nat :: Source(order, local, i))
      || (Candidates(order, local) == [] && forall i :: 0 <= i < |order| ==> !CompareAddr(order[i].addr, local))
  {
    if order != [] {
      var most := order[..|order| - 1];
      if CompareAddr(order[|order| - 1].addr, local) {
        assert Source(order, local, |order| - 1);
      } else {
        CandidatesMeaning(most, local);
        if i: nat :| Source(most, local, i) { assert Source(order, local, i); }
        else { assert forall i :: 0 <= i < |most| ==> most[i] == order[i]; }
      }
    }
  }

  /** The candidates do not depend on the order in which the table is walked. */
  lemma LookupIgnoresOrder(ports: seq<Entry>, order: seq<Entry>, local: Addr)
    requires PairwiseApart(ports) && Concrete(local) && multiset(order) == multiset(ports)
    ensures Candidates(order, local) == Candidates(ports, local)
  {
    CandidatesMeaning(ports, local);
    CandidatesMeaning(order, local);
    if i: nat :| Source(order, local, i) {
      assert order[i] in multiset(order);
      var k: nat :| k < |ports| && ports[k] == order[i];
      var j: nat :| Source(ports, local, j);
      AtMostOneMatch(ports, local, j, k);
    } else {
      forall j | 0 <= j < |ports| ensures !CompareAddr(ports[j].addr, local) { assert ports[j] in multiset(ports); }
    }
  }

  // Every walk over the table yields the same candidates.
  ghost predicate OrderIndependent(ports: seq<Entry>, local: Addr) {
    forall order :: multiset(order) == multiset(ports) ==> Candidates(order, local) == Candidates(ports, local)
  }

  ghost predicate MatchAlike(ports: seq<Entry>, local: Addr, i: nat, j: nat) {
    i < |ports| && j < |ports| && CompareAddr(ports[i].addr, local) && CompareAddr(ports[j].addr, local) ==>
      ports[i].services == ports[j].services
  }

  lemma AnyMatchCanBeLast(ports: seq<Entry>, local: Addr, i: nat) returns (order: seq<Entry>)
    requires i < |ports| && CompareAddr(ports[i].addr, local)
    ensures multiset(order) == multiset(ports) && Candidates(order, local) == ports[i].services
  {
    order := ports[..i] + ports[i + 1..] + [ports[i]];
    assert ports == ports[..i] + [ports[i]] + ports[i + 1..];
  }

  /** For any table and any local address, the order does not matter exactly when all entries that match have the
      same services. */
  lemma OrderMattersExactly(ports: seq<Entry>, local: Addr)
    ensures OrderIndependent(ports, local) <==> forall i: nat, j: nat :: MatchAlike(ports, local, i, j)
  {
    if OrderIndependent(ports, local) {
      forall i: nat, j: nat ensures MatchAlike(ports, local, i, j) {
        if i < |ports| && j < |ports| && CompareAddr(ports[i].addr, local) && CompareAddr(ports[j].addr, local) {
          var a := AnyMatchCanBeLast(ports, local, i);
          var b := AnyMatchCanBeLast(ports, local, j);
        }
      }
    } else {
      var order :| multiset(order) == multiset(ports) && Candidates(order, local) != Candidates(ports, local);
      var i := PositionOf(ports, order, local);
      var j := PositionOf(ports, ports, local);
      assert !MatchAlike(ports, local, i, j);
    }
  }

  // Where in the table the candidates of a walk come from, when the two walks differ.
  lemma PositionOf(ports: seq<Entry>, order: seq<Entry>, local: Addr) returns (i: nat)
    requires multiset(order) == multiset(ports)
    requires exists other :: multiset(other) == multiset(ports) && Candidates(other, local) != Candidates(order, local)
    ensures i < |ports| && CompareAddr(ports[i].addr, local) && ports[i].services == Candidates(order, local)
  {
    CandidatesMeaning(order, local);
    var other :| multiset(other) == multiset(ports) && Candidates(other, local) != Candidates(order, local);
    SameMatches(order, other, local);
    assert exists k: nat :: Source(order, local, k);
    var k: nat :| Source(order, local, k);
    assert order[k] in multiset(ports);
    i :| i < |ports| && ports[i] == order[k];
  }

  // Two walks over the same table both find nothing, or both find something.
  lemma SameMatches(order: seq<Entry>, other: seq<Entry>, local: Addr)
    requires multiset(order) == multiset(other)
    ensures (exists k: nat :: Source(order, local, k)) || Candidates(other, local) == []
  {
    CandidatesMeaning(order, local);
    CandidatesMeaning(other, local);
    forall i | 0 <= i < |other| ensures exists k :: 0 <= k < |order| && order[k] == other[i] {
      assert other[i] in multiset(order);
    }
  }

  /** A wildcard local address can match several, and then the order decides. */
  lemma WildcardLocalDependsOnOrder(a: Entry, b: Entry)
    requires a.addr == Tcp(Some([10, 0, 0, 1]), 80) && b.addr == Tcp(Some([10, 0, 0, 2]), 80)
    requires a.services != b.services
    ensures PairwiseApart([a, b]) && Candidates([a, b], Tcp(None, 80)) != Candidates([b, a], Tcp(None, 80))
  {
    assert [10, 0, 0, 1][3] != [10, 0, 0, 2][3];
  }

  // ---- Choice and peeking ----------------------------------------------------------------

  // The connection a handler is given, with the bytes it will still deliver: the accepted connection itself, or
  // the peeking connection around it.
  datatype Given = Bare(wire: seq<byte>) | Wrapped(buffer: seq<byte>, wire: seq<byte>)

  datatype Choice = Chosen(service: Service, given: Given) | NoService | PeekFailed

  // `n` is how much the connection's first read delivers, None when it fails; `peeked` is whether it happened.
  function ChooseFrom(candidates: seq<Service>, stream: seq<byte>, n: Option<nat>, peeked: bool, from: nat): Choice
    requires from <= |candidates|
    requires (n.Some? ==> n.value <= |stream|) && (peeked ==> n.Some?)
    decreases |candidates| - from
  {
    if from == |candidates| then NoService
    else
      match candidates[from]
      case Plain(_) => Chosen(candidates[from], Bare(if peeked then stream[n.value..] else stream))
      case Checking(_, canHandle) =>
        if n.None? then PeekFailed
        else if canHandle(stream[..n.value]) then
          Chosen(candidates[from], Wrapped(stream[..n.value], stream[n.value..]))
        else ChooseFrom(candidates, stream, n, true, from + 1)
  }

  function Choose(candidates: seq<Service>, stream: seq<byte>, n: Option<nat>): Choice
    requires n.Some? ==> n.value <= |stream|
  {
    if candidates == [] then NoService
    else if |candidates| == 1 then Chosen(candidates[0], Bare(stream))
    else ChooseFrom(candidates, stream, n, false, 0)
  }

  // ---- Reading ---------------------------------------------------------------------------

  function Min(a: nat, b: nat): nat { if a <= b then a else b }

  // One read into a buffer of the given size, when the transport has up to n bytes at once. The wrapper serves
  // what was peeked first, and goes to the wire only when nothing of it is left.
  function ReadOnce(g: Given, size: nat, n: nat): (seq<byte>, Given) {
    match g
    case Bare(wire) =>
      var got := Min(n, Min(size, |wire|));
      (wire[..got], Bare(wire[got..]))
    case Wrapped(buffer, wire) =>
      if buffer != [] then
        var got := Min(size, |buffer|);
        (buffer[..got], Wrapped(buffer[got..], wire))
      else
        var got := Min(n, Min(size, |wire|));
        (wire[..got], Wrapped([], wire[got..]))
  }

  // One peek: it always goes to the wire, and what it shows is buffered. Only the wrapper can peek.
  function PeekOnce(g: Given, size: nat, n: nat): (seq<byte>, Given) {
    match g
    case Bare(_) => ([], g)
    case Wrapped(buffer, wire) =>
      var got := Min(n, Min(size, |wire|));
      (wire[..got], Wrapped(buffer + wire[..got], wire[got..]))
  }

  datatype Call = Read(size: nat, n: nat) | Peek(size: nat, n: nat)

  // The bytes the reads among the calls hand out, and the connection afterwards.
  function Perform(g: Given, calls: seq<Call>): (seq<byte>, Given)
    decreases |calls|
  {
    if calls == [] then ([], g)
    else
      match calls[0]
      case Read(size, n) =>
        var (p, h) := ReadOnce(g, size, n);
        var (q, after) := Perform(h, calls[1..]);
        (p + q, after)
      case Peek(size, n) => Perform(PeekOnce(g, size, n).1, calls[1..])
  }

  function Remaining(g: Given): seq<byte> { if g.Bare? then g.wire else g.buffer + g.wire }

  lemma ReadOnceKeeps(g: Given, size: nat, n: nat)
    ensures var (p, h) := ReadOnce(g, size, n); p + Remaining(h) == Remaining(g)
  {
    match g
    case Bare(wire) =>
      var got := Min(n, Min(size, |wire|));
      assert wire[..got] + wire[got..] == wire;
    case Wrapped(buffer, wire) =>
      var got := if buffer != [] then Min(size, |buffer|) else 0;
      assert buffer[..got] + (buffer[got..] + wire) == buffer + wire;
      var more := Min(n, Min(size, |wire|));
      assert buffer == [] ==> wire[..more] + ([] + wire[more..]) == buffer + wire;
  }

  lemma PeekOnceKeeps(g: Given, size: nat, n: nat)
    ensures Remaining(PeekOnce(g, size, n).1) == Remaining(g)
  {
  }

  /** Peeking is invisible: whatever the mix of peeks and reads and their sizes, the bytes read, then those
      buffered, then those unread on the wire are the original stream. */
  lemma {:induction false} CallsKeepStream(g: Given, calls: seq<Call>)
    ensures Perform(g, calls).0 + Remaining(Perform(g, calls).1) == Remaining(g)
    decreases |calls|
  {
    if calls != [] {
      match calls[0]
      case Read(size, n) =>
        var (p, h) := ReadOnce(g, size, n);
        ReadOnceKeeps(g, size, n);
        CallsKeepStream(h, calls[1..]);
        var (q, after) := Perform(h, calls[1..]);
        assert p + q + Remaining(after) == p + (q + Remaining(after));
      case Peek(size, n) =>
        PeekOnceKeeps(g, size, n);
        CallsKeepStream(PeekOnce(g, size, n).1, calls[1..]);
    }
  }

  // One read for what was peeked, one for the wire.
  lemma TwoReadsSuffice(g: Given) returns (calls: seq<Call>)
    ensures Perform(g, calls).0 == Remaining(g)
  {
    var n := |Remaining(g)|;
    calls := [Read(n, n), Read(n, n)];
    var (p, h) := ReadOnce(g, n, n);
    var (q, after) := ReadOnce(h, n, n);
    assert calls[1..] == [Read(n, n)] && calls[1..][1..] == [];
    assert Perform(h, calls[1..]) == (q + [], after);
    ReadOnceKeeps(g, n, n);
    ReadOnceKeeps(h, n, n);
    assert Remaining(after) == [];
    assert Perform(g, calls).0 == p + (q + []);
    CallsKeepStream(g, calls);
  }

  // ---- What a handler can read -----------------------------------------------------------

  predicate Willing(s: Service, head: seq<byte>) { s.Plain? || s.canHandle(head) }

  ghost predicate FirstWilling(candidates: seq<Service>, head: seq<byte>, from: nat, i: int) {
    && from <= i < |candidates| && Willing(candidates[i], head)
    && forall j :: from <= j < i ==> !Willing(candidates[j], head)
  }

  // The first willing candidate, on a connection that lacks the peeked bytes when it does not check and a
  // candidate before it does.
  lemma {:induction false} ChooseFromMeaning(candidates: seq<Service>, stream: seq<byte>, n: nat, peeked: bool,
                                             from: nat)
    requires from <= |candidates| && n <= |stream|
    ensures var c := ChooseFrom(candidates, stream, Some(n), peeked, from);
      && !c.PeekFailed?
      && (c.NoService? ==> forall i :: from <= i < |candidates| ==> !Willing(candidates[i], stream[..n]))
      && (c.Chosen? ==>
            && (exists i :: FirstWilling(candidates, stream[..n], from, i) && candidates[i] == c.service)
            && Remaining(c.given) ==
               if c.service.Plain? && (peeked || candidates[from].Checking?) then stream[n..] else stream)
    decreases |candidates| - from
  {
    if from < |candidates| {
      if Willing(candidates[from], stream[..n]) {
        assert FirstWilling(candidates, stream[..n], from, from);
        assert stream[..n] + stream[n..] == stream;
      } else {
        ChooseFromMeaning(candidates, stream, n, true, from + 1);
        var c := ChooseFrom(candidates, stream, Some(n), true, from + 1);
        if c.Chosen? {
          var i :| FirstWilling(candidates, stream[..n], from + 1, i) && candidates[i] == c.service;
          assert FirstWilling(candidates, stream[..n], from, i);
        }
      }
    }
  }

  // Some sequence of calls hands out exactly the bytes.
  ghost predicate CanRead(g: Given, bytes: seq<byte>) { exists calls :: Perform(g, calls).0 == bytes }

  /** The first willing candidate is chosen, and by reading the connection it is given it can get the whole stream
      exactly unless it does not check, the first of several candidates does, and the peek returned something:
      then the peeked bytes are in a wrapper it never sees. */
  lemma HandlerSeesStreamExactly(candidates: seq<Service>, stream: seq<byte>, n: nat)
    requires n <= |stream|
    ensures var c := Choose(candidates, stream, Some(n));
      c.Chosen? ==>
        && (|candidates| > 1 ==> exists i :: FirstWilling(candidates, stream[..n], 0, i) && candidates[i] == c.service)
        && (CanRead(c.given, stream) <==>
            !(c.service.Plain? && |candidates| > 1 && candidates[0].Checking? && n > 0))
        && forall calls :: Perform(c.given, calls).0 <= Remaining(c.given)
  {
    var c := Choose(candidates, stream, Some(n));
    if c.Chosen? {
      if |candidates| > 1 { ChooseFromMeaning(candidates, stream, n, false, 0); }
      assert n == 0 ==> stream[n..] == stream;
      forall calls ensures Perform(c.given, calls).0 <= Remaining(c.given) { CallsKeepStream(c.given, calls); }
      var all := TwoReadsSuffice(c.given);
      assert Remaining(c.given) == stream ==> CanRead(c.given, stream);
    }
  }

  // ---- The objects -----------------------------------------------------------------------

  // An accepted connection, with the bytes the wire will still deliver.
  class Connection {
    var wire: seq<byte>

    constructor (stream: seq<byte>)
      ensures wire == stream
    {
      wire := stream;
    }

    method Read(size: nat, n: nat) returns (p: seq<byte>)
      modifies this
      ensures (p, Bare(wire)) == ReadOnce(Bare(old(wire)), size, n)
    {
      var got := Min(n, Min(size, |wire|));
      p := wire[..got];
      wire := wire[got..];
    }
  }

  class PeekConnection {
    const conn: Connection
    var buffer: seq<byte>

    constructor (conn: Connection)
      ensures this.conn == conn && buffer == []
    {
      this.conn, buffer := conn, [];
    }

    function View(): Given
      reads this, conn
    {
      Wrapped(buffer, conn.wire)
    }

    /** Peeking consumes nothing: with nothing buffered before, the bytes shown come first when reading. */
    method Peek(size: nat, n: nat) returns (p: seq<byte>)
      modifies this, conn
      ensures (p, View()) == PeekOnce(old(View()), size, n)
      ensures Remaining(View()) == old(Remaining(View()))
      ensures old(buffer) == [] ==> p <= Remaining(View())
    {
      p := conn.Read(size, n);
      buffer := buffer + p;
    }

    method Read(size: nat, n: nat) returns (p: seq<byte>)
      modifies this, conn
      ensures (p, View()) == ReadOnce(old(View()), size, n)
      ensures p + Remaining(View()) == old(Remaining(View()))
    {
      ghost var was := View();
      ReadOnceKeeps(was, size, n);
      if buffer != [] {
        var got := Min(size, |buffer|);
        p := buffer[..got];
        buffer := buffer[got..];
      } else {
        p := conn.Read(size, n);
      }
    }
  }

  const PEEK_SIZE: nat := 1024

  // What the first read of up to n bytes delivers; None when it fails.
  function Arrived(stream: seq<byte>, n: Option<nat>): (r: Option<nat>)
    ensures r.Some? ==> r.value <= |stream|
  {
    if n.None? then None else Some(Min(n.value, Min(PEEK_SIZE, |stream|)))
  }

  // The wrapper, and what its first read showed.
  method StartPeek(conn: Connection, n: nat) returns (wrapper: PeekConnection, head: seq<byte>)
    modifies conn
    ensures fresh(wrapper) && wrapper.conn == conn
    ensures var got := Arrived(old(conn.wire), Some(n)).value;
            head == wrapper.buffer == old(conn.wire)[..got] && conn.wire == old(conn.wire)[got..]
  {
    wrapper := new PeekConnection(conn);
    head := wrapper.Peek(PEEK_SIZE, n);
    assert [] + head == head;
  }

  // The second part of findService: the wrapper is made at the first candidate that checks.
  method ChooseService(candidates: seq<Service>, conn: Connection, n: Option<nat>) returns (c: Choice)
    modifies conn
    ensures c == Choose(candidates, old(conn.wire), Arrived(old(conn.wire), n))
    ensures c.Chosen? ==> c.given.wire == conn.wire
  {
    if candidates == [] { return NoService; }
    if |candidates| == 1 { return Chosen(candidates[0], Bare(conn.wire)); }
    ghost var stream, arrived := conn.wire, Arrived(conn.wire, n);
    ghost var first := if n.Some? then stream[..arrived.value] else [];
    ghost var rest := if n.Some? then stream[arrived.value..] else [];
    ghost var answer := Choose(candidates, stream, arrived);
    var wrapper: PeekConnection? := null;
    var head: seq<byte> := [];
    for i := 0 to |candidates|
      invariant wrapper == null ==> conn.wire == stream
      invariant wrapper != null ==> n.Some? && fresh(wrapper) && wrapper.conn == conn
      invariant answer == ChooseFrom(candidates, stream, arrived, wrapper != null, i)
      invariant wrapper != null ==> head == wrapper.buffer == first && conn.wire == rest
    {
      match candidates[i] {
        case Plain(_) => return Chosen(candidates[i], Bare(conn.wire));
        case Checking(_, canHandle) =>
          if wrapper == null {
            if n.None? { return PeekFailed; }
            wrapper, head := StartPeek(conn, n.value);
          }
          if canHandle(head) { return Chosen(candidates[i], wrapper.View()); }
      }
    }
    return NoService;
  }
}
