/** The pool server as a whole: the pool, the NAT bindings, the clients' outstanding sessions and the
    producer's position in its loop. One event is one server message or one producer phase. */
module PoolSystem {
  import opened Options
  import opened PoolModel

  // ---- NAT -------------------------------------------------------------------------------

  // A binding refers to its two listeners by handle.
  datatype Binding = Binding(count: int, ssh: nat, telnet: nat)

  // `listening` maps the handle of every open listener to its port; `handles` counts listeners ever opened.
  datatype Nat = Nat(bindings: map<nat, Binding>, listening: map<nat, nat>, handles: nat)

  // The two ports are chosen by the operating system.
  function RequestBinding(n: Nat, id: nat, sshPort: nat, telnetPort: nat): Nat {
    if id in n.bindings then
      n.(bindings := n.bindings[id := n.bindings[id].(count := n.bindings[id].count + 1)])
    else
      Nat(n.bindings[id := Binding(1, n.handles, n.handles + 1)],
          n.listening[n.handles := sshPort][n.handles + 1 := telnetPort],
          n.handles + 2)
  }

  // The ports a binding's listeners are open on.
  function PortsOf(n: Nat, id: nat): Option<(nat, nat)> {
    if id in n.bindings && n.bindings[id].ssh in n.listening && n.bindings[id].telnet in n.listening
    then Some((n.listening[n.bindings[id].ssh], n.listening[n.bindings[id].telnet]))
    else None
  }

  // None is the KeyError on a missing entry.
  function FreeBinding(n: Nat, id: nat): Option<Nat> {
    if id !in n.bindings then None
    else
      var b := n.bindings[id].(count := n.bindings[id].count - 1);
      if b.count <= 0 then Some(n.(bindings := n.bindings - {id}, listening := n.listening - {b.ssh, b.telnet}))
      else Some(n.(bindings := n.bindings[id := b]))
  }

  // ---- Events ----------------------------------------------------------------------------

  datatype Phase = LoopStart | TimeoutsMarked | DestroyDone | HealthDone | RemoveDone | CreateDone | Halted

  // What one producer phase learns from the backend and the clock.
  datatype Probe = Probe(now: int, raised: set<nat>, down: set<nat>, ips: seq<string>, up: set<nat>)

  datatype Event =
    | Config(maxVm: nat, timeout: nat, share: bool)
    | Request(ip: string, sshPort: nat, telnetPort: nat)
    | Free(id: nat, now: int)
    | Reuse(id: nat)
    | Produce(probe: Probe)

  // `sessions` counts, by guest id, the grants not yet given back; `failed` collects the serials of guests
  // that failed a health check and `gone` those the backend destroyed. The three are history.
  datatype System = System(pool: Pool, net: Nat, useNat: bool, phase: Phase,
                           sessions: multiset<nat>, failed: set<nat>, gone: set<nat>, stopped: bool)

  function OnRequest(s: System, e: Event): System
    requires e.Request?
  {
    match RequestVm(s.pool, e.ip)
    case (pool, Some(k)) =>
      var id := pool.guests[k].id;
      s.(pool := pool, sessions := s.sessions + multiset{id},
         net := if s.useNat then RequestBinding(s.net, id, e.sshPort, e.telnetPort) else s.net)
    // with no guest to give, a pool that ever had one up is stopped
    case (_, None) => s.(stopped := s.pool.anyUp)
  }

  // The binding is released first; a KeyError there leaves the pool untouched.
  function OnRelease(s: System, id: nat, pool: Pool): System {
    if !s.useNat then s.(pool := pool, sessions := s.sessions - multiset{id})
    else
      match FreeBinding(s.net, id)
      case Some(net) => s.(pool := pool, net := net, sessions := s.sessions - multiset{id})
      case None => s
  }

  function OnPhase(s: System, b: Probe): System {
    match s.phase
    case LoopStart =>
      // a pool of one guest skips marking and destroying
      if ExistingSize(s.pool.guests) > 1 then s.(pool := MarkTimedOut(s.pool, b.now), phase := TimeoutsMarked)
      else s.(phase := DestroyDone)
    case TimeoutsMarked =>
      s.(pool := DestroyUnavailable(s.pool, b.raised), phase := DestroyDone,
         gone := s.gone + set i | 0 <= i < |s.pool.guests| && s.pool.guests[i].state == Unavailable && i !in b.raised
                          :: s.pool.guests[i].serial)
    case DestroyDone =>
      s.(pool := CheckHealth(s.pool, b.down), phase := HealthDone,
         failed := s.failed + set i | 0 <= i < |s.pool.guests| && Probed(s.pool.guests[i].state) && i in b.down
                              :: s.pool.guests[i].serial)
    case HealthDone => s.(pool := RemoveDestroyed(s.pool), phase := RemoveDone)
    case RemoveDone =>
      s.(pool := CreateGuests(s.pool, b.ips), phase := if |b.ips| < ToCreate(s.pool) then Halted else CreateDone)
    case CreateDone => s.(pool := MarkAvailable(s.pool, b.up), phase := LoopStart)
    case Halted => s
  }

  // One uninterrupted turn of the producer loop; it ends early when the backend raises during creation.
  function Age(p: Pool, b: Probe): Pool {
    if ExistingSize(p.guests) > 1 then DestroyUnavailable(MarkTimedOut(p, b.now), b.raised) else p
  }

  function Refill(p: Pool, b: Probe): Pool {
    var full := CreateGuests(p, b.ips);
    if |b.ips| < ToCreate(p) then full else MarkAvailable(full, b.up)
  }

  function Pass(p: Pool, b: Probe): Pool { Refill(RemoveDestroyed(CheckHealth(Age(p, b), b.down)), b) }

  function Step(s: System, e: Event): System {
    if s.stopped then s else
    match e
    case Config(m, t, sh) => s.(pool := s.pool.(maxVm := m, timeout := t, share := sh))
    case Request(_, _, _) => OnRequest(s, e)
    case Free(id, now) => OnRelease(s, id, FreeVm(s.pool, id, now))
    case Reuse(id) => OnRelease(s, id, ReuseVm(s.pool, id))
    case Produce(b) => OnPhase(s, b)
  }

  function Run(s: System, es: seq<Event>): System {
    if es == [] then s else Step(Run(s, es[..|es| - 1]), es[|es| - 1])
  }

  function Start(useNat: bool, maxVm: nat, timeout: nat, share: bool): System {
    System(Pool([], 0, 0, maxVm, timeout, share, false), Nat(map[], map[], 0), useNat, LoopStart,
           multiset{}, {}, {}, false)
  }

  // ---- Assumptions on the environment ----------------------------------------------------

  function IdsInUse(s: System): set<nat> {
    (set g | g in s.pool.guests :: g.id) + (set id | id in s.sessions)
  }

  /** A client gives back only what it was granted, and no guest is created while its id is still in use. */
  ghost predicate Allowed(s: System, e: Event) {
    match e
    case Free(id, _) => id in s.sessions
    case Reuse(id) => id in s.sessions
    case Produce(b) => s.phase == RemoveDone ==>
        NoClash(s.pool, IdsInUse(s), Batch(s.pool, b.ips))
    case _ => true
  }

  // Creating one guest after the other never meets an id in use.
  ghost predicate NoClash(p: Pool, used: set<nat>, ips: seq<string>) {
    if ips == [] then true
    else
      var q := CreateAll(p, ips[..|ips| - 1]);
      NoClash(p, used, ips[..|ips| - 1]) && q.guestId !in used && (forall g :: g in q.guests ==> g.id != q.guestId)
  }

  ghost predicate AllowedRun(s: System, es: seq<Event>) {
    es == [] || (AllowedRun(s, es[..|es| - 1]) && Allowed(Run(s, es[..|es| - 1]), es[|es| - 1]))
  }

  // ---- The invariant ---------------------------------------------------------------------

  ghost predicate GuestOk(g: Guest, sessions: multiset<nat>, failed: set<nat>) {
    && g.connected == sessions[g.id]
    && g.state != NoState
    && (g.state in {Created, Available, Used} ==> g.connected == 0)
    && (g.connected > 0 ==> g.prevState in {Available, Using, Used})
    && (g.state in {Unavailable, Destroyed} && g.connected > 0 ==> g.serial in failed)
  }

  ghost predicate DistinctIds(gs: seq<Guest>) {
    forall i, j :: 0 <= i < j < |gs| ==> gs[i].id != gs[j].id
  }

  ghost predicate PoolOk(gs: seq<Guest>, sessions: multiset<nat>, failed: set<nat>) {
    DistinctIds(gs) && forall i :: 0 <= i < |gs| ==> GuestOk(gs[i], sessions, failed)
  }

  // A binding exists exactly while its id has sessions, and counts them.
  ghost predicate CountsAgree(n: Nat, sessions: multiset<nat>) {
    forall id: nat ::
      (id in n.bindings <==> sessions[id] > 0) && (id in n.bindings ==> n.bindings[id].count == sessions[id])
  }

  predicate Owns(n: Nat, id: nat, h: nat) {
    id in n.bindings && (h == n.bindings[id].ssh || h == n.bindings[id].telnet)
  }

  // Every binding holds two open listeners ...
  ghost predicate TwoOpen(n: Nat) {
    && (forall id :: id in n.bindings ==> n.bindings[id].ssh != n.bindings[id].telnet)
    && (forall id: nat, h: nat :: Owns(n, id, h) ==> h in n.listening && h < n.handles)
  }

  // ... shared with no other binding ...
  ghost predicate Unshared(n: Nat) {
    forall id: nat, jd: nat, h: nat :: Owns(n, id, h) && Owns(n, jd, h) ==> id == jd
  }

  // ... and no listener stays open without a binding.
  ghost predicate Held(n: Nat, h: nat) { exists id: nat :: Owns(n, id, h) }

  ghost predicate NoneLeaked(n: Nat) { forall h :: h in n.listening ==> Held(n, h) }

  ghost predicate NatOk(n: Nat, sessions: multiset<nat>) {
    CountsAgree(n, sessions) && TwoOpen(n) && Unshared(n) && NoneLeaked(n)
  }

  ghost predicate Inv(s: System) {
    PoolOk(s.pool.guests, s.sessions, s.failed) && (s.useNat ==> NatOk(s.net, s.sessions))
  }

  // ---- Each kind of event keeps the invariant --------------------------------------------

  // Replacing one guest by another with the same id, while only that id's sessions change.
  lemma ReplaceOk(gs: seq<Guest>, k: nat, g: Guest, before: multiset<nat>, after: multiset<nat>, failed: set<nat>)
    requires PoolOk(gs, before, failed) && k < |gs| && g.id == gs[k].id
    requires GuestOk(g, after, failed)
    requires forall id :: id != g.id ==> before[id] == after[id]
    ensures PoolOk(gs[k := g], after, failed)
  {
    var hs := gs[k := g];
    forall i | 0 <= i < |hs| ensures GuestOk(hs[i], after, failed) {
      if i != k { assert gs[i].id != gs[k].id; }
    }
  }

  lemma BindingGrantOk(n: Nat, sessions: multiset<nat>, id: nat, a: nat, b: nat)
    requires NatOk(n, sessions)
    ensures NatOk(RequestBinding(n, id, a, b), sessions + multiset{id})
  {
    var m := RequestBinding(n, id, a, b);
    assert forall d: nat, h: nat :: Owns(m, d, h) ==>
        Owns(n, d, h) || (d == id && id !in n.bindings && h in {n.handles, n.handles + 1});
    forall h | h in m.listening ensures Held(m, h) {
      if h in n.listening {
        assert Held(n, h);
        var d :| Owns(n, d, h);
        assert Owns(m, d, h);
      } else {
        assert Owns(m, id, h);
      }
    }
  }

  lemma BindingReleaseOk(n: Nat, sessions: multiset<nat>, id: nat)
    requires NatOk(n, sessions) && id in sessions
    ensures FreeBinding(n, id).Some? && NatOk(FreeBinding(n, id).value, sessions - multiset{id})
  {
    assert id in n.bindings;
    var m := FreeBinding(n, id).value;
    assert forall d: nat, h: nat :: Owns(m, d, h) ==> Owns(n, d, h);
    forall h | h in m.listening ensures Held(m, h) {
      assert Held(n, h);
      var d :| Owns(n, d, h);
      assert Owns(m, d, h);
    }
    assert TwoOpen(m) by {
      forall d: nat, h: nat | Owns(m, d, h) ensures h in m.listening && h < m.handles {
        assert Owns(n, d, h);
        if id !in m.bindings { assert Owns(n, id, n.bindings[id].ssh) && Owns(n, id, n.bindings[id].telnet); }
      }
    }
  }

  lemma RequestKeepsInv(s: System, e: Event)
    requires Inv(s) && e.Request?
    ensures Inv(OnRequest(s, e))
  {
    ChooseMeaning(s.pool, e.ip);
    var k := Choose(s.pool, e.ip);
    if k < |s.pool.guests| {
      var g := s.pool.guests[k];
      ReplaceOk(s.pool.guests, k, Occupy(g, e.ip), s.sessions, s.sessions + multiset{g.id}, s.failed);
      if s.useNat { BindingGrantOk(s.net, s.sessions, g.id, e.sshPort, e.telnetPort); }
    }
  }

  lemma ReleaseKeepsInv(s: System, e: Event)
    requires Inv(s) && !s.stopped && (e.Free? || e.Reuse?) && e.id in s.sessions
    ensures Inv(Step(s, e))
    ensures Step(s, e).sessions == s.sessions - multiset{e.id}
  {
    FindIdMeaning(s.pool.guests, e.id, 0);
    var k := FindId(s.pool.guests, e.id, 0);
    var after := s.sessions - multiset{e.id};
    if k < |s.pool.guests| {
      var g := s.pool.guests[k];
      ReplaceOk(s.pool.guests, k, if e.Free? then Leave(g, e.now) else Revert(g), s.sessions, after, s.failed);
    } else {
      assert PoolOk(s.pool.guests, after, s.failed);
    }
    if s.useNat { BindingReleaseOk(s.net, s.sessions, e.id); }
  }

  lemma {:induction false} RemainingOk(gs: seq<Guest>, sessions: multiset<nat>, failed: set<nat>)
    requires PoolOk(gs, sessions, failed)
    ensures PoolOk(Remaining(gs), sessions, failed)
  {
    if gs != [] {
      var most := gs[..|gs| - 1];
      RemainingOk(most, sessions, failed);
      RemainingMeaning(most);
      assert forall g :: g in Remaining(most) ==> g.id != gs[|gs| - 1].id;
    }
  }

  lemma {:induction false} CreateOk(p: Pool, ips: seq<string>, used: set<nat>, sessions: multiset<nat>,
                                    failed: set<nat>)
    requires PoolOk(p.guests, sessions, failed) && NoClash(p, used, ips)
    requires forall id :: id in sessions ==> id in used
    ensures PoolOk(CreateAll(p, ips).guests, sessions, failed)
  {
    if ips != [] {
      var q := CreateAll(p, ips[..|ips| - 1]);
      CreateOk(p, ips[..|ips| - 1], used, sessions, failed);
      assert forall i :: 0 <= i < |q.guests| ==> q.guests[i] in q.guests;
      assert sessions[q.guestId] == 0;
    }
  }

  // A phase that only rewrites guests in place needs checking guest by guest.
  lemma InPlaceOk(gs: seq<Guest>, hs: seq<Guest>, sessions: multiset<nat>, failed: set<nat>, failed': set<nat>)
    requires PoolOk(gs, sessions, failed) && |hs| == |gs|
    requires forall i :: 0 <= i < |gs| ==> hs[i].id == gs[i].id && GuestOk(hs[i], sessions, failed')
    ensures PoolOk(hs, sessions, failed')
  {
    forall i, j | 0 <= i < j < |hs| ensures hs[i].id != hs[j].id { assert gs[i].id != gs[j].id; }
  }

  lemma HealthOk(s: System, b: Probe)
    requires Inv(s) && s.phase == DestroyDone
    ensures Inv(OnPhase(s, b))
  {
    var gs, t := s.pool.guests, OnPhase(s, b);
    forall i | 0 <= i < |gs| ensures GuestOk(t.pool.guests[i], s.sessions, t.failed) {
      assert GuestOk(gs[i], s.sessions, s.failed);
      if Probed(gs[i].state) && i in b.down { assert gs[i].serial in t.failed; }
    }
    InPlaceOk(gs, t.pool.guests, s.sessions, s.failed, t.failed);
  }

  lemma CreatePhaseOk(s: System, b: Probe)
    requires Inv(s) && s.phase == RemoveDone && Allowed(s, Produce(b))
    ensures Inv(OnPhase(s, b))
  {
    var ips := Batch(s.pool, b.ips);
    CreateOk(s.pool, ips, IdsInUse(s), s.sessions, s.failed);
  }

  lemma RewriteOk(s: System, b: Probe)
    requires Inv(s) && s.phase in {LoopStart, TimeoutsMarked, CreateDone}
    ensures Inv(OnPhase(s, b))
  {
    var gs, hs := s.pool.guests, OnPhase(s, b).pool.guests;
    forall i | 0 <= i < |gs| ensures hs[i].id == gs[i].id && GuestOk(hs[i], s.sessions, s.failed) {
      assert GuestOk(gs[i], s.sessions, s.failed);
    }
    InPlaceOk(gs, hs, s.sessions, s.failed, s.failed);
  }

  lemma PhaseKeepsInv(s: System, b: Probe)
    requires Inv(s) && Allowed(s, Produce(b))
    ensures Inv(OnPhase(s, b))
  {
    match s.phase
    case LoopStart => RewriteOk(s, b);
    case TimeoutsMarked => RewriteOk(s, b);
    case DestroyDone => HealthOk(s, b);
    case HealthDone => RemainingOk(s.pool.guests, s.sessions, s.failed);
    case RemoveDone => CreatePhaseOk(s, b);
    case CreateDone => RewriteOk(s, b);
    case Halted =>
  }

  lemma StepKeepsInv(s: System, e: Event)
    requires Inv(s) && Allowed(s, e)
    ensures Inv(Step(s, e))
  {
    if !s.stopped {
      match e
      case Config(_, _, _) =>
      case Request(_, _, _) => RequestKeepsInv(s, e);
      case Free(_, _) => ReleaseKeepsInv(s, e);
      case Reuse(_) => ReleaseKeepsInv(s, e);
      case Produce(b) => PhaseKeepsInv(s, b);
    }
  }

  lemma {:induction false} RunKeepsInv(s: System, es: seq<Event>)
    requires Inv(s) && AllowedRun(s, es)
    ensures Inv(Run(s, es))
  {
    if es != [] {
      RunKeepsInv(s, es[..|es| - 1]);
      StepKeepsInv(Run(s, es[..|es| - 1]), es[|es| - 1]);
    }
  }
}
