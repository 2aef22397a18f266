/** What keeps the pool's ids apart, and why the age of open sessions alone does not. */
module PoolIds {
  import opened PoolModel
  import opened PoolSystem
  import opened PoolTheorems
  import opened PoolTrails

  // ---- The two halves of the assumption --------------------------------------------------

  predicate Creates(s: System, e: Event) { e.Produce? && s.phase == RemoveDone }

  // Clients give back what they were granted.
  predicate ReturnsOwn(s: System, e: Event) { e.Free? || e.Reuse? ==> e.id in s.sessions }

  // A guest with an open session is among the last 252 created.
  ghost predicate SessionsRecent(s: System, e: Event) {
    && ReturnsOwn(s, e)
    && (Creates(s, e) ==> forall id :: id in s.sessions ==> RecentlyIssued(s.pool, id, |Batch(s.pool, e.probe.ips)|))
  }

  // The serial of the guest listed longest, or of the next one created.
  function Oldest(p: Pool): nat { if p.guests == [] then p.created else p.guests[0].serial }

  // All listed guests, with or without sessions, are among the last 252 created.
  predicate ListedRecent(s: System, e: Event) {
    Creates(s, e) ==> s.pool.created + |Batch(s.pool, e.probe.ips)| - Oldest(s.pool) <= ID_LIMIT
  }

  ghost predicate SessionsStayRecent(s: System, es: seq<Event>) {
    es == [] || (SessionsStayRecent(s, es[..|es| - 1]) && SessionsRecent(Run(s, es[..|es| - 1]), es[|es| - 1]))
  }

  ghost predicate ListStaysRecent(s: System, es: seq<Event>) {
    es == [] || (ListStaysRecent(s, es[..|es| - 1]) && ListedRecent(Run(s, es[..|es| - 1]), es[|es| - 1]))
  }

  lemma RecentIsAllowed(s: System, e: Event)
    requires Numbered(s.pool) && SessionsRecent(s, e) && ListedRecent(s, e)
    ensures Allowed(s, e)
  {
    if Creates(s, e) {
      var p, ips := s.pool, Batch(s.pool, e.probe.ips);
      forall id | id in IdsInUse(s) ensures RecentlyIssued(p, id, |ips|) {
        if id !in s.sessions {
          var i :| 0 <= i < |p.guests| && p.guests[i].id == id;
          assert p.guests[i].serial >= Oldest(p);
        }
      }
      assert Oldest(p) <= p.created;
      RecentIdsDoNotClash(p, IdsInUse(s), ips);
    }
  }

  /** Both halves together give what the other run theorems assume. */
  lemma {:induction false} RecentRunIsAllowed(start: System, es: seq<Event>)
    requires Initial(start) && SessionsStayRecent(start, es) && ListStaysRecent(start, es)
    ensures AllowedRun(start, es)
  {
    if es != [] {
      var most := es[..|es| - 1];
      RecentRunIsAllowed(start, most);
      IdsFollowCreation(start, most);
      RecentIsAllowed(Run(start, most), es[|es| - 1]);
    }
  }

  // ---- Nothing weaker will do ------------------------------------------------------------

  ghost predicate ClientsBehave(s: System, es: seq<Event>) {
    es == [] || (ClientsBehave(s, es[..|es| - 1]) && ReturnsOwn(Run(s, es[..|es| - 1]), es[|es| - 1]))
  }

  ghost predicate AlwaysConsistent(s: System, es: seq<Event>) {
    Inv(Run(s, es)) && (es == [] || AlwaysConsistent(s, es[..|es| - 1]))
  }

  lemma {:induction false} ConsistentMeansNoClash(p: Pool, ips: seq<string>, sessions: multiset<nat>, used: set<nat>)
    requires DistinctIds(CreateAll(p, ips).guests)
    requires forall g :: g in CreateAll(p, ips).guests ==> g.connected == sessions[g.id]
    requires forall id :: id in used ==> id in sessions || exists g :: g in p.guests && g.id == id
    ensures NoClash(p, used, ips)
  {
    if ips != [] {
      var most := ips[..|ips| - 1];
      var q, all := CreateAll(p, most), CreateAll(p, ips).guests;
      var n := |q.guests|;
      assert all == q.guests + [NewGuest(q, ips[|ips| - 1])];
      CreateAllMeaning(p, most);
      assert forall i :: 0 <= i < n ==> all[i] == q.guests[i] && all[i] in all;
      ConsistentMeansNoClash(p, most, sessions, used);
      assert all[n] in all;
      forall g | g in q.guests ensures g.id != q.guestId {
        var i :| 0 <= i < n && q.guests[i] == g;
        assert all[i].id != all[n].id;
      }
      StillListed(p, most);
    }
  }

  lemma StillListed(p: Pool, ips: seq<string>)
    ensures forall g :: g in p.guests ==> g in CreateAll(p, ips).guests
  {
    CreateAllMeaning(p, ips);
    forall g | g in p.guests ensures g in CreateAll(p, ips).guests {
      var i :| 0 <= i < |p.guests| && p.guests[i] == g;
      assert CreateAll(p, ips).guests[..|p.guests|][i] == g;
    }
  }

  lemma ConsistentStepIsAllowed(s: System, e: Event)
    requires Inv(s) && !s.stopped && ReturnsOwn(s, e) && Inv(Step(s, e))
    ensures Allowed(s, e)
  {
    if Creates(s, e) {
      var ips, t := Batch(s.pool, e.probe.ips), Step(s, e);
      CreateAllMeaning(s.pool, ips);
      assert t.pool.guests == CreateAll(s.pool, ips).guests && t.sessions == s.sessions;
      forall g | g in t.pool.guests ensures g.connected == s.sessions[g.id] {
        var i :| 0 <= i < |t.pool.guests| && t.pool.guests[i] == g;
        assert GuestOk(t.pool.guests[i], t.sessions, t.failed);
      }
      ConsistentMeansNoClash(s.pool, ips, s.sessions, IdsInUse(s));
    }
  }

  // No event comes after the server has stopped.
  ghost predicate NeverStopped(s: System, es: seq<Event>) {
    es == [] || (NeverStopped(s, es[..|es| - 1]) && !Run(s, es[..|es| - 1]).stopped)
  }

  /** For clients that give back only their own: counts, bindings and ids are consistent throughout a run exactly
      when no guest was created while its id was in use, by a session or by a listed guest. */
  lemma {:induction false} ConsistentExactly(start: System, es: seq<Event>)
    requires Initial(start) && ClientsBehave(start, es) && NeverStopped(start, es)
    ensures AlwaysConsistent(start, es) <==> AllowedRun(start, es)
  {
    if es == [] {
      StartOk(start.useNat, start.pool.maxVm, start.pool.timeout, start.pool.share);
    } else {
      var most, e := es[..|es| - 1], es[|es| - 1];
      var s := Run(start, most);
      ConsistentExactly(start, most);
      if AlwaysConsistent(start, most) {
        assert Inv(s);
        if Allowed(s, e) { StepKeepsInv(s, e); }
        if Inv(Step(s, e)) { ConsistentStepIsAllowed(s, e); }
      }
    }
  }

  // ---- The second half is needed ---------------------------------------------------------

  const QUIET := Probe(0, {}, {}, [], {})

  // A full-sized shared pool without NAT.
  const BIG: System := Start(false, ID_LIMIT, 600, true)

  const ONE_MORE := Probe(0, {}, {}, ["a"], {})

  // Guests that were created and never booted.
  ghost predicate Idle(front: seq<Guest>) {
    && front != [] && front[0].id == 0
    && forall i :: 0 <= i < |front| ==> front[i].state == Created && front[i].connected == 0
  }

  // The pool has room for one guest beside the idle ones, and no session is open.
  ghost predicate Looks(s: System, front: seq<Guest>, rear: seq<Guest>, created: nat, phase: Phase) {
    && Idle(front) && s.pool.guests == front + rear
    && s.pool.created == created && s.pool.guestId == created % ID_LIMIT && s.pool.maxVm == |front| + 1 && s.pool.share
    && !s.useNat && !s.stopped && s.phase == phase && s.sessions == multiset{}
  }

  // A run along which sessions stay recent leads to such a state.
  ghost predicate Stands(t: Trail, front: seq<Guest>, rear: seq<Guest>, created: nat, phase: Phase) {
    exists s :: Leads(t, BIG, SessionsRecent, t.events, s) && Looks(s, front, rear, created, phase)
  }

  lemma StateOf(t: Trail, front: seq<Guest>, rear: seq<Guest>, n: nat, phase: Phase) returns (s: System)
    requires Stands(t, front, rear, n, phase)
    ensures Leads(t, BIG, SessionsRecent, t.events, s) && Looks(s, front, rear, n, phase)
  {
    s :| Leads(t, BIG, SessionsRecent, t.events, s) && Looks(s, front, rear, n, phase);
  }

  lemma Onward(t: Trail, s: System, b: Probe, front: seq<Guest>, rear: seq<Guest>, n: nat, phase: Phase)
    returns (u: Trail)
    requires Leads(t, BIG, SessionsRecent, t.events, s) && s.sessions == multiset{} && !s.stopped
    requires Looks(OnPhase(s, b), front, rear, n, phase)
    ensures Stands(u, front, rear, n, phase)
  {
    u := Extend(t, BIG, SessionsRecent, t.events, s, Produce(b), OnPhase(s, b));
  }

  // ---- Its phases ------------------------------------------------------------------------

  lemma SizeOfIdle(front: seq<Guest>, g: Guest)
    requires Idle(front)
    ensures ExistingSize(front) == |front| && Remaining(front) == front
    ensures ExistingSize(front + [g]) == |front| + if g.state == Destroyed then 0 else 1
    ensures Remaining(front + [g]) == front + if g.state == Destroyed then [] else [g]
  {
    var gs := front + [g];
    assert gs[..|front|] == front;
    NoneDestroyedSize(front);
    AllRemain(front);
  }

  lemma {:induction false} AllRemain(gs: seq<Guest>)
    requires forall i :: 0 <= i < |gs| ==> gs[i].state != Destroyed
    ensures Remaining(gs) == gs
  {
    if gs != [] {
      AllRemain(gs[..|gs| - 1]);
      assert gs == gs[..|gs| - 1] + [gs[|gs| - 1]];
    }
  }

  // A list rewritten in place, when only the last guest changes.
  lemma OnlyLast(gs: seq<Guest>, hs: seq<Guest>, front: seq<Guest>, g: Guest, h: Guest)
    requires gs == front + [g] && |hs| == |gs| && hs[|front|] == h
    requires forall i :: 0 <= i < |front| ==> hs[i] == gs[i]
    ensures hs == front + [h]
  {
    forall i | 0 <= i < |front| ensures hs[i] == front[i] { assert gs[i] == front[i]; }
  }

  lemma MarkStep(s: System, front: seq<Guest>, g: Guest, n: nat)
    requires Looks(s, front, [g], n, LoopStart) && g.state != Used && g.state != Destroyed
    ensures Looks(OnPhase(s, QUIET), front, [g], n, TimeoutsMarked)
  {
    SizeOfIdle(front, g);
    var p := MarkTimedOut(s.pool, 0);
    forall i | 0 <= i < |front| ensures p.guests[i] == s.pool.guests[i] { assert s.pool.guests[i] == front[i]; }
    OnlyLast(s.pool.guests, p.guests, front, g, g);
    assert OnPhase(s, QUIET) == s.(pool := p, phase := TimeoutsMarked);
  }

  lemma DestroyStep(s: System, front: seq<Guest>, g: Guest, n: nat)
    requires Looks(s, front, [g], n, TimeoutsMarked)
    ensures Looks(OnPhase(s, QUIET), front, [Teardown(g, false)], n, DestroyDone)
  {
    var p := DestroyUnavailable(s.pool, {});
    forall i | 0 <= i < |front| ensures p.guests[i] == s.pool.guests[i] { assert s.pool.guests[i] == front[i]; }
    OnlyLast(s.pool.guests, p.guests, front, g, Teardown(g, false));
    assert OnPhase(s, QUIET).pool == p;
  }

  lemma Checked(p: Pool, front: seq<Guest>, g: Guest, down: set<nat>, h: Guest)
    requires Idle(front) && p.guests == front + [g] && h == Diagnose(g, |front| in down)
    ensures CheckHealth(p, down).guests == front + [h]
  {
    var hs := CheckHealth(p, down).guests;
    forall i | 0 <= i < |front| ensures hs[i] == p.guests[i] { assert p.guests[i] == front[i]; }
    OnlyLast(p.guests, hs, front, g, h);
  }

  lemma HealthStep(s: System, front: seq<Guest>, g: Guest, n: nat, b: Probe, h: Guest)
    requires Looks(s, front, [g], n, DestroyDone) && h == Diagnose(g, |front| in b.down)
    ensures Looks(OnPhase(s, b), front, [h], n, HealthDone)
  {
    Checked(s.pool, front, g, b.down, h);
    assert OnPhase(s, b).pool == CheckHealth(s.pool, b.down);
  }

  lemma Booted(p: Pool, front: seq<Guest>, g: Guest, up: set<nat>, h: Guest)
    requires Idle(front) && p.guests == front + [g] && h == BootUp(g, |front| in up)
    requires forall i :: i in up ==> i == |front|
    ensures MarkAvailable(p, up).guests == front + [h]
  {
    var hs := MarkAvailable(p, up).guests;
    forall i | 0 <= i < |front| ensures hs[i] == p.guests[i] { assert i !in up; }
    OnlyLast(p.guests, hs, front, g, h);
  }

  lemma BootStep(s: System, front: seq<Guest>, g: Guest, n: nat, b: Probe, h: Guest)
    requires Looks(s, front, [g], n, CreateDone) && h == BootUp(g, |front| in b.up)
    requires forall i :: i in b.up ==> i == |front|
    ensures Looks(OnPhase(s, b), front, [h], n, LoopStart)
  {
    Booted(s.pool, front, g, b.up, h);
    assert OnPhase(s, b) == s.(pool := MarkAvailable(s.pool, b.up), phase := LoopStart);
  }

  lemma Mark(t: Trail, front: seq<Guest>, g: Guest, n: nat) returns (u: Trail)
    requires Stands(t, front, [g], n, LoopStart) && g.state != Used && g.state != Destroyed
    ensures Stands(u, front, [g], n, TimeoutsMarked)
  {
    var s := StateOf(t, front, [g], n, LoopStart);
    MarkStep(s, front, g, n);
    u := Onward(t, s, QUIET, front, [g], n, TimeoutsMarked);
  }

  lemma Destroy(t: Trail, front: seq<Guest>, g: Guest, n: nat) returns (u: Trail)
    requires Stands(t, front, [g], n, TimeoutsMarked)
    ensures Stands(u, front, [Teardown(g, false)], n, DestroyDone)
  {
    var s := StateOf(t, front, [g], n, TimeoutsMarked);
    DestroyStep(s, front, g, n);
    u := Onward(t, s, QUIET, front, [Teardown(g, false)], n, DestroyDone);
  }

  lemma Health(t: Trail, front: seq<Guest>, g: Guest, n: nat, b: Probe, h: Guest) returns (u: Trail)
    requires Stands(t, front, [g], n, DestroyDone) && h == Diagnose(g, |front| in b.down)
    ensures Stands(u, front, [h], n, HealthDone)
  {
    var s := StateOf(t, front, [g], n, DestroyDone);
    HealthStep(s, front, g, n, b, h);
    u := Onward(t, s, b, front, [h], n, HealthDone);
  }

  lemma ClearStep(s: System, front: seq<Guest>, g: Guest, n: nat)
    requires Looks(s, front, [g], n, HealthDone)
    ensures Looks(OnPhase(s, QUIET), front, if g.state == Destroyed then [] else [g], n, RemoveDone)
  {
    SizeOfIdle(front, g);
  }

  lemma Clear(t: Trail, front: seq<Guest>, g: Guest, n: nat) returns (u: Trail)
    requires Stands(t, front, [g], n, HealthDone)
    ensures Stands(u, front, if g.state == Destroyed then [] else [g], n, RemoveDone)
  {
    var s := StateOf(t, front, [g], n, HealthDone);
    ClearStep(s, front, g, n);
    u := Onward(t, s, QUIET, front, if g.state == Destroyed then [] else [g], n, RemoveDone);
  }

  function Newest(n: nat): Guest { Guest(n, n % ID_LIMIT, "a", [], 0, Created, NoState, -1) }

  lemma IdsStep(n: nat)
    ensures NextId(n % ID_LIMIT) == (n + 1) % ID_LIMIT
  {
  }

  lemma CreatedOne(p: Pool, front: seq<Guest>, n: nat)
    requires Idle(front) && p.guests == front && p.maxVm == |front| + 1 && p.created == n && p.guestId == n % ID_LIMIT
    ensures CreateGuests(p, ["a"])
            == p.(guests := front + [Newest(n)], guestId := (n + 1) % ID_LIMIT, created := n + 1)
    ensures ToCreate(p) == 1
  {
    SizeOfIdle(front, Newest(n));
    CreateSingle(p, "a");
    IdsStep(n);
  }

  lemma CreateOneStep(s: System, front: seq<Guest>, n: nat)
    requires Looks(s, front, [], n, RemoveDone)
    ensures Looks(OnPhase(s, ONE_MORE), front, [Newest(n)], n + 1, CreateDone)
  {
    assert front + [] == front;
    CreatedOne(s.pool, front, n);
    assert OnPhase(s, ONE_MORE) == s.(pool := CreateGuests(s.pool, ["a"]), phase := CreateDone);
  }

  lemma CreateSingle(p: Pool, ip: string)
    ensures CreateAll(p, [ip]) == CreateOne(p, ip)
  {
    assert [ip][..0] == [] && CreateAll(p, [ip][..0]) == p;
  }

  lemma CreateNoneStep(s: System, front: seq<Guest>, g: Guest, n: nat)
    requires Looks(s, front, [g], n, RemoveDone) && g.state != Destroyed
    ensures Looks(OnPhase(s, QUIET), front, [g], n, CreateDone)
  {
    SizeOfIdle(front, g);
    assert CreateGuests(s.pool, []) == s.pool;
  }

  lemma CreateOneMore(t: Trail, front: seq<Guest>, n: nat) returns (u: Trail)
    requires Stands(t, front, [], n, RemoveDone)
    ensures Stands(u, front, [Newest(n)], n + 1, CreateDone)
  {
    var s := StateOf(t, front, [], n, RemoveDone);
    CreateOneStep(s, front, n);
    u := Onward(t, s, ONE_MORE, front, [Newest(n)], n + 1, CreateDone);
  }

  lemma CreateNone(t: Trail, front: seq<Guest>, g: Guest, n: nat) returns (u: Trail)
    requires Stands(t, front, [g], n, RemoveDone) && g.state != Destroyed
    ensures Stands(u, front, [g], n, CreateDone)
  {
    var s := StateOf(t, front, [g], n, RemoveDone);
    CreateNoneStep(s, front, g, n);
    u := Onward(t, s, QUIET, front, [g], n, CreateDone);
  }

  lemma Boot(t: Trail, front: seq<Guest>, g: Guest, n: nat, b: Probe, h: Guest) returns (u: Trail)
    requires Stands(t, front, [g], n, CreateDone) && h == BootUp(g, |front| in b.up)
    requires forall i :: i in b.up ==> i == |front|
    ensures Stands(u, front, [h], n, LoopStart)
  {
    var s := StateOf(t, front, [g], n, CreateDone);
    BootStep(s, front, g, n, b, h);
    u := Onward(t, s, b, front, [h], n, LoopStart);
  }

  // ---- The run ---------------------------------------------------------------------------

  function NoGuests(phase: Phase): System { BIG.(phase := phase) }

  lemma Beginning() returns (t: Trail)
    ensures Leads(t, BIG, SessionsRecent, t.events, NoGuests(RemoveDone))
  {
    t := Begin(BIG, SessionsRecent);
    t := Extend(t, BIG, SessionsRecent, t.events, BIG, Produce(QUIET), NoGuests(DestroyDone));
    t := Extend(t, BIG, SessionsRecent, t.events, NoGuests(DestroyDone), Produce(QUIET), NoGuests(HealthDone));
    t := Extend(t, BIG, SessionsRecent, t.events, NoGuests(HealthDone), Produce(QUIET), NoGuests(RemoveDone));
  }

  lemma FillEmpty(p: Pool, most: seq<string>, front: seq<Guest>)
    requires p == BIG.pool && |most| + 1 == ID_LIMIT && front == CreateAll(p, most).guests
    ensures |front| + 1 == ID_LIMIT && Idle(front) && ToCreate(p) == ID_LIMIT
    ensures CreateGuests(p, most + ["a"])
            == p.(guests := front + [Newest(|front|)], guestId := ID_LIMIT % ID_LIMIT, created := ID_LIMIT)
  {
    CreateAllMeaning(p, most);
    CreateAllNumbered(p, most);
    assert (most + ["a"])[..|most|] == most;
    assert CreateAll(p, most + ["a"]) == CreateOne(CreateAll(p, most), "a");
    IdsStep(|front|);
  }

  lemma FirstFill(s: System, most: seq<string>, front: seq<Guest>)
    requires s == NoGuests(RemoveDone) && |most| + 1 == ID_LIMIT && front == CreateAll(s.pool, most).guests
    ensures |front| + 1 == ID_LIMIT
    ensures Looks(OnPhase(s, Probe(0, {}, {}, most + ["a"], {})), front, [Newest(|front|)], ID_LIMIT, CreateDone)
  {
    FillEmpty(s.pool, most, front);
    assert OnPhase(s, Probe(0, {}, {}, most + ["a"], {}))
        == s.(pool := CreateGuests(s.pool, most + ["a"]), phase := CreateDone);
  }

  lemma FullPool() returns (t: Trail, front: seq<Guest>)
    ensures Stands(t, front, [Newest(|front|)], ID_LIMIT, CreateDone) && |front| + 1 == ID_LIMIT
  {
    t := Beginning();
    var s := NoGuests(RemoveDone);
    var most := seq(ID_LIMIT - 1, _ => "a");
    front := CreateAll(s.pool, most).guests;
    FirstFill(s, most, front);
    t := Onward(t, s, Probe(0, {}, {}, most + ["a"], {}), front, [Newest(|front|)], ID_LIMIT, CreateDone);
  }

  // The last guest boots and is found down ...
  lemma BootAndFail(t: Trail, front: seq<Guest>, g: Guest, d: Guest, n: nat) returns (u: Trail)
    requires Stands(t, front, [g], n, CreateDone) && g.state == Created && d == g.(state := Unavailable)
    ensures Stands(u, front, [d], n, HealthDone)
  {
    var a := g.(state := Available);
    u := Boot(t, front, g, n, Probe(0, {}, {}, [], {|front|}), a);
    u := Mark(u, front, a, n);
    u := Destroy(u, front, a, n);
    u := Health(u, front, a, n, Probe(0, {}, {|front|}, [], {}), d);
  }

  // ... and is removed; all others stay.
  lemma Retire(t: Trail, front: seq<Guest>, d: Guest, n: nat) returns (u: Trail)
    requires Stands(t, front, [d], n, HealthDone) && d.state == Unavailable
    ensures Stands(u, front, [], n, RemoveDone)
  {
    u := Clear(t, front, d, n);
    u := CreateNone(u, front, d, n);
    u := Boot(u, front, d, n, QUIET, d);
    u := Mark(u, front, d, n);
    u := Destroy(u, front, d, n);
    var e := d.(state := Destroyed);
    u := Health(u, front, e, n, QUIET, e);
    u := Clear(u, front, e, n);
  }

  lemma GrantLast(t: Trail, front: seq<Guest>, g: Guest, n: nat) returns (u: Trail, s: System)
    requires Stands(t, front, [g], n, LoopStart) && g.state == Available && g.id == 0
    ensures Leads(u, BIG, SessionsRecent, u.events, s) && Idle(front) && s.pool.guests == front + [Occupy(g, "x")]
    ensures s.sessions == multiset{0} && !s.stopped && !s.useNat
  {
    var r := StateOf(t, front, [g], n, LoopStart);
    var gs := r.pool.guests;
    assert gs[|front|] == g && forall i :: 0 <= i < |front| ==> gs[i] == front[i];
    ChooseMeaning(r.pool, "x");
    assert Choose(r.pool, "x") == |front|;
    assert gs[|front| := Occupy(g, "x")] == front + [Occupy(g, "x")];
    s := Step(r, Request("x", 0, 0));
    u := Extend(t, BIG, SessionsRecent, t.events, r, Request("x", 0, 0), s);
  }

  lemma {:induction false} AlongIsRecent(s: System, es: seq<Event>)
    ensures Along(s, es, SessionsRecent) <==> SessionsStayRecent(s, es)
  {
    if es != [] { AlongIsRecent(s, es[..|es| - 1]); }
  }

  /** A guest that never boots stays listed while the ids come round, although no session is ever open when a guest
      is created. The session then granted on its id is given back to the wrong guest, which is left with -1
      clients. */
  lemma SessionsAloneAreNotEnough() returns (es: seq<Event>)
    ensures Initial(BIG) && SessionsStayRecent(BIG, es)
    ensures var s := Run(BIG, es);
      && s.sessions == multiset{} && s.pool.guests != []
      && s.pool.guests[0].state == Created && s.pool.guests[0].connected == -1 && !OneCount(s, s.pool.guests[0])
  {
    var t, front := FullPool();
    var g := Newest(|front|);
    t := BootAndFail(t, front, g, g.(state := Unavailable), ID_LIMIT);
    t := Retire(t, front, g.(state := Unavailable), ID_LIMIT);
    t := CreateOneMore(t, front, ID_LIMIT);
    var h := Newest(ID_LIMIT);
    t := Boot(t, front, h, ID_LIMIT + 1, Probe(0, {}, {}, [], {|front|}), h.(state := Available));
    var s;
    t, s := GrantLast(t, front, h.(state := Available), ID_LIMIT + 1);
    es := GiveBackFirst(t, front, s);
  }

  lemma GiveBackFirst(t: Trail, front: seq<Guest>, s: System) returns (es: seq<Event>)
    requires Leads(t, BIG, SessionsRecent, t.events, s) && Idle(front) && |s.pool.guests| > 0
    requires s.pool.guests[0] == front[0] && s.sessions == multiset{0} && !s.stopped && !s.useNat
    ensures SessionsStayRecent(BIG, es)
    ensures var r := Run(BIG, es);
      && r.sessions == multiset{} && r.pool.guests != []
      && r.pool.guests[0].state == Created && r.pool.guests[0].connected == -1 && !OneCount(r, r.pool.guests[0])
  {
    assert FindId(s.pool.guests, 0, 0) == 0;
    var r := Step(s, Free(0, 7));
    es := t.events + [Free(0, 7)];
    var u := Extend(t, BIG, SessionsRecent, t.events, s, Free(0, 7), r);
    TrailIsRun(u, BIG, SessionsRecent, es, r);
    AlongIsRecent(BIG, es);
  }
}
