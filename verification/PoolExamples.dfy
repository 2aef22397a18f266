/** Runs of the pool server in which it goes wrong, event by event from its start. */
module PoolExamples {
  import opened Options
  import opened PoolModel
  import opened PoolSystem
  import opened PoolTheorems
  import opened PoolRevival
  import opened PoolTrails

  const QUIET := Probe(0, {}, {}, [], {})
  const TWO_CREATED := Probe(0, {}, {}, ["a", "b"], {})
  const FIRST_UP := Probe(0, {}, {}, [], {0})
  const FIRST_DOWN := Probe(0, {}, {0}, [], {})

  // A pool of two shared guests without NAT.
  const PAIR: System := Start(false, 2, 600, true)

  // ---- States with two guests, the second of which never boots ---------------------------

  datatype Scene = Scene(g: Guest, anyUp: bool, sessions: multiset<nat>, failed: set<nat>, gone: set<nat>)

  const IDLE: Guest := Guest(1, 1, "b", [], 0, Created, NoState, -1)

  function First(clients: seq<string>, connected: int, st: GuestState, prev: GuestState, freed: int): Guest {
    Guest(0, 0, "a", clients, connected, st, prev, freed)
  }

  function Pair(c: Scene, phase: Phase): System {
    System(Pool([c.g, IDLE], 2, 2, 2, 600, true, c.anyUp), Nat(map[], map[], 0), false, phase,
           c.sessions, c.failed, c.gone, false)
  }

  // The events are a run that leads to the pair in that scene and phase.
  ghost predicate At(t: Trail, es: seq<Event>, c: Scene, phase: Phase) { Leads(t, PAIR, Allowed, es, Pair(c, phase)) }

  lemma Produced(t: Trail, es: seq<Event>, c: Scene, phase: Phase, b: Probe, c': Scene, phase': Phase)
    returns (u: Trail)
    requires At(t, es, c, phase) && phase != RemoveDone && OnPhase(Pair(c, phase), b) == Pair(c', phase')
    ensures At(u, es + [Produce(b)], c', phase')
  {
    u := Extend(t, PAIR, Allowed, es, Pair(c, phase), Produce(b), Pair(c', phase'));
  }

  lemma SizeOfTwo(g: Guest, h: Guest)
    ensures ExistingSize([g, h]) == (if g.state == Destroyed then 0 else 1) + if h.state == Destroyed then 0 else 1
    ensures g.state != Destroyed && h.state != Destroyed ==> Remaining([g, h]) == [g, h]
  {
    var both := [g, h];
    assert both[..1] == [g] && [g][..0] == [];
    assert ExistingSize([g]) == if g.state == Destroyed then 0 else 1;
    assert g.state != Destroyed ==> Remaining([g]) == [g];
  }

  lemma OnStart(t: Trail, es: seq<Event>, c: Scene, b: Probe) returns (u: Trail)
    requires At(t, es, c, LoopStart) && c.g.state != Destroyed
    ensures At(u, es + [Produce(b)], c.(g := TimedOut(c.g, 600, b.now)), TimeoutsMarked)
  {
    SizeOfTwo(c.g, IDLE);
    assert TimedOut(IDLE, 600, b.now) == IDLE;
    u := Produced(t, es, c, LoopStart, b, c.(g := TimedOut(c.g, 600, b.now)), TimeoutsMarked);
  }

  // The scene after the destroy phase.
  function Torn(c: Scene, b: Probe): Scene {
    c.(g := Teardown(c.g, 0 in b.raised),
       gone := c.gone + if c.g.state == Unavailable && 0 !in b.raised then {0} else {})
  }

  lemma DestroyPhase(c: Scene, b: Probe)
    requires c.g.serial == 0
    ensures OnPhase(Pair(c, TimeoutsMarked), b) == Pair(Torn(c, b), DestroyDone)
  {
    var gs := [c.g, IDLE];
    assert gs[1] == IDLE && Teardown(IDLE, 1 in b.raised) == IDLE;
    var torn := set i | 0 <= i < |gs| && gs[i].state == Unavailable && i !in b.raised :: gs[i].serial;
    assert gs[0].state == Unavailable && 0 !in b.raised ==> gs[0].serial in torn;
    assert torn == if c.g.state == Unavailable && 0 !in b.raised then {0} else {};
  }

  lemma OnDestroy(t: Trail, es: seq<Event>, c: Scene, b: Probe) returns (u: Trail)
    requires At(t, es, c, TimeoutsMarked) && c.g.serial == 0
    ensures At(u, es + [Produce(b)], Torn(c, b), DestroyDone)
  {
    DestroyPhase(c, b);
    u := Produced(t, es, c, TimeoutsMarked, b, Torn(c, b), DestroyDone);
  }

  // The scene after the health check.
  function Checked(c: Scene, b: Probe): Scene {
    c.(g := Diagnose(c.g, 0 in b.down), failed := c.failed + if Probed(c.g.state) && 0 in b.down then {0} else {})
  }

  lemma HealthPhase(c: Scene, b: Probe)
    requires c.g.serial == 0
    ensures OnPhase(Pair(c, DestroyDone), b) == Pair(Checked(c, b), HealthDone)
  {
    var gs := [c.g, IDLE];
    assert gs[1] == IDLE && Diagnose(IDLE, 1 in b.down) == IDLE;
    var down := set i | 0 <= i < |gs| && Probed(gs[i].state) && i in b.down :: gs[i].serial;
    assert Probed(gs[0].state) && 0 in b.down ==> gs[0].serial in down;
    assert down == if Probed(c.g.state) && 0 in b.down then {0} else {};
  }

  lemma OnHealth(t: Trail, es: seq<Event>, c: Scene, b: Probe) returns (u: Trail)
    requires At(t, es, c, DestroyDone) && c.g.serial == 0
    ensures At(u, es + [Produce(b)], Checked(c, b), HealthDone)
  {
    HealthPhase(c, b);
    u := Produced(t, es, c, DestroyDone, b, Checked(c, b), HealthDone);
  }

  lemma OnRemove(t: Trail, es: seq<Event>, c: Scene, b: Probe) returns (u: Trail)
    requires At(t, es, c, HealthDone) && c.g.state != Destroyed
    ensures At(u, es + [Produce(b)], c, RemoveDone)
  {
    SizeOfTwo(c.g, IDLE);
    u := Produced(t, es, c, HealthDone, b, c, RemoveDone);
  }

  lemma OnCreate(t: Trail, es: seq<Event>, c: Scene, b: Probe) returns (u: Trail)
    requires At(t, es, c, RemoveDone) && c.g.state != Destroyed
    ensures At(u, es + [Produce(b)], c, CreateDone)
  {
    var s := Pair(c, RemoveDone);
    SizeOfTwo(c.g, IDLE);
    assert ToCreate(s.pool) == 0 && b.ips[..0] == [];
    u := Extend(t, PAIR, Allowed, es, s, Produce(b), Pair(c, CreateDone));
  }

  // The scene after booting.
  function Booted(c: Scene, b: Probe): Scene {
    c.(g := BootUp(c.g, 0 in b.up), anyUp := c.anyUp || (c.g.state == Created && 0 in b.up))
  }

  lemma BootPhase(c: Scene, b: Probe)
    requires 1 !in b.up
    ensures OnPhase(Pair(c, CreateDone), b) == Pair(Booted(c, b), LoopStart)
  {
    var gs := [c.g, IDLE];
    assert gs[0] == c.g && gs[1] == IDLE && BootUp(IDLE, 1 in b.up) == IDLE;
    assert AnyBoots(gs, b.up, 2) == (AnyBoots(gs, b.up, 1) || (gs[1].state == Created && 1 in b.up));
    assert AnyBoots(gs, b.up, 1) == (AnyBoots(gs, b.up, 0) || (gs[0].state == Created && 0 in b.up));
  }

  lemma OnBoot(t: Trail, es: seq<Event>, c: Scene, b: Probe) returns (u: Trail)
    requires At(t, es, c, CreateDone) && 1 !in b.up
    ensures At(u, es + [Produce(b)], Booted(c, b), LoopStart)
  {
    BootPhase(c, b);
    u := Produced(t, es, c, CreateDone, b, Booted(c, b), LoopStart);
  }

  function Granted(c: Scene, ip: string): Scene { c.(g := Occupy(c.g, ip), sessions := c.sessions + multiset{0}) }

  lemma OnGrant(t: Trail, es: seq<Event>, c: Scene, phase: Phase, ip: string) returns (u: Trail)
    requires At(t, es, c, phase) && Probed(c.g.state) && c.g.id == 0
    ensures At(u, es + [Request(ip, 0, 0)], Granted(c, ip), phase)
    ensures RequestVm(Pair(c, phase).pool, ip).1 == Some(0)
  {
    var s := Pair(c, phase);
    assert s.pool.guests[0] == c.g && s.pool.guests[1] == IDLE;
    ChooseMeaning(s.pool, ip);
    assert Choose(s.pool, ip) == 0;
    assert s.pool.guests[0 := Occupy(c.g, ip)] == [Occupy(c.g, ip), IDLE];
    u := Extend(t, PAIR, Allowed, es, s, Request(ip, 0, 0), Pair(Granted(c, ip), phase));
  }

  function GivenBack(c: Scene, g: Guest): Scene { c.(g := g, sessions := c.sessions - multiset{0}) }

  lemma OnFree(t: Trail, es: seq<Event>, c: Scene, phase: Phase, now: int) returns (u: Trail)
    requires At(t, es, c, phase) && c.g.id == 0 && 0 in c.sessions
    ensures At(u, es + [Free(0, now)], GivenBack(c, Leave(c.g, now)), phase)
  {
    var s := Pair(c, phase);
    assert s.pool.guests[0] == c.g && FindId(s.pool.guests, 0, 0) == 0;
    assert s.pool.guests[0 := Leave(c.g, now)] == [Leave(c.g, now), IDLE];
    u := Extend(t, PAIR, Allowed, es, s, Free(0, now), Pair(GivenBack(c, Leave(c.g, now)), phase));
  }

  lemma OnReuse(t: Trail, es: seq<Event>, c: Scene, phase: Phase) returns (u: Trail)
    requires At(t, es, c, phase) && c.g.id == 0 && 0 in c.sessions
    ensures At(u, es + [Reuse(0)], GivenBack(c, Revert(c.g)), phase)
  {
    var s := Pair(c, phase);
    assert s.pool.guests[0] == c.g && FindId(s.pool.guests, 0, 0) == 0;
    assert s.pool.guests[0 := Revert(c.g)] == [Revert(c.g), IDLE];
    u := Extend(t, PAIR, Allowed, es, s, Reuse(0), Pair(GivenBack(c, Revert(c.g)), phase));
  }

  // ---- How both runs begin ---------------------------------------------------------------

  function NoGuests(phase: Phase): System { PAIR.(phase := phase) }

  const CREATED: Scene := Scene(First([], 0, Created, NoState, -1), false, multiset{}, {}, {})
  const READY: Scene := Scene(First([], 0, Available, NoState, -1), true, multiset{}, {}, {})

  lemma OnNothing() returns (t: Trail)
    ensures Leads(t, PAIR, Allowed, [Produce(QUIET), Produce(QUIET), Produce(QUIET)], NoGuests(RemoveDone))
  {
    t := Begin(PAIR, Allowed);
    t := Extend(t, PAIR, Allowed, [], PAIR, Produce(QUIET), NoGuests(DestroyDone));
    t := Extend(t, PAIR, Allowed, [Produce(QUIET)], NoGuests(DestroyDone), Produce(QUIET), NoGuests(HealthDone));
    t := Extend(t, PAIR, Allowed, [Produce(QUIET), Produce(QUIET)],
                NoGuests(HealthDone), Produce(QUIET), NoGuests(RemoveDone));
  }

  lemma OnTwoCreated(t: Trail, es: seq<Event>) returns (u: Trail)
    requires Leads(t, PAIR, Allowed, es, NoGuests(RemoveDone))
    ensures At(u, es + [Produce(TWO_CREATED)], CREATED, CreateDone)
  {
    var p := NoGuests(RemoveDone).pool;
    var ips := TWO_CREATED.ips;
    assert ips[..1] == ["a"] && ips[..1][..0] == [] && ips[..2] == ips && ToCreate(p) == 2;
    var q := CreateAll(p, ips[..1]);
    assert CreateAll(p, ips[..1][..0]) == p;
    assert q == CreateOne(p, "a");
    assert CreateAll(p, ips) == CreateOne(q, "b");
    assert NoClash(p, {}, ips[..1][..0]) && NoClash(p, {}, ips[..1]) && NoClash(p, {}, ips);
    assert IdsInUse(NoGuests(RemoveDone)) == {};
    u := Extend(t, PAIR, Allowed, es, NoGuests(RemoveDone), Produce(TWO_CREATED), Pair(CREATED, CreateDone));
  }

  // Both guests are created, and the first boots.
  const BEGINNING: seq<Event> :=
    [Produce(QUIET), Produce(QUIET), Produce(QUIET), Produce(TWO_CREATED), Produce(FIRST_UP)]

  lemma Beginning() returns (t: Trail)
    ensures At(t, BEGINNING, READY, LoopStart)
  {
    var es := [Produce(QUIET), Produce(QUIET), Produce(QUIET)];
    t := OnNothing();
    t := OnTwoCreated(t, es);
    t := OnBoot(t, es + [Produce(TWO_CREATED)], CREATED, FIRST_UP);
    assert Booted(CREATED, FIRST_UP) == READY;
    assert es + [Produce(TWO_CREATED)] + [Produce(FIRST_UP)] == BEGINNING;
  }

  // ---- A destroyed guest is granted again ------------------------------------------------

  // The first guest is granted to "x" and found down ...
  const TAKEN_AND_DOWN: seq<Event> := [Request("x", 0, 0), Produce(QUIET), Produce(QUIET), Produce(FIRST_DOWN)]

  // ... one pass later it is destroyed ...
  const DESTROYED: seq<Event> := [Produce(QUIET), Produce(QUIET), Produce(QUIET), Produce(QUIET), Produce(QUIET)]

  // ... and then given back and granted to "y". The second guest never boots.
  const LOSING_RUN: seq<Event> := BEGINNING + TAKEN_AND_DOWN + DESTROYED + [Free(0, 7), Request("y", 0, 0)]

  const TAKEN: Scene := Scene(First(["x"], 1, Using, Available, -1), true, multiset{0}, {}, {})
  const LOSING: Scene := Scene(First(["x"], 1, Unavailable, Available, -1), true, multiset{0}, {0}, {})
  const LOST: Scene := Scene(First(["x"], 1, Destroyed, Available, -1), true, multiset{0}, {0}, {0})
  const REVIVED: Scene := Scene(First(["x"], 0, Used, Available, 7), true, multiset{}, {0}, {0})
  const REGRANTED: Scene := Scene(First(["x", "y"], 1, Using, Used, 7), true, multiset{0}, {0}, {0})

  lemma TakenScenes()
    ensures Granted(READY, "x") == TAKEN && TAKEN.(g := TimedOut(TAKEN.g, 600, 0)) == TAKEN
    ensures Torn(TAKEN, QUIET) == TAKEN && Checked(TAKEN, FIRST_DOWN) == LOSING
  {
  }

  lemma TakenAndDown(t: Trail, es: seq<Event>) returns (u: Trail)
    requires At(t, es, READY, LoopStart)
    ensures At(u, es + TAKEN_AND_DOWN, LOSING, HealthDone)
  {
    TakenScenes();
    u := OnGrant(t, es, READY, LoopStart, "x");
    var fs := es + [Request("x", 0, 0)];
    u := OnStart(u, fs, TAKEN, QUIET);
    u := OnDestroy(u, fs + [Produce(QUIET)], TAKEN, QUIET);
    u := OnHealth(u, fs + [Produce(QUIET)] + [Produce(QUIET)], TAKEN, FIRST_DOWN);
    assert fs + [Produce(QUIET)] + [Produce(QUIET)] + [Produce(FIRST_DOWN)] == es + TAKEN_AND_DOWN;
  }

  lemma LosingScenes()
    ensures Booted(LOSING, QUIET) == LOSING && LOSING.(g := TimedOut(LOSING.g, 600, 0)) == LOSING
    ensures Torn(LOSING, QUIET) == LOST
  {
  }

  lemma DestroyedWithClient(t: Trail, es: seq<Event>) returns (u: Trail)
    requires At(t, es, LOSING, HealthDone)
    ensures At(u, es + DESTROYED, LOST, DestroyDone)
  {
    LosingScenes();
    var q := [Produce(QUIET)];
    u := OnRemove(t, es, LOSING, QUIET);
    u := OnCreate(u, es + q, LOSING, QUIET);
    u := OnBoot(u, es + q + q, LOSING, QUIET);
    u := OnStart(u, es + q + q + q, LOSING, QUIET);
    u := OnDestroy(u, es + q + q + q + q, LOSING, QUIET);
    assert es + q + q + q + q + q == es + DESTROYED;
  }

  lemma RevivedScenes()
    ensures GivenBack(LOST, Leave(LOST.g, 7)) == REVIVED && Granted(REVIVED, "y") == REGRANTED
  {
  }

  /** From the start of the server: "x" is granted a guest, the backend destroys it, "x" gives it back, and "y" is
      granted the destroyed guest. */
  lemma DestroyedGuestGrantedAgain()
    ensures Initial(PAIR) && AllowedRun(PAIR, LOSING_RUN)
    ensures var before := Run(PAIR, BEGINNING + TAKEN_AND_DOWN + DESTROYED + [Free(0, 7)]);
      var s := Run(PAIR, LOSING_RUN);
      && before.sessions == multiset{} && RequestVm(before.pool, "y").1 == Some(0)
      && s.sessions == multiset{0} && |s.pool.guests| == 2
      && s.pool.guests[0].serial in s.gone && s.pool.guests[0].state == Using
      && s.pool.guests[0].clientIps == ["x", "y"]
  {
    RevivedScenes();
    var es := BEGINNING + TAKEN_AND_DOWN + DESTROYED;
    var t := Beginning();
    t := TakenAndDown(t, BEGINNING);
    t := DestroyedWithClient(t, BEGINNING + TAKEN_AND_DOWN);
    t := OnFree(t, es, LOST, DestroyDone, 7);
    TrailIsRun(t, PAIR, Allowed, es + [Free(0, 7)], Pair(REVIVED, DestroyDone));
    t := OnGrant(t, es + [Free(0, 7)], REVIVED, DestroyDone, "y");
    assert es + [Free(0, 7)] + [Request("y", 0, 0)] == LOSING_RUN;
    TrailIsRun(t, PAIR, Allowed, LOSING_RUN, Pair(REGRANTED, DestroyDone));
    AlongIsAllowed(PAIR, LOSING_RUN);
  }

  // ---- A guest stays in use with nobody on it --------------------------------------------

  // Two sessions of one client that overlap, both given back by reuse.
  const STRANDING_RUN: seq<Event> := BEGINNING + [Request("x", 0, 0), Request("x", 0, 0), Reuse(0), Reuse(0)]

  const TWICE: Scene := Scene(First(["x", "x"], 2, Using, Using, -1), true, multiset{0, 0}, {}, {})
  const ONCE: Scene := Scene(First(["x", "x"], 1, Using, Using, -1), true, multiset{0}, {}, {})
  const STRANDED: Scene := Scene(First(["x", "x"], 0, Using, NoState, -1), true, multiset{}, {}, {})

  lemma StrandedScenes()
    ensures Granted(TAKEN, "x") == TWICE && GivenBack(TWICE, Revert(TWICE.g)) == ONCE
    ensures GivenBack(ONCE, Revert(ONCE.g)) == STRANDED
  {
  }

  lemma Strand(t: Trail, es: seq<Event>) returns (u: Trail)
    requires At(t, es, READY, LoopStart)
    ensures At(u, es + [Request("x", 0, 0), Request("x", 0, 0), Reuse(0), Reuse(0)], STRANDED, LoopStart)
  {
    TakenScenes();
    StrandedScenes();
    var x, r := [Request("x", 0, 0)], [Reuse(0)];
    u := OnGrant(t, es, READY, LoopStart, "x");
    u := OnGrant(u, es + x, TAKEN, LoopStart, "x");
    u := OnReuse(u, es + x + x, TWICE, LoopStart);
    u := OnReuse(u, es + x + x + r, ONCE, LoopStart);
    assert es + x + x + r + r == es + [Request("x", 0, 0), Request("x", 0, 0), Reuse(0), Reuse(0)];
  }

  /** The guest stays in use, and no timeout at any time takes it away. */
  lemma StrandedGuest()
    ensures Initial(PAIR) && AllowedRun(PAIR, STRANDING_RUN)
    ensures var s := Run(PAIR, STRANDING_RUN);
      && |s.pool.guests| == 2
      && s.pool.guests[0].state == Using && s.pool.guests[0].connected == 0 && s.sessions == multiset{}
      && forall now :: MarkTimedOut(s.pool, now).guests[0] == s.pool.guests[0]
  {
    var t := Beginning();
    t := Strand(t, BEGINNING);
    TrailIsRun(t, PAIR, Allowed, STRANDING_RUN, Pair(STRANDED, LoopStart));
    AlongIsAllowed(PAIR, STRANDING_RUN);
  }
}
