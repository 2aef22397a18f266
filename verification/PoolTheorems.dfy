/** What every run of the pool server guarantees, and where it falls short. */
module PoolTheorems {
  import opened Options
  import opened PoolModel
  import opened PoolSystem

  lemma StartOk(useNat: bool, maxVm: nat, timeout: nat, share: bool)
    ensures Inv(Start(useNat, maxVm, timeout, share))
  {
  }

  // ---- Agreement of the three counts -----------------------------------------------------

  ghost predicate Initial(s: System) { s == Start(s.useNat, s.pool.maxVm, s.pool.timeout, s.pool.share) }

  // The guest's own count, the sessions on its id and (with NAT) its binding's count are one number.
  ghost predicate OneCount(s: System, g: Guest) {
    && g.connected == s.sessions[g.id]
    && (g.state in {Created, Available, Used} ==> g.connected == 0)
    && (s.useNat ==> (g.id in s.net.bindings <==> g.connected > 0))
    && (s.useNat && g.connected > 0 ==> s.net.bindings[g.id].count == g.connected)
  }

  // A binding stands for the sessions on its id, listed or not, and has two open listeners to itself.
  ghost predicate Backed(s: System, id: nat)
    requires id in s.net.bindings
  {
    var b := s.net.bindings[id];
    && b.count == s.sessions[id] > 0
    && b.ssh in s.net.listening && b.telnet in s.net.listening && b.ssh != b.telnet
    && forall d: nat :: d != id ==> !Owns(s.net, d, b.ssh) && !Owns(s.net, d, b.telnet)
  }

  /** At any point of any run: the guest's own count, the outstanding sessions on its id and (with NAT) the
      binding's count are one number; a guest that is created, available or used has no client; and no binding
      lacks a session or shares a listener. */
  lemma CountsAgreeOnEveryRun(start: System, es: seq<Event>)
    requires Initial(start) && AllowedRun(start, es)
    ensures forall g :: g in Run(start, es).pool.guests ==> OneCount(Run(start, es), g)
    ensures Run(start, es).useNat ==> forall id :: id in Run(start, es).net.bindings ==> Backed(Run(start, es), id)
  {
    StartOk(start.useNat, start.pool.maxVm, start.pool.timeout, start.pool.share);
    RunKeepsInv(start, es);
    var s := Run(start, es);
    forall g | g in s.pool.guests ensures OneCount(s, g) {
      var i :| 0 <= i < |s.pool.guests| && s.pool.guests[i] == g;
      assert GuestOk(s.pool.guests[i], s.sessions, s.failed);
    }
    forall id | s.useNat && id in s.net.bindings ensures Backed(s, id) {
      assert Owns(s.net, id, s.net.bindings[id].ssh) && Owns(s.net, id, s.net.bindings[id].telnet);
    }
  }

  // ---- Deletion --------------------------------------------------------------------------

  ghost predicate FailsHealth(s: System, e: Event, serial: nat) {
    e.Produce? && !s.stopped && s.phase == DestroyDone &&
    exists i :: 0 <= i < |s.pool.guests| && s.pool.guests[i].serial == serial &&
                Probed(s.pool.guests[i].state) && i in e.probe.down
  }

  lemma FailedGrows(s: System, e: Event, serial: nat)
    requires serial in Step(s, e).failed
    ensures serial in s.failed || FailsHealth(s, e, serial)
  {
  }

  // Some event of the run was a health check that the guest failed.
  ghost predicate FailedDuring(s: System, es: seq<Event>, serial: nat) {
    es != [] &&
    var most := es[..|es| - 1];
    FailedDuring(s, most, serial) || FailsHealth(Run(s, most), es[|es| - 1], serial)
  }

  lemma {:induction false} FailedOnRecord(s: System, es: seq<Event>, serial: nat)
    requires s.failed == {} && serial in Run(s, es).failed
    ensures FailedDuring(s, es, serial)
  {
    var most := es[..|es| - 1];
    FailedGrows(Run(s, most), es[|es| - 1], serial);
    if serial in Run(s, most).failed { FailedOnRecord(s, most, serial); }
  }

  /** A guest marked for deletion, or deleted, while a client is on it failed a health check earlier in the run:
      the timeout path alone never does this, though it never looks at the client count. */
  lemma OnlyFailedGuestsDieWithClients(start: System, es: seq<Event>)
    requires Initial(start) && AllowedRun(start, es)
    ensures forall g :: g in Run(start, es).pool.guests && g.connected > 0 && g.state in {Unavailable, Destroyed} ==>
              FailedDuring(start, es, g.serial)
  {
    StartOk(start.useNat, start.pool.maxVm, start.pool.timeout, start.pool.share);
    RunKeepsInv(start, es);
    var s := Run(start, es);
    forall g | g in s.pool.guests && g.connected > 0 && g.state in {Unavailable, Destroyed}
      ensures FailedDuring(start, es, g.serial)
    {
      var i :| 0 <= i < |s.pool.guests| && s.pool.guests[i] == g;
      assert GuestOk(s.pool.guests[i], s.sessions, s.failed);
      FailedOnRecord(start, es, g.serial);
    }
  }

  /** Marking by timeout touches no guest with a client, at any clock value. */
  lemma TimeoutSparesClients(s: System, now: int, i: nat)
    requires Inv(s) && i < |s.pool.guests| && MarkTimedOut(s.pool, now).guests[i] != s.pool.guests[i]
    ensures s.pool.guests[i].connected == 0 && s.sessions[s.pool.guests[i].id] == 0
  {
    assert GuestOk(s.pool.guests[i], s.sessions, s.failed);
  }

  // ---- A binding's ports -----------------------------------------------------------------

  // Sessions on an id never run out along the run.
  ghost predicate AlwaysServed(s: System, es: seq<Event>, id: nat) {
    forall k :: 0 <= k <= |es| ==> Run(s, es[..k]).sessions[id] > 0
  }

  // Both tables bind the id to the same two listeners, open on the same ports.
  ghost predicate SamePorts(m: Nat, n: Nat, id: nat) {
    && id in m.bindings && id in n.bindings
    && m.bindings[id].ssh == n.bindings[id].ssh && m.bindings[id].telnet == n.bindings[id].telnet
    && (forall h :: Owns(m, id, h) ==> h in m.listening && h in n.listening && m.listening[h] == n.listening[h])
  }

  lemma GrantKeepsPorts(n: Nat, sessions: multiset<nat>, id: nat, other: nat, a: nat, b: nat)
    requires NatOk(n, sessions) && id in n.bindings
    ensures SamePorts(n, RequestBinding(n, other, a, b), id)
  {
  }

  lemma ReleaseKeepsPorts(n: Nat, sessions: multiset<nat>, id: nat, other: nat)
    requires NatOk(n, sessions) && id in n.bindings && other in n.bindings
    requires FreeBinding(n, other).Some? && id in FreeBinding(n, other).value.bindings
    ensures SamePorts(n, FreeBinding(n, other).value, id)
  {
    assert Owns(n, other, n.bindings[other].ssh) && Owns(n, other, n.bindings[other].telnet);
  }

  lemma RequestKeepsPorts(s: System, e: Event, id: nat)
    requires Inv(s) && s.useNat && e.Request? && s.sessions[id] > 0
    ensures OnRequest(s, e).useNat && SamePorts(s.net, OnRequest(s, e).net, id)
  {
    ChooseMeaning(s.pool, e.ip);
    var k := Choose(s.pool, e.ip);
    if k < |s.pool.guests| {
      GrantKeepsPorts(s.net, s.sessions, id, s.pool.guests[k].id, e.sshPort, e.telnetPort);
    }
  }

  lemma GiveBackKeepsPorts(s: System, id: nat, other: nat, pool: Pool)
    requires Inv(s) && s.useNat && other in s.sessions && s.sessions[id] > 0
    requires OnRelease(s, other, pool).sessions[id] > 0
    ensures OnRelease(s, other, pool).useNat && SamePorts(s.net, OnRelease(s, other, pool).net, id)
  {
    BindingReleaseOk(s.net, s.sessions, other);
    ReleaseKeepsPorts(s.net, s.sessions, id, other);
  }

  lemma StepKeepsPorts(s: System, e: Event, id: nat)
    requires Inv(s) && Allowed(s, e) && s.useNat && s.sessions[id] > 0 && Step(s, e).sessions[id] > 0
    ensures Step(s, e).useNat && SamePorts(s.net, Step(s, e).net, id)
  {
    if !s.stopped {
      match e
      case Request(_, _, _) => RequestKeepsPorts(s, e, id);
      case Free(other, now) => GiveBackKeepsPorts(s, id, other, FreeVm(s.pool, other, now));
      case Reuse(other) => GiveBackKeepsPorts(s, id, other, ReuseVm(s.pool, other));
      case _ =>
    }
  }

  /** While an id keeps at least one session, its binding keeps its listeners and their ports. */
  lemma {:induction false} PortsLastTheSession(s: System, es: seq<Event>, id: nat)
    requires Inv(s) && AllowedRun(s, es) && s.useNat && AlwaysServed(s, es, id)
    ensures Run(s, es).useNat && SamePorts(s.net, Run(s, es).net, id)
  {
    assert Run(s, es[..0]).sessions[id] > 0;
    assert es[..|es|] == es;
    if es != [] {
      var most := es[..|es| - 1];
      forall k | 0 <= k <= |most| ensures Run(s, most[..k]).sessions[id] > 0 { assert most[..k] == es[..k]; }
      PortsLastTheSession(s, most, id);
      RunKeepsInv(s, most);
      assert Run(s, es[..|most|]).sessions[id] > 0;
      StepKeepsPorts(Run(s, most), es[|es| - 1], id);
    }
  }

  // ---- Messages that fail ----------------------------------------------------------------

  /** A request that finds no guest grants nothing and changes nothing, except that a pool in which a guest was ever
      up is stopped; and with NAT, giving back an id without a binding changes nothing at all. */
  lemma FailedMessagesChangeNothing(s: System, e: Event)
    requires !s.stopped
    requires (e.Request? && Choose(s.pool, e.ip) == |s.pool.guests|) ||
             ((e.Free? || e.Reuse?) && s.useNat && e.id !in s.net.bindings)
    ensures Step(s, e) == s.(stopped := e.Request? && s.pool.anyUp)
  {
    if e.Request? { assert s.(pool := s.pool) == s; }
  }

  // ---- Size ------------------------------------------------------------------------------

  ghost predicate NoneDestroyed(gs: seq<Guest>) { forall i :: 0 <= i < |gs| ==> gs[i].state != Destroyed }

  // No give-back restores a guest to being destroyed.
  ghost predicate NoneReverts(gs: seq<Guest>) { forall i :: 0 <= i < |gs| ==> gs[i].prevState != Destroyed }

  // Between the destroy phase and the remove phase destroyed guests may be listed; after creation the pool is full.
  ghost predicate Sized(s: System) {
    && |s.pool.guests| <= s.pool.maxVm
    && NoneReverts(s.pool.guests)
    && (s.phase !in {DestroyDone, HealthDone} ==> NoneDestroyed(s.pool.guests))
    && (s.phase == CreateDone ==> |s.pool.guests| == s.pool.maxVm)
  }

  lemma ReleaseKeepsSize(s: System, e: Event)
    requires Sized(s) && !s.stopped && (e.Free? || e.Reuse?)
    ensures Sized(Step(s, e))
  {
    FindIdMeaning(s.pool.guests, e.id, 0);
  }

  lemma SizeOfAll(gs: seq<Guest>)
    requires NoneDestroyed(gs)
    ensures ExistingSize(gs) == |gs|
  {
    NoneDestroyedSize(gs);
  }

  lemma {:induction false} CreateAllReverts(p: Pool, ips: seq<string>)
    requires NoneReverts(p.guests)
    ensures NoneReverts(CreateAll(p, ips).guests)
  {
    if ips != [] { CreateAllReverts(p, ips[..|ips| - 1]); }
  }

  lemma CreateKeepsSize(s: System, b: Probe)
    requires Sized(s) && s.phase == RemoveDone
    ensures Sized(OnPhase(s, b))
  {
    var ips := Batch(s.pool, b.ips);
    SizeOfAll(s.pool.guests);
    CreateAllMeaning(s.pool, ips);
    var gs, hs := s.pool.guests, CreateAll(s.pool, ips).guests;
    CreateAllReverts(s.pool, ips);
    forall i | 0 <= i < |hs| ensures hs[i].state != Destroyed {
      if i < |gs| { assert hs[..|gs|][i] == gs[i]; }
    }
  }

  lemma PhaseKeepsSize(s: System, b: Probe)
    requires Sized(s)
    ensures Sized(OnPhase(s, b))
  {
    if s.phase == RemoveDone {
      CreateKeepsSize(s, b);
    } else if s.phase == HealthDone {
      RemainingMeaning(s.pool.guests);
      forall i | 0 <= i < |Remaining(s.pool.guests)|
        ensures Remaining(s.pool.guests)[i].state != Destroyed && Remaining(s.pool.guests)[i].prevState != Destroyed
      {
        assert Remaining(s.pool.guests)[i] in Remaining(s.pool.guests);
      }
    }
  }

  lemma StepKeepsSized(s: System, e: Event)
    requires Sized(s) && !e.Config?
    ensures Sized(Step(s, e)) && Step(s, e).pool.maxVm == s.pool.maxVm
  {
    if !s.stopped {
      match e
      case Request(ip, _, _) => ChooseMeaning(s.pool, ip);
      case Free(_, _) => ReleaseKeepsSize(s, e);
      case Reuse(_) => ReleaseKeepsSize(s, e);
      case Produce(b) =>
        PhaseKeepsSize(s, b);
        CreateAllMeaning(s.pool, Batch(s.pool, b.ips));
    }
  }

  /** With max_vm left alone, every run whatsoever, with id clashes and stray messages too, keeps the list within
      max_vm, and a creation phase in which the backend does not raise leaves exactly max_vm guests, none of them
      destroyed. */
  lemma {:induction false} PoolStaysWithinLimit(s: System, es: seq<Event>)
    requires Sized(s) && forall k :: 0 <= k < |es| ==> !es[k].Config?
    ensures Sized(Run(s, es)) && Run(s, es).pool.maxVm == s.pool.maxVm
  {
    if es != [] {
      var most := es[..|es| - 1];
      PoolStaysWithinLimit(s, most);
      StepKeepsSized(Run(s, most), es[|es| - 1]);
    }
  }

  // The phases a pass goes through: two or one before the health check, four from there on.
  function AgePhases(s: System, b: Probe): System {
    if ExistingSize(s.pool.guests) > 1 then OnPhase(OnPhase(s, b), b) else OnPhase(s, b)
  }

  function RefillPhases(s: System, b: Probe): System { OnPhase(OnPhase(s, b), b) }

  lemma AgePhasesMeaning(s: System, b: Probe)
    requires Sized(s) && s.phase == LoopStart
    ensures var t := AgePhases(s, b); t.pool == Age(s.pool, b) && t.phase == DestroyDone && Sized(t)
  {
    PhaseKeepsSize(s, b);
    PhaseKeepsSize(OnPhase(s, b), b);
  }

  lemma RefillPhasesMeaning(s: System, b: Probe)
    requires Sized(s) && s.phase == RemoveDone
    ensures var t := RefillPhases(s, b);
      && t.pool == Refill(s.pool, b) && (t.phase == Halted <==> |b.ips| < ToCreate(s.pool))
      && (t.phase != Halted ==> |t.pool.guests| == s.pool.maxVm && NoneDestroyed(t.pool.guests))
  {
    CreateAllMeaning(s.pool, Batch(s.pool, b.ips));
    PhaseKeepsSize(s, b);
    PhaseKeepsSize(OnPhase(s, b), b);
  }

  lemma HealthPhasesMeaning(s: System, b: Probe, mid: System, t: System)
    requires Sized(s) && s.phase == DestroyDone && mid == OnPhase(s, b) && t == OnPhase(mid, b)
    ensures t.pool == RemoveDestroyed(CheckHealth(s.pool, b.down)) && t.phase == RemoveDone && Sized(t)
    ensures t.pool.maxVm == s.pool.maxVm
  {
    PhaseKeepsSize(s, b);
    PhaseKeepsSize(mid, b);
  }

  /** A pass that nothing interrupts is the phases in turn; unless the backend raises, it fills the pool to max_vm. */
  lemma PassFillsPool(s: System, b: Probe)
    requires Sized(s) && s.phase == LoopStart
    ensures var t := RefillPhases(OnPhase(OnPhase(AgePhases(s, b), b), b), b);
      && t.pool == Pass(s.pool, b)
      && (t.phase != Halted ==> |t.pool.guests| == s.pool.maxVm && ExistingSize(t.pool.guests) == s.pool.maxVm)
  {
    AgePhasesMeaning(s, b);
    var s1 := AgePhases(s, b);
    var s2 := OnPhase(s1, b);
    var s3 := OnPhase(s2, b);
    HealthPhasesMeaning(s1, b, s2, s3);
    RefillPhasesMeaning(s3, b);
    var t := RefillPhases(s3, b);
    if t.phase != Halted { SizeOfAll(t.pool.guests); }
  }

  // ---- Ids, serials and addresses --------------------------------------------------------

  ghost predicate Numbered(p: Pool) {
    && p.guestId == p.created % ID_LIMIT
    && (forall i :: 0 <= i < |p.guests| ==>
          p.guests[i].id == p.guests[i].serial % ID_LIMIT && p.guests[i].serial < p.created)
    && (forall i, j :: 0 <= i < j < |p.guests| ==> p.guests[i].serial < p.guests[j].serial)
  }

  lemma {:induction false} RemainingNumbered(gs: seq<Guest>)
    requires forall i, j :: 0 <= i < j < |gs| ==> gs[i].serial < gs[j].serial
    ensures forall i, j :: 0 <= i < j < |Remaining(gs)| ==> Remaining(gs)[i].serial < Remaining(gs)[j].serial
  {
    if gs != [] {
      var most := gs[..|gs| - 1];
      RemainingNumbered(most);
      RemainingMeaning(most);
      forall i | 0 <= i < |Remaining(most)| ensures Remaining(most)[i].serial < gs[|gs| - 1].serial {
        assert Remaining(most)[i] in most;
      }
    }
  }

  lemma {:induction false} CreateAllNumbered(p: Pool, ips: seq<string>)
    requires Numbered(p)
    ensures Numbered(CreateAll(p, ips))
  {
    if ips != [] { CreateAllNumbered(p, ips[..|ips| - 1]); }
  }

  ghost predicate SameGuests(p: Pool, q: Pool) {
    && |q.guests| == |p.guests| && q.created == p.created && q.guestId == p.guestId
    && forall i :: 0 <= i < |p.guests| ==>
         && q.guests[i].serial == p.guests[i].serial
         && q.guests[i].id == p.guests[i].id && q.guests[i].ip == p.guests[i].ip
  }

  lemma ReleaseKeepsGuests(s: System, e: Event)
    requires e.Free? || e.Reuse?
    ensures SameGuests(s.pool, Step(s, e).pool)
  {
    FindIdMeaning(s.pool.guests, e.id, 0);
    assert SameGuests(s.pool, ReuseVm(s.pool, e.id));
    assert e.Free? ==> SameGuests(s.pool, FreeVm(s.pool, e.id, e.now));
  }

  lemma RequestKeepsGuests(s: System, e: Event)
    requires e.Request?
    ensures SameGuests(s.pool, Step(s, e).pool)
  {
    ChooseMeaning(s.pool, e.ip);
    assert SameGuests(s.pool, RequestVm(s.pool, e.ip).0);
  }

  // What a phase that leaves the list alone does to the i-th guest.
  function InPlace(s: System, b: Probe, g: Guest, i: nat): Guest {
    match s.phase
    case LoopStart => if ExistingSize(s.pool.guests) > 1 then TimedOut(g, s.pool.timeout, b.now) else g
    case TimeoutsMarked => Teardown(g, i in b.raised)
    case DestroyDone => Diagnose(g, i in b.down)
    case CreateDone => BootUp(g, i in b.up)
    case _ => g
  }

  lemma InPlaceMeaning(s: System, b: Probe)
    requires s.phase !in {HealthDone, RemoveDone}
    ensures var p, q := s.pool, OnPhase(s, b).pool;
      && |q.guests| == |p.guests| && q.created == p.created && q.guestId == p.guestId
      && forall i :: 0 <= i < |p.guests| ==> q.guests[i] == InPlace(s, b, p.guests[i], i)
    ensures s.phase != TimeoutsMarked ==> OnPhase(s, b).gone == s.gone
    ensures s.phase != DestroyDone ==> OnPhase(s, b).failed == s.failed
  {
  }

  lemma PhaseKeepsGuests(s: System, b: Probe)
    requires s.phase !in {HealthDone, RemoveDone}
    ensures SameGuests(s.pool, OnPhase(s, b).pool)
  {
    InPlaceMeaning(s, b);
  }

  /** Only the remove and create phases change which guests are listed. */
  lemma ListChangesOnlyInTwoPhases(s: System, e: Event)
    requires e.Produce? ==> s.phase !in {HealthDone, RemoveDone}
    ensures SameGuests(s.pool, Step(s, e).pool)
  {
    match e
    case Config(_, _, _) =>
    case Request(_, _, _) => RequestKeepsGuests(s, e);
    case Free(_, _) => ReleaseKeepsGuests(s, e);
    case Reuse(_) => ReleaseKeepsGuests(s, e);
    case Produce(b) => PhaseKeepsGuests(s, b);
  }

  lemma StepKeepsNumbers(s: System, e: Event)
    requires Numbered(s.pool)
    ensures Numbered(Step(s, e).pool)
  {
    var gs := s.pool.guests;
    if e.Produce? && s.phase == HealthDone {
      RemainingNumbered(gs);
      RemainingMeaning(gs);
      forall i | 0 <= i < |Remaining(gs)|
        ensures Remaining(gs)[i].id == Remaining(gs)[i].serial % ID_LIMIT && Remaining(gs)[i].serial < s.pool.created
      {
        assert Remaining(gs)[i] in gs;
      }
    } else if e.Produce? && s.phase == RemoveDone {
      CreateAllNumbered(s.pool, Batch(s.pool, e.probe.ips));
    } else {
      ListChangesOnlyInTwoPhases(s, e);
    }
  }

  lemma RecentIdsDistinct(p: Pool)
    requires Numbered(p) && p.guests != [] && p.created - p.guests[0].serial <= ID_LIMIT
    ensures DistinctIds(p.guests)
  {
    forall i, j | 0 <= i < j < |p.guests| ensures p.guests[i].id != p.guests[j].id {
      DifferMod(p.guests[i].serial, p.guests[j].serial);
    }
  }

  /** On every run, with no assumption at all, an id is the creation number mod 252 and the list is in creation
      order; so the listed ids are distinct while the oldest listed guest is among the last 252 created. */
  lemma {:induction false} IdsFollowCreation(s: System, es: seq<Event>)
    requires Numbered(s.pool)
    ensures var p := Run(s, es).pool;
      Numbered(p) && (p.guests == [] || p.created - p.guests[0].serial <= ID_LIMIT ==> DistinctIds(p.guests))
  {
    if es != [] {
      IdsFollowCreation(s, es[..|es| - 1]);
      StepKeepsNumbers(Run(s, es[..|es| - 1]), es[|es| - 1]);
    }
    var p := Run(s, es).pool;
    if p.guests != [] && p.created - p.guests[0].serial <= ID_LIMIT { RecentIdsDistinct(p); }
  }

  /** If every id in use was issued so lately that the batch ends within 252 creations of it, and the guest listed
      longest too, then the batch meets no id in use. */
  lemma {:induction false} RecentIdsDoNotClash(p: Pool, used: set<nat>, ips: seq<string>)
    requires Numbered(p)
    requires forall id :: id in used ==> RecentlyIssued(p, id, |ips|)
    requires p.guests != [] ==> p.created + |ips| - p.guests[0].serial <= ID_LIMIT
    requires |ips| <= ID_LIMIT
    ensures NoClash(p, used, ips)
  {
    if ips != [] {
      var most := ips[..|ips| - 1];
      forall id | id in used ensures RecentlyIssued(p, id, |most|) { assert RecentlyIssued(p, id, |ips|); }
      RecentIdsDoNotClash(p, used, most);
      CreateAllNumbered(p, most);
      NextIdIsFresh(p, used, most);
    }
  }

  lemma NextIdIsFresh(p: Pool, used: set<nat>, most: seq<string>)
    requires Numbered(p) && Numbered(CreateAll(p, most))
    requires forall id :: id in used ==> RecentlyIssued(p, id, |most| + 1)
    requires p.guests != [] ==> p.created + |most| + 1 - p.guests[0].serial <= ID_LIMIT
    requires |most| + 1 <= ID_LIMIT
    ensures var q := CreateAll(p, most); q.guestId !in used && forall g :: g in q.guests ==> g.id != q.guestId
  {
    var q := CreateAll(p, most);
    CreateAllMeaning(p, most);
    if q.guestId in used {
      assert RecentlyIssued(p, q.guestId, |most| + 1);
      var n: nat :| n < p.created && n % ID_LIMIT == q.guestId && p.created + |most| + 1 - n <= ID_LIMIT;
      DifferMod(n, q.created);
    }
    forall g | g in q.guests ensures g.id != q.guestId {
      var i :| 0 <= i < |q.guests| && q.guests[i] == g;
      if |p.guests| > 0 { assert q.guests[..|p.guests|][0] == p.guests[0]; }
      assert q.guests[0].serial <= g.serial;
      DifferMod(g.serial, q.created);
    }
  }

  ghost predicate RecentlyIssued(p: Pool, id: nat, more: nat) {
    exists n: nat :: n < p.created && n % ID_LIMIT == id && p.created + more - n <= ID_LIMIT
  }

  lemma DifferMod(a: nat, b: nat)
    requires a < b < a + ID_LIMIT
    ensures a % ID_LIMIT != b % ID_LIMIT
  {
  }

  ghost predicate DistinctIps(gs: seq<Guest>) { forall i, j :: 0 <= i < j < |gs| ==> gs[i].ip != gs[j].ip }

  // The backend consults is_ip_free before every creation.
  ghost predicate HonoursFree(p: Pool, ips: seq<string>) {
    if ips == [] then true
    else HonoursFree(p, ips[..|ips| - 1]) &&
         forall g :: g in CreateAll(p, ips[..|ips| - 1]).guests ==> g.ip != ips[|ips| - 1]
  }

  ghost predicate HonoursFreeRun(s: System, es: seq<Event>) {
    es == [] || (HonoursFreeRun(s, es[..|es| - 1]) &&
      (es[|es| - 1].Produce? ==> HonoursFreePhase(Run(s, es[..|es| - 1]), es[|es| - 1].probe)))
  }

  ghost predicate HonoursFreePhase(s: System, b: Probe) {
    HonoursFree(s.pool, Batch(s.pool, b.ips))
  }

  lemma {:induction false} CreateAllIps(p: Pool, ips: seq<string>)
    requires DistinctIps(p.guests) && HonoursFree(p, ips)
    ensures DistinctIps(CreateAll(p, ips).guests)
  {
    if ips != [] { CreateAllIps(p, ips[..|ips| - 1]); }
  }

  lemma {:induction false} RemainingIps(gs: seq<Guest>)
    requires DistinctIps(gs)
    ensures DistinctIps(Remaining(gs))
  {
    if gs != [] {
      var most := gs[..|gs| - 1];
      RemainingIps(most);
      RemainingMeaning(most);
      assert forall g :: g in Remaining(most) ==> g.ip != gs[|gs| - 1].ip;
    }
  }

  /** Listed addresses stay pairwise distinct when the backend only hands out addresses is_ip_free accepts. */
  lemma {:induction false} ListedIpsDistinct(s: System, es: seq<Event>)
    requires DistinctIps(s.pool.guests) && HonoursFreeRun(s, es)
    ensures DistinctIps(Run(s, es).pool.guests)
  {
    if es != [] {
      var most, e := es[..|es| - 1], es[|es| - 1];
      ListedIpsDistinct(s, most);
      var t := Run(s, most);
      if e.Produce? && t.phase == HealthDone {
        RemainingIps(t.pool.guests);
      } else if e.Produce? && t.phase == RemoveDone {
        CreateAllIps(t.pool, Batch(t.pool, e.probe.ips));
      } else {
        ListChangesOnlyInTwoPhases(t, e);
      }
    }
  }
}
