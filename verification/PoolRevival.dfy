/** Where the pool's state machine falls short: giving back a guest the backend has already destroyed. */
module PoolRevival {
  import opened PoolModel
  import opened PoolSystem
  import opened PoolTheorems

  // The history variable `gone` and the state `destroyed` describe the same listed guests ...
  ghost predicate Recorded(s: System) {
    forall i :: 0 <= i < |s.pool.guests| && s.pool.guests[i].state == Destroyed ==> s.pool.guests[i].serial in s.gone
  }

  ghost predicate GoneWereCreated(s: System) { forall n :: n in s.gone ==> n < s.pool.created }

  // ... as long as none came back.
  ghost predicate NoneReturned(s: System) {
    forall i :: 0 <= i < |s.pool.guests| && s.pool.guests[i].serial in s.gone ==> s.pool.guests[i].state == Destroyed
  }

  /** The last client of a destroyed but still listed guest gives it back. */
  predicate Revives(s: System, e: Event) {
    (e.Free? || e.Reuse?) && !s.stopped &&
    var k := FindId(s.pool.guests, e.id, 0);
    k < |s.pool.guests| && s.pool.guests[k].state == Destroyed && s.pool.guests[k].connected == 1
  }

  function Returned(g: Guest, e: Event): Guest
    requires e.Free? || e.Reuse?
  {
    if e.Free? then Leave(g, e.now) else Revert(g)
  }

  // Giving back changes the one guest, and none of the history but the sessions.
  lemma ReleaseMeaning(s: System, e: Event) returns (k: nat)
    requires Inv(s) && (e.Free? || e.Reuse?) && Allowed(s, e) && !s.stopped
    ensures k == FindId(s.pool.guests, e.id, 0) <= |s.pool.guests|
    ensures k < |s.pool.guests| ==> GuestOk(s.pool.guests[k], s.sessions, s.failed) && s.pool.guests[k].connected > 0
    ensures var gs, t := s.pool.guests, Step(s, e);
      && t.pool.guests == (if k < |gs| then gs[k := Returned(gs[k], e)] else gs)
      && t.failed == s.failed && t.gone == s.gone && t.pool.created == s.pool.created
  {
    k := FindId(s.pool.guests, e.id, 0);
    FindIdMeaning(s.pool.guests, e.id, 0);
    if s.useNat { BindingReleaseOk(s.net, s.sessions, e.id); }
  }

  lemma ReleaseReturnsExactly(s: System, e: Event)
    requires Inv(s) && Numbered(s.pool) && Recorded(s) && NoneReturned(s)
    requires (e.Free? || e.Reuse?) && Allowed(s, e) && !s.stopped
    ensures NoneReturned(Step(s, e)) <==> !Revives(s, e)
    ensures !Revives(s, e) ==> Recorded(Step(s, e))
  {
    var k := ReleaseMeaning(s, e);
    var gs, hs := s.pool.guests, Step(s, e).pool.guests;
    if k < |gs| {
      assert hs[k].state == Destroyed <==> gs[k].state == Destroyed && gs[k].connected != 1;
      if Revives(s, e) { assert hs[k].serial in s.gone; }
    }
  }

  lemma SerialsDiffer(p: Pool, i: nat, j: nat)
    requires Numbered(p) && i < |p.guests| && j < |p.guests| && p.guests[i].serial == p.guests[j].serial
    ensures i == j
  {
  }

  lemma DestroyPhaseRecords(s: System, b: Probe)
    requires Numbered(s.pool) && Recorded(s) && NoneReturned(s) && GoneWereCreated(s) && s.phase == TimeoutsMarked
    ensures var t := OnPhase(s, b); Recorded(t) && NoneReturned(t) && GoneWereCreated(t)
  {
    var gs, t := s.pool.guests, OnPhase(s, b);
    forall i | 0 <= i < |gs|
      ensures t.pool.guests[i].serial in t.gone <==> t.pool.guests[i].state == Destroyed
    {
      if gs[i].serial in t.gone && gs[i].serial !in s.gone {
        var j: nat :| 0 <= j < |gs| && gs[j].state == Unavailable && j !in b.raised && gs[j].serial == gs[i].serial;
        SerialsDiffer(s.pool, i, j);
      }
      if gs[i].state == Destroyed { assert gs[i].serial in s.gone; }
    }
  }

  lemma RemovePhaseRecords(s: System, b: Probe)
    requires NoneReturned(s) && GoneWereCreated(s) && s.phase == HealthDone
    ensures var t := OnPhase(s, b); Recorded(t) && NoneReturned(t) && GoneWereCreated(t)
  {
    var gs, hs := s.pool.guests, Remaining(s.pool.guests);
    RemainingMeaning(gs);
    forall i | 0 <= i < |hs| ensures hs[i].serial !in s.gone && hs[i].state != Destroyed {
      assert hs[i] in hs;
    }
  }

  lemma CreatePhaseRecords(s: System, b: Probe)
    requires Recorded(s) && NoneReturned(s) && GoneWereCreated(s) && s.phase == RemoveDone
    ensures var t := OnPhase(s, b); Recorded(t) && NoneReturned(t) && GoneWereCreated(t)
  {
    var gs, hs := s.pool.guests, OnPhase(s, b).pool.guests;
    CreateAllMeaning(s.pool, Batch(s.pool, b.ips));
    forall i | 0 <= i < |hs| ensures hs[i].state == Destroyed <==> hs[i].serial in s.gone {
      if i < |gs| { assert hs[..|gs|][i] == gs[i]; }
    }
  }

  lemma InPlaceDestroysNone(s: System, b: Probe, g: Guest, i: nat)
    requires s.phase in {LoopStart, DestroyDone, CreateDone, Halted}
    ensures var h := InPlace(s, b, g, i); h.serial == g.serial && (h.state == Destroyed <==> g.state == Destroyed)
  {
  }

  lemma InPlacePhaseRecords(s: System, b: Probe)
    requires Recorded(s) && NoneReturned(s) && GoneWereCreated(s)
    requires s.phase in {LoopStart, DestroyDone, CreateDone, Halted}
    ensures var t := OnPhase(s, b); Recorded(t) && NoneReturned(t) && GoneWereCreated(t)
  {
    InPlaceMeaning(s, b);
    var gs, hs := s.pool.guests, OnPhase(s, b).pool.guests;
    forall i | 0 <= i < |gs|
      ensures hs[i].serial == gs[i].serial && (hs[i].state == Destroyed <==> gs[i].state == Destroyed)
    {
      InPlaceDestroysNone(s, b, gs[i], i);
    }
  }

  lemma PhaseRecords(s: System, b: Probe)
    requires Numbered(s.pool) && Recorded(s) && NoneReturned(s) && GoneWereCreated(s)
    ensures var t := OnPhase(s, b); Recorded(t) && NoneReturned(t) && GoneWereCreated(t)
  {
    if s.phase == TimeoutsMarked { DestroyPhaseRecords(s, b); }
    else if s.phase == HealthDone { RemovePhaseRecords(s, b); }
    else if s.phase == RemoveDone { CreatePhaseRecords(s, b); }
    else { InPlacePhaseRecords(s, b); }
  }

  lemma RequestReturnsNone(s: System, e: Event)
    requires Recorded(s) && NoneReturned(s) && GoneWereCreated(s) && e.Request?
    ensures var t := Step(s, e); Recorded(t) && NoneReturned(t) && GoneWereCreated(t)
  {
    ChooseMeaning(s.pool, e.ip);
  }

  lemma ReturnsInStepExactly(s: System, e: Event)
    requires Inv(s) && Numbered(s.pool) && Recorded(s) && NoneReturned(s) && GoneWereCreated(s) && Allowed(s, e)
    ensures NoneReturned(Step(s, e)) <==> !Revives(s, e)
    ensures !Revives(s, e) ==> Recorded(Step(s, e)) && GoneWereCreated(Step(s, e))
  {
    if !s.stopped {
      match e
      case Config(_, _, _) =>
      case Request(_, _, _) => RequestReturnsNone(s, e);
      case Free(_, _) => ReleaseReturnsExactly(s, e);
      case Reuse(_) => ReleaseReturnsExactly(s, e);
      case Produce(b) => PhaseRecords(s, b);
    }
  }

  ghost predicate NeverReturned(s: System, es: seq<Event>) {
    NoneReturned(Run(s, es)) && (es == [] || NeverReturned(s, es[..|es| - 1]))
  }

  ghost predicate NeverRevives(s: System, es: seq<Event>) {
    es == [] || (NeverRevives(s, es[..|es| - 1]) && !Revives(Run(s, es[..|es| - 1]), es[|es| - 1]))
  }

  lemma {:induction false} ReturnsExactly(start: System, es: seq<Event>)
    requires Initial(start) && AllowedRun(start, es)
    ensures NeverReturned(start, es) <==> NeverRevives(start, es)
    ensures NeverRevives(start, es) ==> Recorded(Run(start, es)) && GoneWereCreated(Run(start, es))
  {
    if es != [] {
      var most, e := es[..|es| - 1], es[|es| - 1];
      var s := Run(start, most);
      ReturnsExactly(start, most);
      if NeverRevives(start, most) {
        StartOk(start.useNat, start.pool.maxVm, start.pool.timeout, start.pool.share);
        RunKeepsInv(start, most);
        IdsFollowCreation(start, most);
        ReturnsInStepExactly(s, e);
      }
    }
  }

  /** On every run from the start, a guest the backend destroyed gets back into circulation in exactly one way: a
      run never lists such a guest in another state exactly if no event of it is a last client giving one back
      between the destroy phase and the remove phase. */
  lemma DestroyedGuestReturnsExactly(start: System, es: seq<Event>)
    requires Initial(start) && AllowedRun(start, es)
    ensures NeverReturned(start, es) <==> NeverRevives(start, es)
  {
    ReturnsExactly(start, es);
  }

  // ---- A guest in use without a client ---------------------------------------------------

  ghost predicate Busy(s: System) {
    forall i :: 0 <= i < |s.pool.guests| && s.pool.guests[i].state == Using ==> s.pool.guests[i].connected > 0
  }

  /** The last client gives back by reuse a guest that was already in use when it was last granted. */
  predicate Strands(s: System, e: Event) {
    e.Reuse? && !s.stopped &&
    var k := FindId(s.pool.guests, e.id, 0);
    k < |s.pool.guests| && s.pool.guests[k].connected == 1 && s.pool.guests[k].prevState == Using
  }

  lemma ReleaseStrandsExactly(s: System, e: Event)
    requires Inv(s) && Busy(s) && (e.Free? || e.Reuse?) && Allowed(s, e) && !s.stopped
    ensures Busy(Step(s, e)) <==> !Strands(s, e)
  {
    var k := ReleaseMeaning(s, e);
    if Strands(s, e) {
      var h := Step(s, e).pool.guests[k];
      assert h.state == Using && h.connected == 0;
    }
  }

  lemma RemoveKeepsBusy(s: System, b: Probe)
    requires Busy(s) && s.phase == HealthDone
    ensures Busy(OnPhase(s, b))
  {
    var gs := s.pool.guests;
    RemainingMeaning(gs);
    forall i | 0 <= i < |Remaining(gs)| && Remaining(gs)[i].state == Using ensures Remaining(gs)[i].connected > 0 {
      assert Remaining(gs)[i] in gs;
    }
  }

  lemma CreateKeepsBusy(s: System, b: Probe)
    requires Busy(s) && s.phase == RemoveDone
    ensures Busy(OnPhase(s, b))
  {
    var gs, hs := s.pool.guests, CreateAll(s.pool, Batch(s.pool, b.ips)).guests;
    CreateAllMeaning(s.pool, Batch(s.pool, b.ips));
    forall i | 0 <= i < |hs| && hs[i].state == Using ensures hs[i].connected > 0 {
      if i < |gs| { assert hs[..|gs|][i] == gs[i]; }
    }
  }

  lemma InPlaceKeepsBusy(s: System, b: Probe)
    requires Busy(s) && s.phase !in {HealthDone, RemoveDone}
    ensures Busy(OnPhase(s, b))
  {
    InPlaceMeaning(s, b);
  }

  lemma StrandsInStepExactly(s: System, e: Event)
    requires Inv(s) && Busy(s) && Allowed(s, e)
    ensures Busy(Step(s, e)) <==> !Strands(s, e)
  {
    if !s.stopped {
      match e
      case Config(_, _, _) =>
      case Request(ip, _, _) =>
        ChooseMeaning(s.pool, ip);
        var k := Choose(s.pool, ip);
        if k < |s.pool.guests| { assert GuestOk(s.pool.guests[k], s.sessions, s.failed); }
      case Free(_, _) => ReleaseStrandsExactly(s, e);
      case Reuse(_) => ReleaseStrandsExactly(s, e);
      case Produce(b) =>
        if s.phase == HealthDone { RemoveKeepsBusy(s, b); }
        else if s.phase == RemoveDone { CreateKeepsBusy(s, b); }
        else { InPlaceKeepsBusy(s, b); }
    }
  }

  ghost predicate AlwaysBusy(s: System, es: seq<Event>) {
    Busy(Run(s, es)) && (es == [] || AlwaysBusy(s, es[..|es| - 1]))
  }

  ghost predicate NeverStrands(s: System, es: seq<Event>) {
    es == [] || (NeverStrands(s, es[..|es| - 1]) && !Strands(Run(s, es[..|es| - 1]), es[|es| - 1]))
  }

  /** On every run from the start, every guest in use has a client throughout exactly if no last client gives back
      by reuse a guest whose state before its last grant was in use. */
  lemma {:induction false} GuestStrandedExactly(start: System, es: seq<Event>)
    requires Initial(start) && AllowedRun(start, es)
    ensures AlwaysBusy(start, es) <==> NeverStrands(start, es)
  {
    if es != [] {
      var most, e := es[..|es| - 1], es[|es| - 1];
      GuestStrandedExactly(start, most);
      if AlwaysBusy(start, most) {
        StartOk(start.useNat, start.pool.maxVm, start.pool.timeout, start.pool.share);
        RunKeepsInv(start, most);
        assert Busy(Run(start, most));
        StrandsInStepExactly(Run(start, most), e);
      }
    }
  }

  // ---- A guest that failed its health check ----------------------------------------------

  // A guest that failed a check is on its way out.
  ghost predicate NoneRecovered(s: System) {
    forall i :: 0 <= i < |s.pool.guests| && s.pool.guests[i].serial in s.failed ==>
                  s.pool.guests[i].state in {Unavailable, Destroyed}
  }

  ghost predicate FailedWereCreated(s: System) { forall n :: n in s.failed ==> n < s.pool.created }

  /** The last client of a guest that is unavailable, or destroyed and still listed, gives it back. */
  predicate Recovers(s: System, e: Event) {
    (e.Free? || e.Reuse?) && !s.stopped &&
    var k := FindId(s.pool.guests, e.id, 0);
    k < |s.pool.guests| && s.pool.guests[k].state in {Unavailable, Destroyed} && s.pool.guests[k].connected == 1
  }

  lemma ReleaseRecoversExactly(s: System, e: Event)
    requires Inv(s) && NoneRecovered(s) && (e.Free? || e.Reuse?) && Allowed(s, e) && !s.stopped
    ensures NoneRecovered(Step(s, e)) <==> !Recovers(s, e)
    ensures Step(s, e).failed == s.failed && Step(s, e).pool.created == s.pool.created
  {
    var k := ReleaseMeaning(s, e);
    if Recovers(s, e) {
      var h := Step(s, e).pool.guests[k];
      assert h.serial in s.failed && h.state !in {Unavailable, Destroyed};
    }
  }

  lemma HealthKeepsFailed(s: System, b: Probe)
    requires Numbered(s.pool) && NoneRecovered(s) && FailedWereCreated(s) && s.phase == DestroyDone
    ensures NoneRecovered(OnPhase(s, b)) && FailedWereCreated(OnPhase(s, b))
  {
    var gs, t := s.pool.guests, OnPhase(s, b);
    forall i | 0 <= i < |gs| && t.pool.guests[i].serial in t.failed
      ensures t.pool.guests[i].state in {Unavailable, Destroyed}
    {
      if gs[i].serial !in s.failed {
        var j :| 0 <= j < |gs| && Probed(gs[j].state) && j in b.down && gs[j].serial == gs[i].serial;
        SerialsDiffer(s.pool, i, j);
      }
    }
  }

  lemma RemoveKeepsFailed(s: System, b: Probe)
    requires NoneRecovered(s) && FailedWereCreated(s) && s.phase == HealthDone
    ensures NoneRecovered(OnPhase(s, b)) && FailedWereCreated(OnPhase(s, b))
  {
    var gs := s.pool.guests;
    RemainingMeaning(gs);
    forall i | 0 <= i < |Remaining(gs)| && Remaining(gs)[i].serial in s.failed
      ensures Remaining(gs)[i].state in {Unavailable, Destroyed}
    {
      assert Remaining(gs)[i] in gs;
    }
  }

  lemma CreateKeepsFailed(s: System, b: Probe)
    requires NoneRecovered(s) && FailedWereCreated(s) && s.phase == RemoveDone
    ensures NoneRecovered(OnPhase(s, b)) && FailedWereCreated(OnPhase(s, b))
  {
    var gs, hs := s.pool.guests, CreateAll(s.pool, Batch(s.pool, b.ips)).guests;
    CreateAllMeaning(s.pool, Batch(s.pool, b.ips));
    forall i | 0 <= i < |hs| && hs[i].serial in s.failed ensures hs[i].state in {Unavailable, Destroyed} {
      if i < |gs| { assert hs[..|gs|][i] == gs[i]; }
    }
  }

  lemma InPlaceKeepsFailed(s: System, b: Probe)
    requires NoneRecovered(s) && FailedWereCreated(s) && s.phase in {LoopStart, TimeoutsMarked, CreateDone, Halted}
    ensures NoneRecovered(OnPhase(s, b)) && FailedWereCreated(OnPhase(s, b))
  {
    InPlaceMeaning(s, b);
  }

  lemma RecoversInStepExactly(s: System, e: Event)
    requires Inv(s) && Numbered(s.pool) && NoneRecovered(s) && FailedWereCreated(s) && Allowed(s, e)
    ensures NoneRecovered(Step(s, e)) <==> !Recovers(s, e)
    ensures FailedWereCreated(Step(s, e))
  {
    if !s.stopped {
      match e
      case Config(_, _, _) =>
      case Request(ip, _, _) => ChooseMeaning(s.pool, ip);
      case Free(_, _) => ReleaseRecoversExactly(s, e);
      case Reuse(_) => ReleaseRecoversExactly(s, e);
      case Produce(b) =>
        if s.phase == DestroyDone { HealthKeepsFailed(s, b); }
        else if s.phase == HealthDone { RemoveKeepsFailed(s, b); }
        else if s.phase == RemoveDone { CreateKeepsFailed(s, b); }
        else { InPlaceKeepsFailed(s, b); }
    }
  }

  ghost predicate NeverRecovered(s: System, es: seq<Event>) {
    NoneRecovered(Run(s, es)) && (es == [] || NeverRecovered(s, es[..|es| - 1]))
  }

  ghost predicate NoneRecovers(s: System, es: seq<Event>) {
    es == [] || (NoneRecovers(s, es[..|es| - 1]) && !Recovers(Run(s, es[..|es| - 1]), es[|es| - 1]))
  }

  /** On every run from the start, a guest that failed a health check is listed as unavailable or destroyed for good
      exactly if no event of the run is its last client giving it back. */
  lemma {:induction false} FailedGuestReturnsExactly(start: System, es: seq<Event>)
    requires Initial(start) && AllowedRun(start, es)
    ensures NeverRecovered(start, es) <==> NoneRecovers(start, es)
    ensures FailedWereCreated(Run(start, es))
  {
    if es != [] {
      var most, e := es[..|es| - 1], es[|es| - 1];
      FailedGuestReturnsExactly(start, most);
      StartOk(start.useNat, start.pool.maxVm, start.pool.timeout, start.pool.share);
      RunKeepsInv(start, most);
      IdsFollowCreation(start, most);
      FailedStayCreated(Run(start, most), e);
      if NeverRecovered(start, most) {
        assert NoneRecovered(Run(start, most));
        RecoversInStepExactly(Run(start, most), e);
      }
    }
  }

  lemma FailedStayCreated(s: System, e: Event)
    requires Numbered(s.pool) && FailedWereCreated(s)
    ensures FailedWereCreated(Step(s, e))
  {
    if e.Produce? && s.phase == RemoveDone {
      CreateAllMeaning(s.pool, Batch(s.pool, e.probe.ips));
    } else if e.Free? || e.Reuse? {
      FindIdMeaning(s.pool.guests, e.id, 0);
    } else if e.Request? {
      ChooseMeaning(s.pool, e.ip);
    }
  }
}
