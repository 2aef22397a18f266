/** What a guest's fields say about the run so far: when it was last freed, and to whom it was granted. */
module PoolHistory {
  import opened Options
  import opened PoolModel
  import opened PoolSystem
  import opened PoolTheorems

  // ---- Timing out ------------------------------------------------------------------------

  /** Marking takes exactly the used guests freed longer ago than the timeout, and changes nothing but their state. */
  lemma MarkingTakesExactly(p: Pool, now: int)
    ensures var q := MarkTimedOut(p, now);
      && q == p.(guests := q.guests) && |q.guests| == |p.guests|
      && forall i :: 0 <= i < |p.guests| ==>
           var g := p.guests[i];
           q.guests[i] == g.(state := if g.state == Used && now - g.freed > p.timeout then Unavailable else g.state)
  {
  }

  // The event gives the guest back.
  ghost predicate GivesBack(s: System, e: Event, serial: nat) {
    (e.Free? || e.Reuse?) && !s.stopped &&
    exists i :: 0 <= i < |s.pool.guests| && s.pool.guests[i].id == e.id && s.pool.guests[i].serial == serial
  }

  // The event is a Free by the guest's last client, with the clock at t.
  ghost predicate FreesLast(s: System, e: Event, serial: nat, t: int) {
    e.Free? && e.now == t && !s.stopped &&
    exists i :: 0 <= i < |s.pool.guests| && s.pool.guests[i].id == e.id && s.pool.guests[i].serial == serial &&
                s.pool.guests[i].connected == 1
  }

  // The event grants the guest.
  ghost predicate Grants(s: System, e: Event, serial: nat) {
    e.Request? && !s.stopped &&
    var k := Choose(s.pool, e.ip); k < |s.pool.guests| && s.pool.guests[k].serial == serial
  }

  // The event is a marking phase, with the clock past the timeout of a guest freed at t.
  predicate MarksAfter(s: System, e: Event, t: int) {
    e.Produce? && !s.stopped && s.phase == LoopStart && ExistingSize(s.pool.guests) > 1 &&
    e.probe.now > t + s.pool.timeout
  }

  // The guest's last client freed it at t, and since then it was not granted, failed no health check, and met no
  // marking phase past its timeout.
  ghost predicate RestsSince(start: System, es: seq<Event>, serial: nat, t: int) {
    es != [] &&
    var most, e := es[..|es| - 1], es[|es| - 1];
    var s := Run(start, most);
    || FreesLast(s, e, serial, t)
    || (RestsSince(start, most, serial, t) && !Grants(s, e, serial) && !GivesBack(s, e, serial) &&
        !FailsHealth(s, e, serial) && !MarksAfter(s, e, t))
  }

  // Wherever the guest is listed, it is used and was freed at t.
  ghost predicate Resting(s: System, serial: nat, t: int) {
    serial < s.pool.created &&
    forall i :: 0 <= i < |s.pool.guests| && s.pool.guests[i].serial == serial ==>
                  s.pool.guests[i].state == Used && s.pool.guests[i].freed == t
  }

  lemma SameSerial(p: Pool, i: nat, j: nat)
    requires Numbered(p) && i < |p.guests| && j < |p.guests| && p.guests[i].serial == p.guests[j].serial
    ensures i == j
  {
  }

  lemma FreeingRests(s: System, e: Event, serial: nat, t: int)
    requires Inv(s) && Numbered(s.pool) && Allowed(s, e) && FreesLast(s, e, serial, t)
    ensures Resting(Step(s, e), serial, t)
  {
    var gs := s.pool.guests;
    var i :| 0 <= i < |gs| && gs[i].id == e.id && gs[i].serial == serial && gs[i].connected == 1;
    FindIdMeaning(gs, e.id, 0);
    var k := FindId(gs, e.id, 0);
    assert k == i;
    if s.useNat { BindingReleaseOk(s.net, s.sessions, e.id); }
    var hs := Step(s, e).pool.guests;
    forall j | 0 <= j < |hs| && hs[j].serial == serial ensures hs[j].state == Used && hs[j].freed == t {
      SameSerial(s.pool, i, j);
    }
  }

  lemma ReleaseKeepsRest(s: System, e: Event, serial: nat, t: int)
    requires Resting(s, serial, t) && (e.Free? || e.Reuse?) && !s.stopped && !GivesBack(s, e, serial)
    ensures Resting(Step(s, e), serial, t)
  {
    FindIdMeaning(s.pool.guests, e.id, 0);
  }

  lemma RequestKeepsRest(s: System, e: Event, serial: nat, t: int)
    requires Resting(s, serial, t) && e.Request? && !s.stopped && !Grants(s, e, serial)
    ensures Resting(Step(s, e), serial, t)
  {
    ChooseMeaning(s.pool, e.ip);
  }

  lemma InPlaceKeepsRest(s: System, b: Probe, serial: nat, t: int)
    requires Resting(s, serial, t) && !s.stopped && s.phase !in {HealthDone, RemoveDone}
    requires !FailsHealth(s, Produce(b), serial) && !MarksAfter(s, Produce(b), t)
    ensures Resting(OnPhase(s, b), serial, t)
  {
    InPlaceMeaning(s, b);
    var gs, hs := s.pool.guests, OnPhase(s, b).pool.guests;
    forall i | 0 <= i < |hs| && hs[i].serial == serial ensures hs[i].state == Used && hs[i].freed == t {
      assert hs[i] == InPlace(s, b, gs[i], i) && gs[i].serial == serial;
    }
  }

  lemma ListKeepsRest(s: System, b: Probe, serial: nat, t: int)
    requires Resting(s, serial, t) && s.phase in {HealthDone, RemoveDone}
    ensures Resting(OnPhase(s, b), serial, t)
  {
    var gs, hs := s.pool.guests, OnPhase(s, b).pool.guests;
    if s.phase == HealthDone {
      RemainingMeaning(gs);
      forall i | 0 <= i < |hs| && hs[i].serial == serial ensures hs[i].state == Used && hs[i].freed == t {
        assert hs[i] in gs;
      }
    } else {
      CreateAllMeaning(s.pool, Batch(s.pool, b.ips));
      forall i | 0 <= i < |hs| && hs[i].serial == serial ensures hs[i].state == Used && hs[i].freed == t {
        if i < |gs| { assert hs[..|gs|][i] == gs[i]; }
      }
    }
  }

  lemma {:induction false} RestIsUsed(start: System, es: seq<Event>, serial: nat, t: int)
    requires Initial(start) && AllowedRun(start, es) && RestsSince(start, es, serial, t)
    ensures Resting(Run(start, es), serial, t)
  {
    var most, e := es[..|es| - 1], es[|es| - 1];
    var s := Run(start, most);
    StartOk(start.useNat, start.pool.maxVm, start.pool.timeout, start.pool.share);
    RunKeepsInv(start, most);
    IdsFollowCreation(start, most);
    if FreesLast(s, e, serial, t) {
      FreeingRests(s, e, serial, t);
    } else {
      RestIsUsed(start, most, serial, t);
      if !s.stopped {
        match e
        case Config(_, _, _) =>
        case Request(_, _, _) => RequestKeepsRest(s, e, serial, t);
        case Free(_, _) => ReleaseKeepsRest(s, e, serial, t);
        case Reuse(_) => ReleaseKeepsRest(s, e, serial, t);
        case Produce(b) =>
          if s.phase in {HealthDone, RemoveDone} { ListKeepsRest(s, b, serial, t); }
          else { InPlaceKeepsRest(s, b, serial, t); }
      }
    }
  }

  /** On every run from the start: a guest whose last client freed it at t, and that nothing happened to since, is
      taken by a marking phase exactly when the clock is past t + timeout, unless it is alone in the pool; nothing
      else about it changes. */
  lemma FreedGuestTimesOutExactly(start: System, es: seq<Event>, i: nat, t: int, b: Probe)
    requires Initial(start) && AllowedRun(start, es)
    requires var s := Run(start, es);
      && s.phase == LoopStart && !s.stopped && i < |s.pool.guests|
      && RestsSince(start, es, s.pool.guests[i].serial, t)
    ensures var s, r := Run(start, es), Run(start, es + [Produce(b)]);
      && |r.pool.guests| == |s.pool.guests|
      && var g, h := s.pool.guests[i], r.pool.guests[i];
         && h == g.(state := h.state) && g.state == Used && h.state in {Used, Unavailable}
         && (h.state == Unavailable <==> ExistingSize(s.pool.guests) > 1 && b.now > t + s.pool.timeout)
  {
    var s := Run(start, es);
    RestIsUsed(start, es, s.pool.guests[i].serial, t);
    assert (es + [Produce(b)])[..|es|] == es;
    assert Run(start, es + [Produce(b)]) == OnPhase(s, b);
    MarkingTakesExactly(s.pool, b.now);
  }

  // ---- Clients ---------------------------------------------------------------------------

  // The addresses the guest was granted to, in order.
  ghost function Clients(start: System, es: seq<Event>, serial: nat): seq<string> {
    if es == [] then []
    else
      var most, e := es[..|es| - 1], es[|es| - 1];
      Clients(start, most, serial) + if Grants(Run(start, most), e, serial) then [e.ip] else []
  }

  ghost predicate Remembers(start: System, es: seq<Event>, p: Pool) {
    && (forall i :: 0 <= i < |p.guests| ==> p.guests[i].clientIps == Clients(start, es, p.guests[i].serial))
    && (forall n: nat :: n >= p.created ==> Clients(start, es, n) == [])
  }

  // The guests of q are guests of p, with the same clients, or new ones without any.
  ghost predicate Inherits(p: Pool, q: Pool) {
    && p.created <= q.created
    && forall j :: 0 <= j < |q.guests| ==>
         || (p.created <= q.guests[j].serial && q.guests[j].clientIps == [])
         || (exists i :: 0 <= i < |p.guests| && SameClients(p.guests[i], q.guests[j]))
  }

  predicate SameClients(g: Guest, h: Guest) { g.serial == h.serial && g.clientIps == h.clientIps }

  lemma PhaseInherits(s: System, b: Probe)
    ensures Inherits(s.pool, OnPhase(s, b).pool)
  {
    var gs, hs := s.pool.guests, OnPhase(s, b).pool.guests;
    if s.phase == HealthDone {
      RemainingMeaning(gs);
      forall j | 0 <= j < |hs| ensures exists i :: 0 <= i < |gs| && SameClients(gs[i], hs[j]) {
        assert hs[j] in gs;
        var i :| 0 <= i < |gs| && gs[i] == hs[j];
        assert SameClients(gs[i], hs[j]);
      }
    } else if s.phase == RemoveDone {
      CreateAllMeaning(s.pool, Batch(s.pool, b.ips));
      forall j | 0 <= j < |gs| ensures SameClients(gs[j], hs[j]) { assert hs[..|gs|][j] == gs[j]; }
    } else {
      InPlaceMeaning(s, b);
      forall j | 0 <= j < |gs| ensures SameClients(gs[j], hs[j]) { assert hs[j] == InPlace(s, b, gs[j], j); }
    }
  }

  lemma ReleaseInherits(s: System, e: Event)
    requires e.Free? || e.Reuse?
    ensures Inherits(s.pool, Step(s, e).pool)
  {
    FindIdMeaning(s.pool.guests, e.id, 0);
    var gs, hs := s.pool.guests, Step(s, e).pool.guests;
    forall j | 0 <= j < |gs| ensures SameClients(gs[j], hs[j]) {}
  }

  lemma InheritKeepsMemory(start: System, es: seq<Event>, fs: seq<Event>, p: Pool, q: Pool)
    requires Remembers(start, es, p) && Inherits(p, q)
    requires forall n: nat :: Clients(start, fs, n) == Clients(start, es, n)
    ensures Remembers(start, fs, q)
  {
  }

  lemma RequestKeepsMemory(start: System, es: seq<Event>, fs: seq<Event>, s: System, e: Event)
    requires Numbered(s.pool) && Remembers(start, es, s.pool) && e.Request?
    requires forall n: nat :: Clients(start, fs, n) == Clients(start, es, n) + if Grants(s, e, n) then [e.ip] else []
    ensures Remembers(start, fs, Step(s, e).pool)
  {
    ChooseMeaning(s.pool, e.ip);
    var gs, k := s.pool.guests, Choose(s.pool, e.ip);
    if !s.stopped && k < |gs| {
      forall i | 0 <= i < |gs| ensures Grants(s, e, gs[i].serial) <==> i == k {
        if gs[i].serial == gs[k].serial { SameSerial(s.pool, i, k); }
      }
    }
  }

  /** On every run from the start, a guest's client list is the addresses it was granted to, in order. */
  lemma {:induction false} ClientsAreGrants(start: System, es: seq<Event>)
    requires Initial(start)
    ensures Remembers(start, es, Run(start, es).pool)
  {
    if es != [] {
      var most, e := es[..|es| - 1], es[|es| - 1];
      var s := Run(start, most);
      ClientsAreGrants(start, most);
      IdsFollowCreation(start, most);
      assert forall n: nat :: Clients(start, es, n) == Clients(start, most, n) + if Grants(s, e, n) then [e.ip] else [];
      if e.Request? {
        RequestKeepsMemory(start, most, es, s, e);
      } else {
        if !s.stopped && e.Produce? { PhaseInherits(s, e.probe); }
        if !s.stopped && (e.Free? || e.Reuse?) { ReleaseInherits(s, e); }
        if s.stopped || e.Config? {
          forall j | 0 <= j < |s.pool.guests| ensures SameClients(s.pool.guests[j], Step(s, e).pool.guests[j]) {}
        }
        InheritKeepsMemory(start, most, es, s.pool, Step(s, e).pool);
      }
    }
  }

  /** An address that was granted a guest is granted it again while the guest is used or in use, unless a guest
      listed before it was granted to the address too, and is as usable. */
  lemma ReturningClientIsServedAgain(start: System, es: seq<Event>, ip: string, i: nat)
    requires Initial(start) && i < |Run(start, es).pool.guests|
    requires var g := Run(start, es).pool.guests[i]; g.state in {Used, Using} && ip in Clients(start, es, g.serial)
    ensures var gs, k := Run(start, es).pool.guests, Choose(Run(start, es).pool, ip);
      && k <= i && gs[k].state in {Used, Using} && ip in Clients(start, es, gs[k].serial)
      && forall j :: 0 <= j < k ==> gs[j].state !in {Used, Using} || ip !in Clients(start, es, gs[j].serial)
  {
    ClientsAreGrants(start, es);
    ChooseMeaning(Run(start, es).pool, ip);
    assert Knows(Run(start, es).pool.guests[i], ip);
  }
}
