/** The canary's fixed-size connection table over any kind of connection: a slot is free, or holds a connection
    together with what the table looks at when it needs room. */
module StateTable {
  import opened Options

  datatype Slot<C> = Vacant | Held(conn: C, timeWait: bool, touched: int)

  // Thirty seconds, in nanoseconds.
  const IDLE: int := 30_000_000_000

  predicate Reusable<C>(s: Slot<C>) { s.Vacant? || s.timeWait }

  predicate Inactive<C>(s: Slot<C>, now: int) { s.Held? && now - s.touched > IDLE }

  function FirstReusable<C>(slots: seq<Slot<C>>, from: nat): nat
    requires from <= |slots|
    decreases |slots| - from
  {
    if from == |slots| || Reusable(slots[from]) then from else FirstReusable(slots, from + 1)
  }

  function FirstInactive<C>(slots: seq<Slot<C>>, now: int, from: nat): nat
    requires from <= |slots|
    decreases |slots| - from
  {
    if from == |slots| || Inactive(slots[from], now) then from else FirstInactive(slots, now, from + 1)
  }

  // Where Add puts a connection; the length of the table when it panics.
  function Place<C>(slots: seq<Slot<C>>, now: int): nat {
    var k := FirstReusable(slots, 0);
    if k < |slots| then k else FirstInactive(slots, now, 0)
  }

  function Add<C>(slots: seq<Slot<C>>, c: C, now: int): Option<seq<Slot<C>>> {
    var k := Place(slots, now);
    if k < |slots| then Some(slots[k := Held(c, false, now)]) else None
  }

  function Find<C(==)>(slots: seq<Slot<C>>, c: C, from: nat): nat
    requires from <= |slots|
    decreases |slots| - from
  {
    if from == |slots| || (slots[from].Held? && slots[from].conn == c) then from else Find(slots, c, from + 1)
  }

  function Remove<C(==)>(slots: seq<Slot<C>>, c: C): seq<Slot<C>> {
    var k := Find(slots, c, 0);
    if k < |slots| then slots[k := Vacant] else slots
  }

  function Refresh<C(==)>(slots: seq<Slot<C>>, c: C, timeWait: bool, now: int): seq<Slot<C>> {
    seq(|slots|, i requires 0 <= i < |slots| =>
      if slots[i].Held? && slots[i].conn == c then Held(c, timeWait, now) else slots[i])
  }

  // ---- Meaning ---------------------------------------------------------------------------

  lemma {:induction false} FirstReusableMeaning<C>(slots: seq<Slot<C>>, from: nat)
    requires from <= |slots|
    ensures var k := FirstReusable(slots, from);
      from <= k <= |slots| && (k < |slots| ==> Reusable(slots[k])) && forall i :: from <= i < k ==> !Reusable(slots[i])
    decreases |slots| - from
  {
    if from < |slots| && !Reusable(slots[from]) { FirstReusableMeaning(slots, from + 1); }
  }

  lemma {:induction false} FirstInactiveMeaning<C>(slots: seq<Slot<C>>, now: int, from: nat)
    requires from <= |slots|
    ensures var k := FirstInactive(slots, now, from);
      && from <= k <= |slots| && (k < |slots| ==> Inactive(slots[k], now))
      && forall i :: from <= i < k ==> !Inactive(slots[i], now)
    decreases |slots| - from
  {
    if from < |slots| && !Inactive(slots[from], now) { FirstInactiveMeaning(slots, now, from + 1); }
  }

  lemma {:induction false} FindMeaning<C>(slots: seq<Slot<C>>, c: C, from: nat)
    requires from <= |slots|
    ensures var k := Find(slots, c, from);
      && from <= k <= |slots| && (k < |slots| ==> slots[k].Held? && slots[k].conn == c)
      && forall i :: from <= i < k ==> !(slots[i].Held? && slots[i].conn == c)
    decreases |slots| - from
  {
    if from < |slots| && !(slots[from].Held? && slots[from].conn == c) { FindMeaning(slots, c, from + 1); }
  }

  /** Add fills exactly one slot: the first that is vacant or in TIME-WAIT, else the first idle one; it panics
      exactly when every slot holds a connection that is neither. */
  lemma AddMeaning<C>(slots: seq<Slot<C>>, c: C, now: int)
    ensures Add(slots, c, now) == None <==>
        forall i :: 0 <= i < |slots| ==> !Reusable(slots[i]) && !Inactive(slots[i], now)
    ensures Add(slots, c, now) != None ==> exists k :: 0 <= k < |slots| && FillsAt(slots, c, now, k)
  {
    FirstReusableMeaning(slots, 0);
    FirstInactiveMeaning(slots, now, 0);
    if Add(slots, c, now) != None { assert FillsAt(slots, c, now, Place(slots, now)); }
  }

  ghost predicate FillsAt<C>(slots: seq<Slot<C>>, c: C, now: int, k: nat)
    requires k < |slots|
  {
    && Add(slots, c, now) == Some(slots[k := Held(c, false, now)])
    && (Reusable(slots[k]) || (Inactive(slots[k], now) && forall i :: 0 <= i < |slots| ==> !Reusable(slots[i])))
    && (forall i :: 0 <= i < k ==> !Reusable(slots[i]) && (Reusable(slots[k]) || !Inactive(slots[i], now)))
  }

  // ---- Runs ------------------------------------------------------------------------------

  datatype Event<C> = Insert(conn: C, now: int) | Drop(conn: C) | Touch(conn: C, timeWait: bool, now: int)

  // A panic leaves the table as it was.
  function Step<C(==)>(slots: seq<Slot<C>>, e: Event<C>): seq<Slot<C>> {
    match e
    case Insert(c, now) => (match Add(slots, c, now) case Some(t) => t case None => slots)
    case Drop(c) => Remove(slots, c)
    case Touch(c, tw, now) => Refresh(slots, c, tw, now)
  }

  function Run<C(==)>(slots: seq<Slot<C>>, es: seq<Event<C>>): seq<Slot<C>> {
    if es == [] then slots else Step(Run(slots, es[..|es| - 1]), es[|es| - 1])
  }

  predicate Holds<C(==)>(slots: seq<Slot<C>>, i: nat, c: C) { i < |slots| && slots[i].Held? && slots[i].conn == c }

  // What may take the connection in slot i out: its own removal, or an Add that finds it in TIME-WAIT or idle.
  predicate Displaceable<C(==)>(slots: seq<Slot<C>>, i: nat, e: Event<C>)
    requires i < |slots| && slots[i].Held?
  {
    (e.Drop? && e.conn == slots[i].conn)
    || (e.Insert? && (slots[i].timeWait || e.now - slots[i].touched > 30_000_000_000))
  }

  lemma StepKeepsSlot<C>(slots: seq<Slot<C>>, e: Event<C>, i: nat, c: C)
    requires Holds(slots, i, c) && !Displaceable(slots, i, e)
    ensures Holds(Step(slots, e), i, c)
  {
    match e
    case Insert(d, now) => FirstReusableMeaning(slots, 0); FirstInactiveMeaning(slots, now, 0);
    case Drop(d) => FindMeaning(slots, d, 0);
    case Touch(_, _, _) =>
  }

  ghost predicate NeverDisplaceable<C>(slots: seq<Slot<C>>, es: seq<Event<C>>, i: nat, c: C) {
    es == [] ||
    (NeverDisplaceable(slots, es[..|es| - 1], i, c) &&
      var t := Run(slots, es[..|es| - 1]); Holds(t, i, c) ==> !Displaceable(t, i, es[|es| - 1]))
  }

  /** Over every run, a connection that is neither removed nor, at any Add, in TIME-WAIT or untouched for thirty
      seconds stays in its slot. */
  lemma {:induction false} StaysInSlot<C>(slots: seq<Slot<C>>, es: seq<Event<C>>, i: nat, c: C)
    requires Holds(slots, i, c) && NeverDisplaceable(slots, es, i, c)
    ensures Holds(Run(slots, es), i, c)
  {
    if es != [] {
      StaysInSlot(slots, es[..|es| - 1], i, c);
      StepKeepsSlot(Run(slots, es[..|es| - 1]), es[|es| - 1], i, c);
    }
  }

  ghost predicate Once<C>(slots: seq<Slot<C>>) {
    forall i, j :: 0 <= i < j < |slots| && slots[i].Held? && slots[j].Held? ==> slots[i].conn != slots[j].conn
  }

  // Only connections that are not in the table are added; handleTCP always adds a new one.
  ghost predicate AddsNew<C>(slots: seq<Slot<C>>, es: seq<Event<C>>) {
    es == [] ||
    (AddsNew(slots, es[..|es| - 1]) &&
      (es[|es| - 1].Insert? ==> Absent(Run(slots, es[..|es| - 1]), es[|es| - 1].conn)))
  }

  ghost predicate Absent<C>(slots: seq<Slot<C>>, c: C) { forall i :: 0 <= i < |slots| ==> !Holds(slots, i, c) }

  /** No connection ever occupies two slots. */
  lemma {:induction false} OneSlotEach<C>(slots: seq<Slot<C>>, es: seq<Event<C>>)
    requires Once(slots) && AddsNew(slots, es)
    ensures Once(Run(slots, es)) && |Run(slots, es)| == |slots|
  {
    if es != [] {
      var e := es[|es| - 1];
      OneSlotEach(slots, es[..|es| - 1]);
      var t := Run(slots, es[..|es| - 1]);
      match e
      case Insert(c, now) =>
        FirstReusableMeaning(t, 0);
        FirstInactiveMeaning(t, now, 0);
        forall i | 0 <= i < |t| && t[i].Held? ensures t[i].conn != c { assert !Holds(t, i, c); }
      case Drop(c) => FindMeaning(t, c, 0);
      case Touch(_, _, _) =>
    }
  }
}
