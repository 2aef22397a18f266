/** The Cowrie VM pool as values: guests, the pool's consumer calls and the producer's phases.
    The classes in PoolService.dfy are proved against these functions. */
module PoolModel {
  import opened Options

  // NoState is Python's None, the initial value of prev_state.
  datatype GuestState = NoState | Created | Available | Using | Used | Unavailable | Destroyed

  // `serial` counts creations; it is bookkeeping for the proofs and never read by an operation.
  datatype Guest = Guest(serial: nat, id: nat, ip: string, clientIps: seq<string>, connected: int,
                         state: GuestState, prevState: GuestState, freed: int)

  datatype Pool = Pool(guests: seq<Guest>, guestId: nat, created: nat,
                       maxVm: nat, timeout: nat, share: bool, anyUp: bool)

  const ID_LIMIT: nat := 252

  predicate Usable(st: GuestState) { st == Using || st == Used }

  function ExistingSize(gs: seq<Guest>): nat {
    if gs == [] then 0
    else ExistingSize(gs[..|gs| - 1]) + if gs[|gs| - 1].state == Destroyed then 0 else 1
  }

  // ---- Producer phases -------------------------------------------------------------------

  function TimedOut(g: Guest, timeout: nat, now: int): Guest {
    if g.state == Used && g.freed + timeout < now then g.(state := Unavailable) else g
  }

  function MarkTimedOut(p: Pool, now: int): Pool {
    p.(guests := seq(|p.guests|, i requires 0 <= i < |p.guests| => TimedOut(p.guests[i], p.timeout, now)))
  }

  function Teardown(g: Guest, raised: bool): Guest {
    if g.state == Unavailable && !raised then g.(state := Destroyed) else g
  }

  // `raised` holds the positions whose destruction raised in the backend.
  function DestroyUnavailable(p: Pool, raised: set<nat>): Pool {
    p.(guests := seq(|p.guests|, i requires 0 <= i < |p.guests| => Teardown(p.guests[i], i in raised)))
  }

  predicate Probed(st: GuestState) { st == Available || Usable(st) }

  function Diagnose(g: Guest, down: bool): Guest {
    if Probed(g.state) && down then g.(state := Unavailable) else g
  }

  // `down` holds the positions whose connectivity probe failed.
  function CheckHealth(p: Pool, down: set<nat>): Pool {
    p.(guests := seq(|p.guests|, i requires 0 <= i < |p.guests| => Diagnose(p.guests[i], i in down)))
  }

  function Remaining(gs: seq<Guest>): seq<Guest> {
    if gs == [] then []
    else Remaining(gs[..|gs| - 1]) + if gs[|gs| - 1].state == Destroyed then [] else [gs[|gs| - 1]]
  }

  function RemoveDestroyed(p: Pool): Pool { p.(guests := Remaining(p.guests)) }

  function NewGuest(p: Pool, ip: string): Guest {
    Guest(p.created, p.guestId, ip, [], 0, Created, NoState, -1)
  }

  function NextId(id: nat): nat { if id + 1 == ID_LIMIT then 0 else id + 1 }

  function CreateOne(p: Pool, ip: string): Pool {
    p.(guests := p.guests + [NewGuest(p, ip)], guestId := NextId(p.guestId), created := p.created + 1)
  }

  function CreateAll(p: Pool, ips: seq<string>): Pool {
    if ips == [] then p else CreateOne(CreateAll(p, ips[..|ips| - 1]), ips[|ips| - 1])
  }

  function ToCreate(p: Pool): nat {
    if p.maxVm <= ExistingSize(p.guests) then 0 else p.maxVm - ExistingSize(p.guests)
  }

  // `ips` are the addresses the backend handed out; fewer than wanted means that it raised, more are not used.
  function Batch(p: Pool, ips: seq<string>): seq<string> {
    if |ips| <= ToCreate(p) then ips else ips[..ToCreate(p)]
  }

  function CreateGuests(p: Pool, ips: seq<string>): Pool { CreateAll(p, Batch(p, ips)) }

  function BootUp(g: Guest, up: bool): Guest {
    if g.state == Created && up then g.(state := Available) else g
  }

  predicate AnyBoots(gs: seq<Guest>, up: set<nat>, n: nat)
    requires n <= |gs|
  {
    n > 0 && (AnyBoots(gs, up, n - 1) || (gs[n - 1].state == Created && n - 1 in up))
  }

  function MarkAvailable(p: Pool, up: set<nat>): Pool {
    p.(guests := seq(|p.guests|, i requires 0 <= i < |p.guests| => BootUp(p.guests[i], i in up)),
       anyUp := p.anyUp || AnyBoots(p.guests, up, |p.guests|))
  }

  // ---- Consumer calls --------------------------------------------------------------------

  // Each search returns a position, or the length of the list when there is none.
  function ServesIp(gs: seq<Guest>, ip: string, from: nat): nat
    requires from <= |gs|
    decreases |gs| - from
  {
    if from == |gs| || (Usable(gs[from].state) && ip in gs[from].clientIps) then from
    else ServesIp(gs, ip, from + 1)
  }

  function FirstAvailable(gs: seq<Guest>, from: nat): nat
    requires from <= |gs|
    decreases |gs| - from
  {
    if from == |gs| || gs[from].state == Available then from else FirstAvailable(gs, from + 1)
  }

  // Python's min keeps the first of equally connected guests.
  function LeastConnected(gs: seq<Guest>, upto: nat): nat
    requires upto <= |gs|
  {
    if upto == 0 then |gs|
    else
      var best := LeastConnected(gs, upto - 1);
      if !Usable(gs[upto - 1].state) then best
      else if best < upto && gs[best].connected <= gs[upto - 1].connected then best
      else upto - 1
  }

  function Choose(p: Pool, ip: string): nat {
    var same := ServesIp(p.guests, ip, 0);
    if same < |p.guests| then same else
    var ready := FirstAvailable(p.guests, 0);
    if ready < |p.guests| then ready else
    if p.share then LeastConnected(p.guests, |p.guests|) else |p.guests|
  }

  function Occupy(g: Guest, ip: string): Guest {
    g.(prevState := g.state, state := Using, connected := g.connected + 1, clientIps := g.clientIps + [ip])
  }

  function RequestVm(p: Pool, ip: string): (r: (Pool, Option<nat>)) {
    var k := Choose(p, ip);
    if k < |p.guests| then (p.(guests := p.guests[k := Occupy(p.guests[k], ip)]), Some(k)) else (p, None)
  }

  function FindId(gs: seq<Guest>, id: nat, from: nat): nat
    requires from <= |gs|
    decreases |gs| - from
  {
    if from == |gs| || gs[from].id == id then from else FindId(gs, id, from + 1)
  }

  function Leave(g: Guest, now: int): Guest {
    var h := g.(freed := now, connected := g.connected - 1);
    if h.connected == 0 then h.(state := Used) else h
  }

  function FreeVm(p: Pool, id: nat, now: int): Pool {
    var k := FindId(p.guests, id, 0);
    if k < |p.guests| then p.(guests := p.guests[k := Leave(p.guests[k], now)]) else p
  }

  function Revert(g: Guest): Guest {
    var h := g.(connected := g.connected - 1);
    if h.connected == 0 then h.(state := h.prevState, prevState := NoState) else h
  }

  function ReuseVm(p: Pool, id: nat): Pool {
    var k := FindId(p.guests, id, 0);
    if k < |p.guests| then p.(guests := p.guests[k := Revert(p.guests[k])]) else p
  }

  // ---- What the searches mean ------------------------------------------------------------

  lemma {:induction false} FindIdMeaning(gs: seq<Guest>, id: nat, from: nat)
    requires from <= |gs|
    ensures var k := FindId(gs, id, from);
      && from <= k <= |gs|
      && (k < |gs| ==> gs[k].id == id)
      && (forall i :: from <= i < k ==> gs[i].id != id)
    decreases |gs| - from
  {
    if from < |gs| && gs[from].id != id { FindIdMeaning(gs, id, from + 1); }
  }

  lemma {:induction false} ServesIpMeaning(gs: seq<Guest>, ip: string, from: nat)
    requires from <= |gs|
    ensures var k := ServesIp(gs, ip, from);
      && from <= k <= |gs|
      && (k < |gs| ==> Usable(gs[k].state) && ip in gs[k].clientIps)
      && (forall i :: from <= i < k ==> !(Usable(gs[i].state) && ip in gs[i].clientIps))
    decreases |gs| - from
  {
    if from < |gs| && !(Usable(gs[from].state) && ip in gs[from].clientIps) { ServesIpMeaning(gs, ip, from + 1); }
  }

  lemma {:induction false} FirstAvailableMeaning(gs: seq<Guest>, from: nat)
    requires from <= |gs|
    ensures var k := FirstAvailable(gs, from);
      && from <= k <= |gs|
      && (k < |gs| ==> gs[k].state == Available)
      && (forall i :: from <= i < k ==> gs[i].state != Available)
    decreases |gs| - from
  {
    if from < |gs| && gs[from].state != Available { FirstAvailableMeaning(gs, from + 1); }
  }

  lemma {:induction false} LeastConnectedMeaning(gs: seq<Guest>, upto: nat)
    requires upto <= |gs|
    ensures var k := LeastConnected(gs, upto);
      && (k < upto || k == |gs|)
      && (k < upto ==> Usable(gs[k].state))
      && (forall i :: 0 <= i < upto && Usable(gs[i].state) ==>
            k < upto && gs[k].connected <= gs[i].connected && (i < k ==> gs[k].connected < gs[i].connected))
  {
    if upto > 0 { LeastConnectedMeaning(gs, upto - 1); }
  }

  // The guest has served the address and still can.
  predicate Knows(g: Guest, ip: string) { Usable(g.state) && ip in g.clientIps }

  /** Who gets a request: the first guest already serving the address, else the first available guest,
      else (only when sharing) the first of the least loaded guests; nobody exactly when none qualifies. */
  lemma ChooseMeaning(p: Pool, ip: string)
    ensures var gs, k := p.guests, Choose(p, ip);
      && k <= |gs|
      && (k < |gs| ==> Probed(gs[k].state))
      && (k < |gs| && Knows(gs[k], ip) ==> forall i :: 0 <= i < k ==> !Knows(gs[i], ip))
      && (k < |gs| && gs[k].state == Available ==>
            (forall i :: 0 <= i < |gs| ==> !Knows(gs[i], ip)) && forall i :: 0 <= i < k ==> gs[i].state != Available)
      && (k < |gs| && Usable(gs[k].state) && !Knows(gs[k], ip) ==>
            p.share && forall i :: 0 <= i < |gs| ==>
              && gs[i].state != Available && !Knows(gs[i], ip)
              && (Usable(gs[i].state) ==> gs[k].connected <= gs[i].connected)
              && (Usable(gs[i].state) && i < k ==> gs[k].connected < gs[i].connected))
      && (k == |gs| <==> forall i :: 0 <= i < |gs| ==>
            gs[i].state != Available && (Usable(gs[i].state) ==> !p.share && ip !in gs[i].clientIps))
  {
    ServesIpMeaning(p.guests, ip, 0);
    FirstAvailableMeaning(p.guests, 0);
    LeastConnectedMeaning(p.guests, |p.guests|);
  }

  // ---- Sizes and removal -----------------------------------------------------------------

  lemma {:induction false} RemainingMeaning(gs: seq<Guest>)
    ensures |Remaining(gs)| == ExistingSize(gs) <= |gs|
    ensures forall g :: g in Remaining(gs) <==> g in gs && g.state != Destroyed
  {
    if gs != [] {
      RemainingMeaning(gs[..|gs| - 1]);
      assert gs == gs[..|gs| - 1] + [gs[|gs| - 1]];
    }
  }

  lemma {:induction false} NoneDestroyedSize(gs: seq<Guest>)
    requires forall g :: g in gs ==> g.state != Destroyed
    ensures ExistingSize(gs) == |gs|
  {
    if gs != [] { NoneDestroyedSize(gs[..|gs| - 1]); }
  }

  lemma {:induction false} CreateAllMeaning(p: Pool, ips: seq<string>)
    ensures var q := CreateAll(p, ips);
      && |q.guests| == |p.guests| + |ips|
      && q.created == p.created + |ips|
      && q.guests[..|p.guests|] == p.guests
      && q.maxVm == p.maxVm && q.timeout == p.timeout && q.share == p.share && q.anyUp == p.anyUp
      && (forall j :: |p.guests| <= j < |q.guests| ==>
            var g := q.guests[j];
            && g.ip == ips[j - |p.guests|] && g.serial == p.created + (j - |p.guests|)
            && g.state == Created && g.connected == 0 && g.clientIps == [])
  {
    if ips != [] {
      var most := ips[..|ips| - 1];
      CreateAllMeaning(p, most);
    }
  }
}
