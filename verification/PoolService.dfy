/** The mutable objects: guests, the pool service, the NAT service and the server that pairs their calls.
    Every method is proved against the functions of PoolModel and PoolSystem. */
module PoolService {
  import opened Options
  import M = PoolModel
  import S = PoolSystem

  class Guest {
    const id: nat
    const guestIp: string
    ghost const serial: nat
    var clientIps: seq<string>
    var connected: int
    var state: M.GuestState
    var prevState: M.GuestState
    var freedTimestamp: int

    constructor (id: nat, guestIp: string, ghost serial: nat)
      ensures View() == M.Guest(serial, id, guestIp, [], 0, M.Created, M.NoState, -1)
    {
      this.id, this.guestIp, this.serial := id, guestIp, serial;
      clientIps, connected, state, prevState, freedTimestamp := [], 0, M.Created, M.NoState, -1;
    }

    ghost function View(): M.Guest
      reads this
    {
      M.Guest(serial, id, guestIp, clientIps, connected, state, prevState, freedTimestamp)
    }

    // What free_vm does to the guest it finds.
    method Leave(now: int)
      modifies this
      ensures View() == M.Leave(old(View()), now)
    {
      freedTimestamp := now;
      connected := connected - 1;
      if connected == 0 { state := M.Used; }
    }

    // What reuse_vm does to the guest it finds.
    method Revert()
      modifies this
      ensures View() == M.Revert(old(View()))
    {
      connected := connected - 1;
      if connected == 0 {
        state := prevState;
        prevState := M.NoState;
      }
    }

    // What mark_available does to each guest.
    method BootUp(up: bool) returns (booted: bool)
      modifies this
      ensures View() == M.BootUp(old(View()), up) && booted == (old(state) == M.Created && up)
    {
      booted := state == M.Created && up;
      if booted { state := M.Available; }
    }

    // What request_vm does to the guest it selects.
    method Occupy(ip: string)
      modifies this
      ensures View() == M.Occupy(old(View()), ip)
    {
      prevState := state;
      state := M.Using;
      connected := connected + 1;
      clientIps := clientIps + [ip];
    }
  }

  ghost predicate Distinct(gs: seq<Guest>) { forall i, j :: 0 <= i < j < |gs| ==> gs[i] != gs[j] }

  ghost function Views(gs: seq<Guest>): (vs: seq<M.Guest>)
    reads gs
    ensures |vs| == |gs|
  {
    if gs == [] then [] else Views(gs[..|gs| - 1]) + [gs[|gs| - 1].View()]
  }

  lemma {:induction false} ViewsPointwise(gs: seq<Guest>)
    ensures forall i :: 0 <= i < |gs| ==> Views(gs)[i] == gs[i].View()
  {
    if gs != [] { ViewsPointwise(gs[..|gs| - 1]); }
  }

  // All guests but one still look as before.
  lemma Replaced(gs: seq<Guest>, vs: seq<M.Guest>, k: nat)
    requires k < |gs| == |vs|
    requires forall i :: 0 <= i < |gs| && i != k ==> gs[i].View() == vs[i]
    ensures Views(gs) == vs[k := gs[k].View()]
  {
    ViewsPointwise(gs);
  }

  // The list without the given guests.
  ghost function Without(gs: seq<Guest>, out: set<Guest>): seq<Guest> {
    if gs == [] then []
    else Without(gs[..|gs| - 1], out) + if gs[|gs| - 1] in out then [] else [gs[|gs| - 1]]
  }

  ghost function Among(gs: seq<Guest>, n: nat): set<Guest>
    requires n <= |gs|
  {
    set i | 0 <= i < n :: gs[i]
  }

  lemma {:induction false} WithoutMeaning(gs: seq<Guest>, out: set<Guest>)
    requires Distinct(gs)
    ensures Distinct(Without(gs, out))
    ensures forall g :: g in Without(gs, out) <==> g in gs && g !in out
  {
    if gs != [] {
      WithoutMeaning(gs[..|gs| - 1], out);
      assert gs == gs[..|gs| - 1] + [gs[|gs| - 1]];
    }
  }

  lemma {:induction false} WithoutOneMore(gs: seq<Guest>, out: set<Guest>, k: nat)
    requires Distinct(gs) && k < |Without(gs, out)|
    ensures var ws := Without(gs, out); Without(gs, out + {ws[k]}) == ws[..k] + ws[k + 1..]
  {
    var ws, init, last := Without(gs, out), gs[..|gs| - 1], gs[|gs| - 1];
    var most := Without(init, out);
    if k < |most| {
      WithoutOneMore(init, out, k);
      WithoutMeaning(init, out);
      assert most[k] in most && most[k] != last;
      assert ws == most + if last in out then [] else [last];
    } else {
      assert ws == most + [last] && ws[..k] == most && ws[k + 1..] == [];
      WithoutUnlisted(init, out, last);
    }
  }

  lemma {:induction false} WithoutUnlisted(gs: seq<Guest>, out: set<Guest>, g: Guest)
    requires g !in gs
    ensures Without(gs, out + {g}) == Without(gs, out)
  {
    if gs != [] { WithoutUnlisted(gs[..|gs| - 1], out, g); }
  }

  lemma {:induction false} WithoutIsRemaining(gs: seq<Guest>, out: set<Guest>)
    requires forall g :: g in gs ==> (g in out <==> g.state == M.Destroyed)
    ensures Views(Without(gs, out)) == M.Remaining(Views(gs))
  {
    if gs != [] {
      var init, last := gs[..|gs| - 1], gs[|gs| - 1];
      WithoutIsRemaining(init, out);
      assert last in gs && init + [last] == gs;
      var vs := Views(gs);
      assert vs == Views(init) + [last.View()] && vs[..|vs| - 1] == Views(init) && vs[|vs| - 1] == last.View();
      if last in out {
        assert Without(gs, out) == Without(init, out);
      } else {
        ViewsAppend(Without(init, out), last);
      }
    }
  }

  lemma ViewsAppend(gs: seq<Guest>, g: Guest)
    ensures Views(gs + [g]) == Views(gs) + [g.View()]
  {
    assert (gs + [g])[..|gs|] == gs;
  }

  class PoolService {
    var guests: seq<Guest>
    var guestId: nat
    ghost var created: nat
    var maxVm: nat
    var vmUnusedTimeout: nat
    var shareGuests: bool
    var anyVmUp: bool

    ghost predicate Valid()
      reads this
    {
      Distinct(guests)
    }

    ghost function View(): M.Pool
      reads this, guests
    {
      M.Pool(Views(guests), guestId, created, maxVm, vmUnusedTimeout, shareGuests, anyVmUp)
    }

    constructor ()
      ensures Valid() && View() == M.Pool([], 0, 0, 2, 600, true, false)
    {
      guests, guestId, created := [], 0, 0;
      maxVm, vmUnusedTimeout, shareGuests, anyVmUp := 2, 600, true, false;
    }

    method SetConfigs(maxVm: nat, vmUnusedTimeout: nat, shareGuests: bool)
      requires Valid()
      modifies this
      ensures Valid() && guests == old(guests)
      ensures View() == old(View()).(maxVm := maxVm, timeout := vmUnusedTimeout, share := shareGuests)
    {
      this.maxVm, this.vmUnusedTimeout, this.shareGuests := maxVm, vmUnusedTimeout, shareGuests;
    }

    method ExistingPoolSize() returns (n: nat)
      ensures n == M.ExistingSize(Views(guests))
    {
      n := 0;
      ViewsPointwise(guests);
      ghost var vs := Views(guests);
      for i := 0 to |guests|
        invariant n == M.ExistingSize(vs[..i])
      {
        assert vs[..i + 1][..i] == vs[..i];
        if guests[i].state != M.Destroyed { n := n + 1; }
      }
      assert vs[..|guests|] == vs;
    }

    // ---- Producer phases

    method MarkTimedOut(now: int)
      requires Valid()
      modifies guests
      ensures View() == M.MarkTimedOut(old(View()), now)
    {
      ghost var was := View();
      ViewsPointwise(guests);
      for i := 0 to |guests|
        invariant forall k :: 0 <= k < |guests| ==>
            guests[k].View() == if k < i then M.TimedOut(was.guests[k], vmUnusedTimeout, now) else was.guests[k]
      {
        if guests[i].state == M.Used && guests[i].freedTimestamp + vmUnusedTimeout < now {
          guests[i].state := M.Unavailable;
        }
      }
      ViewsPointwise(guests);
      assert Views(guests) == M.MarkTimedOut(was, now).guests;
    }

    method DestroyTimedOut(raised: set<nat>)
      requires Valid()
      modifies guests
      ensures View() == M.DestroyUnavailable(old(View()), raised)
    {
      ghost var was := View();
      ViewsPointwise(guests);
      for i := 0 to |guests|
        invariant forall k :: 0 <= k < |guests| ==>
            guests[k].View() == if k < i then M.Teardown(was.guests[k], k in raised) else was.guests[k]
      {
        if guests[i].state == M.Unavailable && i !in raised { guests[i].state := M.Destroyed; }
      }
      ViewsPointwise(guests);
      assert Views(guests) == M.DestroyUnavailable(was, raised).guests;
    }

    method CheckHealth(down: set<nat>)
      requires Valid()
      modifies guests
      ensures View() == M.CheckHealth(old(View()), down)
    {
      ghost var was := View();
      ViewsPointwise(guests);
      for i := 0 to |guests|
        invariant forall k :: 0 <= k < |guests| ==>
            guests[k].View() == if k < i then M.Diagnose(was.guests[k], k in down) else was.guests[k]
      {
        if guests[i].state in {M.Available, M.Using, M.Used} && i in down { guests[i].state := M.Unavailable; }
      }
      ViewsPointwise(guests);
      assert Views(guests) == M.CheckHealth(was, down).guests;
    }

    method FindDestroyed() returns (doomed: seq<Guest>)
      requires Valid()
      ensures Distinct(doomed) && forall g :: g in doomed <==> g in guests && g.state == M.Destroyed
    {
      doomed := [];
      for i := 0 to |guests|
        invariant forall g :: g in doomed <==> g in guests[..i] && g.state == M.Destroyed
        invariant Distinct(doomed)
      {
        assert guests[..i + 1] == guests[..i] + [guests[i]];
        if guests[i].state == M.Destroyed { doomed := doomed + [guests[i]]; }
      }
      assert guests[..|guests|] == guests;
    }

    method Remove(guest: Guest) returns (ghost k: nat)
      requires guest in guests
      modifies `guests
      ensures k < |old(guests)| && old(guests)[k] == guest
      ensures guests == old(guests)[..k] + old(guests)[k + 1..]
    {
      var i := 0;
      while guests[i] != guest
        invariant i < |guests| && guest in guests[i..] && guests == old(guests)
        decreases |guests| - i
      {
        i := i + 1;
      }
      guests := guests[..i] + guests[i + 1..];
      k := i;
    }

    method RemoveAll(doomed: seq<Guest>)
      requires Valid() && Distinct(doomed) && forall g :: g in doomed ==> g in guests
      modifies `guests
      ensures guests == Without(old(guests), Among(doomed, |doomed|))
    {
      ghost var all := guests;
      WithoutUnchanged(all);
      assert Among(doomed, 0) == {};
      for n := 0 to |doomed|
        invariant guests == Without(all, Among(doomed, n))
      {
        WithoutMeaning(all, Among(doomed, n));
        assert doomed[n] in all && doomed[n] !in Among(doomed, n);
        ghost var k := Remove(doomed[n]);
        WithoutOneMore(all, Among(doomed, n), k);
        assert Among(doomed, n) + {doomed[n]} == Among(doomed, n + 1);
      }
    }

    method RemoveDestroyed()
      requires Valid()
      modifies `guests
      ensures Valid() && View() == M.RemoveDestroyed(old(View()))
      ensures forall g :: g in guests ==> g in old(guests)
    {
      var doomed := FindDestroyed();
      RemoveAll(doomed);
      ghost var out := Among(doomed, |doomed|);
      assert forall g :: g in out <==> g in doomed;
      WithoutMeaning(old(guests), out);
      WithoutIsRemaining(old(guests), out);
    }

    method CreateGuest(ip: string)
      requires Valid()
      modifies this
      ensures Valid() && View() == M.CreateOne(old(View()), ip)
      ensures forall g :: g in guests ==> g in old(guests) || fresh(g)
    {
      var guest := new Guest(guestId, ip, created);
      AddGuest(guest);
      NextId();
      created := created + 1;
    }

    method AddGuest(guest: Guest)
      requires Valid() && guest !in guests
      modifies `guests
      ensures Valid() && guests == old(guests) + [guest]
      ensures View() == old(View()).(guests := old(View()).guests + [guest.View()])
    {
      ViewsAppend(guests, guest);
      guests := guests + [guest];
    }

    method NextId()
      modifies `guestId
      ensures guestId == M.NextId(old(guestId))
    {
      guestId := guestId + 1;
      if guestId == M.ID_LIMIT { guestId := 0; }
    }

    method CreateEach(ips: seq<string>)
      requires Valid()
      modifies this
      ensures Valid() && View() == M.CreateAll(old(View()), ips)
      ensures forall g :: g in guests ==> g in old(guests) || fresh(g)
    {
      ghost var was := View();
      assert ips[..0] == [];
      for i := 0 to |ips|
        invariant Valid() && View() == M.CreateAll(was, ips[..i])
        invariant forall g :: g in guests ==> g in old(guests) || fresh(g)
      {
        assert ips[..i + 1][..i] == ips[..i];
        CreateGuest(ips[i]);
      }
      assert ips[..|ips|] == ips;
    }

    // Stops early, as the producer thread does, when the backend raises instead of handing out an address.
    method CreateGuests(ips: seq<string>) returns (raised: bool)
      requires Valid()
      modifies this
      ensures Valid() && View() == M.CreateGuests(old(View()), ips)
      ensures raised == (|ips| < M.ToCreate(old(View())))
      ensures forall g :: g in guests ==> g in old(guests) || fresh(g)
    {
      var existing := ExistingPoolSize();
      var toCreate := if maxVm <= existing then 0 else maxVm - existing;
      raised := |ips| < toCreate;
      CreateEach(if |ips| <= toCreate then ips else ips[..toCreate]);
    }

    method MarkAvailable(up: set<nat>)
      requires Valid()
      modifies guests, this`anyVmUp
      ensures View() == M.MarkAvailable(old(View()), up)
    {
      ghost var booting := View();
      BootEach(up);
      ViewsPointwise(guests);
      assert Views(guests) == M.MarkAvailable(booting, up).guests;
    }

    method BootEach(up: set<nat>)
      requires Valid()
      modifies guests, this`anyVmUp
      ensures forall k :: 0 <= k < |guests| ==> guests[k].View() == M.BootUp(old(Views(guests))[k], k in up)
      ensures anyVmUp == (old(anyVmUp) || M.AnyBoots(old(Views(guests)), up, |guests|))
    {
      ghost var was := Views(guests);
      ViewsPointwise(guests);
      for i := 0 to |guests|
        invariant forall k :: 0 <= k < |guests| ==>
            guests[k].View() == if k < i then M.BootUp(was[k], k in up) else was[k]
        invariant anyVmUp == (old(anyVmUp) || M.AnyBoots(was, up, i))
      {
        assert guests[i].View() == was[i] && guests[i].state == was[i].state;
        var booted := guests[i].BootUp(i in up);
        if booted { anyVmUp := true; }
      }
    }

    // One turn of producer_loop, in two halves.
    method AgeGuests(b: S.Probe)
      requires Valid()
      modifies guests
      ensures View() == S.Age(old(View()), b)
    {
      var size := ExistingPoolSize();
      if size > 1 {
        MarkTimedOut(b.now);
        DestroyTimedOut(b.raised);
      }
    }

    method RefillGuests(b: S.Probe)
      requires Valid()
      modifies this, guests
      ensures Valid() && View() == S.Refill(old(View()), b)
    {
      var raised := CreateGuests(b.ips);
      assert forall i :: 0 <= i < |guests| ==> guests[i] in old(guests) || fresh(guests[i]);
      if !raised { MarkAvailable(b.up); }
    }

    method ProducerLoop(b: S.Probe)
      requires Valid()
      modifies this, guests
      ensures Valid() && View() == S.Pass(old(View()), b)
    {
      ghost var p := View();
      AgeGuests(b);
      ghost var aged := View();
      CheckHealth(b.down);
      RemoveDestroyed();
      ghost var kept := View();
      assert kept == M.RemoveDestroyed(M.CheckHealth(aged, b.down));
      forall i | 0 <= i < |guests| ensures guests[i] in old(guests) { assert guests[i] in guests; }
      RefillGuests(b);
      assert View() == S.Refill(kept, b);
    }

    // ---- Consumer calls

    method GetGuestIp(ip: string) returns (k: nat)
      ensures k == M.ServesIp(Views(guests), ip, 0) && k <= |guests|
    {
      ViewsPointwise(guests);
      k := 0;
      while k < |guests| && !(guests[k].state in {M.Used, M.Using} && ip in guests[k].clientIps)
        invariant k <= |guests| && M.ServesIp(Views(guests), ip, 0) == M.ServesIp(Views(guests), ip, k)
      {
        k := k + 1;
      }
    }

    method GetAvailableGuest() returns (k: nat)
      ensures k == M.FirstAvailable(Views(guests), 0) && k <= |guests|
    {
      ViewsPointwise(guests);
      k := 0;
      while k < |guests| && guests[k].state != M.Available
        invariant k <= |guests| && M.FirstAvailable(Views(guests), 0) == M.FirstAvailable(Views(guests), k)
      {
        k := k + 1;
      }
    }

    method GetAnyGuest() returns (k: nat)
      ensures k == M.LeastConnected(Views(guests), |guests|) && k <= |guests|
    {
      ViewsPointwise(guests);
      k := |guests|;
      for i := 0 to |guests|
        invariant k == M.LeastConnected(Views(guests), i) && (k < i || k == |guests|)
      {
        if guests[i].state in {M.Using, M.Used} && (k == |guests| || guests[i].connected < guests[k].connected) {
          k := i;
        }
      }
    }

    // The position of the guest to grant, or the length of the list.
    method SelectGuest(ip: string) returns (k: nat)
      ensures k == M.Choose(View(), ip) && k <= |guests|
    {
      ViewsPointwise(guests);
      k := GetGuestIp(ip);
      if k == |guests| {
        k := GetAvailableGuest();
        if k == |guests| && shareGuests { k := GetAnyGuest(); }
      }
    }

    method RequestVm(ip: string) returns (grant: Option<Guest>)
      requires Valid()
      modifies guests
      ensures View() == M.RequestVm(old(View()), ip).0
      ensures grant.None? <==> M.Choose(old(View()), ip) >= |guests|
      ensures grant.Some? ==> M.Choose(old(View()), ip) < |guests| && grant.value == guests[M.Choose(old(View()), ip)]
    {
      var k := SelectGuest(ip);
      if k == |guests| { return None; }
      ViewsPointwise(guests);
      ghost var was := Views(guests);
      guests[k].Occupy(ip);
      Replaced(guests, was, k);
      return Some(guests[k]);
    }

    method Locate(id: nat) returns (k: nat)
      ensures k == M.FindId(Views(guests), id, 0) && k <= |guests|
    {
      ViewsPointwise(guests);
      k := 0;
      while k < |guests| && guests[k].id != id
        invariant k <= |guests| && M.FindId(Views(guests), id, 0) == M.FindId(Views(guests), id, k)
      {
        k := k + 1;
      }
    }

    method FreeVm(id: nat, now: int)
      requires Valid()
      modifies guests
      ensures View() == M.FreeVm(old(View()), id, now)
    {
      var k := Locate(id);
      if k < |guests| {
        ViewsPointwise(guests);
        ghost var was := Views(guests);
        guests[k].Leave(now);
        Replaced(guests, was, k);
      }
    }

    method ReuseVm(id: nat)
      requires Valid()
      modifies guests
      ensures View() == M.ReuseVm(old(View()), id)
    {
      var k := Locate(id);
      if k < |guests| {
        ViewsPointwise(guests);
        ghost var was := Views(guests);
        guests[k].Revert();
        Replaced(guests, was, k);
      }
    }
  }

  lemma {:induction false} WithoutUnchanged(gs: seq<Guest>)
    ensures Without(gs, {}) == gs
  {
    if gs != [] { WithoutUnchanged(gs[..|gs| - 1]); }
  }

  class NatService {
    var bindings: map<nat, S.Binding>
    // The reactor's table of open listeners, and how many were ever opened.
    var listening: map<nat, nat>
    var handles: nat

    ghost function View(): S.Nat
      reads this
    {
      S.Nat(bindings, listening, handles)
    }

    constructor ()
      ensures View() == S.Nat(map[], map[], 0)
    {
      bindings, listening, handles := map[], map[], 0;
    }

    method Listen(port: nat) returns (h: nat)
      modifies this
      ensures h == old(handles) && handles == h + 1
      ensures listening == old(listening)[h := port] && bindings == old(bindings)
    {
      h := handles;
      listening, handles := listening[h := port], handles + 1;
    }

    // The ports are those the listeners of the binding have; `a` and `b` are what the system would pick now.
    method RequestBinding(id: nat, a: nat, b: nat) returns (ssh: nat, telnet: nat)
      requires id in bindings ==> bindings[id].ssh in listening && bindings[id].telnet in listening
      modifies this
      ensures View() == S.RequestBinding(old(View()), id, a, b)
      ensures S.PortsOf(View(), id) == Some((ssh, telnet))
    {
      if id in bindings {
        bindings := bindings[id := bindings[id].(count := bindings[id].count + 1)];
      } else {
        var natSsh := Listen(a);
        var natTelnet := Listen(b);
        bindings := bindings[id := S.Binding(1, natSsh, natTelnet)];
      }
      ssh, telnet := listening[bindings[id].ssh], listening[bindings[id].telnet];
    }

    // False is the KeyError of an unknown id.
    method FreeBinding(id: nat) returns (ok: bool)
      modifies this
      ensures ok == S.FreeBinding(old(View()), id).Some?
      ensures View() == if ok then S.FreeBinding(old(View()), id).value else old(View())
    {
      if id !in bindings { return false; }
      bindings := bindings[id := bindings[id].(count := bindings[id].count - 1)];
      if bindings[id].count <= 0 {
        listening := listening - {bindings[id].ssh};
        listening := listening - {bindings[id].telnet};
        bindings := bindings - {id};
        assert listening == old(listening) - {old(bindings[id].ssh), old(bindings[id].telnet)};
        assert bindings == old(bindings) - {id};
      }
      return true;
    }
  }

  datatype Reply = Configured | Granted(id: nat, ip: string, ssh: nat, telnet: nat) | NoVm | Silent

  /** The server protocol: each message pairs a pool call with a NAT call. */
  class PoolServer {
    const pool: PoolService
    const net: NatService
    const useNat: bool
    const sshPort: nat
    const telnetPort: nat
    const natPublicIp: string
    var stopped: bool
    ghost var phase: S.Phase
    ghost var sessions: multiset<nat>
    ghost var failed: set<nat>
    ghost var gone: set<nat>

    ghost predicate Valid()
      reads this, pool, pool.guests
    {
      pool.Valid()
    }

    ghost function View(): S.System
      reads this, pool, pool.guests, net
    {
      S.System(pool.View(), net.View(), useNat, phase, sessions, failed, gone, stopped)
    }

    constructor (useNat: bool, sshPort: nat, telnetPort: nat, natPublicIp: string)
      ensures Valid() && View() == S.Start(useNat, 2, 600, true)
    {
      pool := new PoolService();
      net := new NatService();
      this.useNat, this.sshPort, this.telnetPort, this.natPublicIp := useNat, sshPort, telnetPort, natPublicIp;
      stopped, phase, sessions, failed, gone := false, S.LoopStart, multiset{}, {}, {};
    }

    // The ports to answer with: the binding's when NAT is in use, else the configured ones.
    method Expose(guest: Guest, a: nat, b: nat) returns (ssh: nat, telnet: nat)
      requires useNat ==> S.TwoOpen(net.View())
      modifies this`sessions, net
      ensures View() == old(View()).(sessions := old(sessions) + multiset{guest.id},
          net := if useNat then S.RequestBinding(old(net.View()), guest.id, a, b) else old(net.View()))
      ensures useNat ==> S.PortsOf(net.View(), guest.id) == Some((ssh, telnet))
      ensures !useNat ==> (ssh, telnet) == (sshPort, telnetPort)
    {
      sessions := sessions + multiset{guest.id};
      ssh, telnet := sshPort, telnetPort;
      if useNat {
        assert guest.id in net.bindings ==>
            && S.Owns(net.View(), guest.id, net.bindings[guest.id].ssh)
            && S.Owns(net.View(), guest.id, net.bindings[guest.id].telnet);
        ssh, telnet := net.RequestBinding(guest.id, a, b);
      }
    }

    // Op code 'r'.
    method ReceiveRequest(ip: string, a: nat, b: nat) returns (reply: Reply)
      requires Valid() && !stopped && (useNat ==> S.TwoOpen(net.View()))
      modifies this, pool.guests, net
      ensures Valid() && View() == S.OnRequest(old(View()), S.Request(ip, a, b))
      ensures reply.NoVm? <==> M.Choose(old(pool.View()), ip) >= |pool.guests|
      ensures !reply.NoVm? ==>
        var guest := pool.guests[M.Choose(old(pool.View()), ip)];
        && reply.Granted? && reply.id == guest.id
        && reply.ip == (if useNat then natPublicIp else guest.guestIp)
        && (useNat ==> S.PortsOf(net.View(), reply.id) == Some((reply.ssh, reply.telnet)))
        && (!useNat ==> reply.ssh == sshPort && reply.telnet == telnetPort)
    {
      ghost var s := View();
      var grant := pool.RequestVm(ip);
      ghost var q := pool.View();
      assert View() == s.(pool := q);
      if grant.None? {
        stopped := pool.anyVmUp;
        assert View() == s.(pool := q, stopped := q.anyUp);
        return NoVm;
      }
      ViewsPointwise(pool.guests);
      assert q.guests[M.Choose(s.pool, ip)].id == grant.value.id;
      var ssh, telnet := Expose(grant.value, a, b);
      reply := Granted(grant.value.id, if useNat then natPublicIp else grant.value.guestIp, ssh, telnet);
    }

    // The NAT side of giving a guest back; false is the KeyError of an id without a binding.
    method Release(id: nat) returns (ok: bool)
      modifies this`sessions, net
      ensures pool.View() == old(pool.View())
      ensures forall p :: (if ok then View().(pool := p) else View()) == S.OnRelease(old(View()), id, p)
    {
      ok := true;
      if useNat { ok := net.FreeBinding(id); }
      if ok { sessions := sessions - multiset{id}; }
    }

    // Op code 'f'; the binding goes first, and a KeyError there ends the handler.
    method ReceiveFree(id: nat, now: int) returns (reply: Reply)
      requires Valid() && !stopped
      modifies this`sessions, pool.guests, net
      ensures Valid() && View() == S.OnRelease(old(View()), id, M.FreeVm(old(pool.View()), id, now)) && reply == Silent
    {
      reply := Silent;
      var ok := Release(id);
      ghost var released := View();
      if ok {
        pool.FreeVm(id, now);
        assert View() == released.(pool := pool.View());
      }
    }

    // Op code 'u'.
    method ReceiveReuse(id: nat) returns (reply: Reply)
      requires Valid() && !stopped
      modifies this`sessions, pool.guests, net
      ensures Valid() && View() == S.OnRelease(old(View()), id, M.ReuseVm(old(pool.View()), id)) && reply == Silent
    {
      reply := Silent;
      var ok := Release(id);
      ghost var released := View();
      if ok {
        pool.ReuseVm(id);
        assert View() == released.(pool := pool.View());
      }
    }

    // Op code 'i'.
    method ReceiveConfig(maxVm: nat, timeout: nat, share: bool) returns (reply: Reply)
      requires Valid() && !stopped
      modifies pool
      ensures Valid() && View() == S.Step(old(View()), S.Config(maxVm, timeout, share)) && reply == Configured
      ensures pool.maxVm == maxVm && pool.vmUnusedTimeout == timeout && pool.shareGuests == share
    {
      pool.SetConfigs(maxVm, timeout, share);
      reply := Configured;
    }
  }
}
