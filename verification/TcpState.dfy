/** The canary's objects: a connection's State, the state table, and handleTCP tying them together. */
module TcpState {
  import opened Options
  import opened Words
  import M = TcpModel
  import T = StateTable

  class State {
    const srcIp: string
    const srcPort: uint16
    const destIp: string
    const destPort: uint16
    const initialSendSequenceNumber: uint32
    var state: M.SocketState
    var sendUnacknowledged: uint32
    var sendNext: uint32
    var recvNext: uint32
    var t: int
    // What `send` queued for the network and `socket.write` put into the ring buffer.
    var sent: seq<M.Segment>
    var delivered: seq<byte>
    ghost var peerSyn: uint32
    ghost var finSeen: bool

    // NewState.
    constructor (srcIp: string, srcPort: uint16, destIp: string, destPort: uint16, iss: uint32, now: int)
      ensures View() == M.NewConn(iss).(state := M.Closed) && t == now
      ensures this.srcIp == srcIp && this.srcPort == srcPort && this.destIp == destIp && this.destPort == destPort
    {
      this.srcIp, this.srcPort, this.destIp, this.destPort := srcIp, srcPort, destIp, destPort;
      initialSendSequenceNumber := iss;
      state, sendUnacknowledged, sendNext, recvNext, t := M.Closed, 0, 0, 0, now;
      sent, delivered, peerSyn, finSeen := [], [], 0, false;
    }

    ghost function View(): M.Conn
      reads this
    {
      M.Conn(state, sendUnacknowledged, sendNext, initialSendSequenceNumber, recvNext,
             sent, delivered, peerSyn, finSeen)
    }

    method Send(payload: seq<byte>, flags: M.Flags)
      modifies this`sent
      ensures View() == M.Emit(old(View()), payload, flags)
    {
      sent := sent + [M.Segment(sendNext, recvNext, flags, payload)];
    }

    method Write(data: seq<byte>)
      modifies this
      ensures View() == M.WriteData(old(View()), data) && t == old(t)
      ensures sent == old(sent) + [M.Segment(old(sendNext), recvNext, M.Flags(false, true, false, false, true), data)]
      ensures sendNext == (old(sendNext) + |data|) % TWO_32
    {
      Send(data, M.PSH_ACK);
      sendNext := Add32(sendNext, |data|);
    }

    method Close()
      modifies this
      ensures View() == M.CloseConn(old(View())) && t == old(t)
      ensures sent == old(sent) + [M.Segment(old(sendNext), recvNext, M.Flags(false, true, false, true, false), [])]
      ensures sendNext == (old(sendNext) + 1) % TWO_32 && state == M.FinWait1
    {
      Send([], M.FIN_ACK);
      sendNext := Add32(sendNext, 1);
      state := M.FinWait1;
    }

    method AcceptSyn(hdr: M.Segment)
      modifies this
      ensures View() == M.Handshake(old(View()), hdr) && t == old(t)
    {
      sendUnacknowledged := initialSendSequenceNumber;
      sendNext := Add32(initialSendSequenceNumber, 1);
      recvNext := Add32(hdr.num, 1);
      peerSyn, finSeen := hdr.num, false;
      Send([], M.SYN_ACK);
      sendNext := Add32(sendNext, 1);
      state := M.SynReceived;
    }

    method AcceptPayload(hdr: M.Segment)
      modifies this
      ensures View() == M.Deliver(old(View()), hdr) && t == old(t)
    {
      if state == M.Established || state == M.FinWait1 || state == M.FinWait2 {
        delivered := delivered + hdr.payload;
        recvNext := Add32(recvNext, |hdr.payload|);
        if |hdr.payload| > 0 { Send([], M.JUST_ACK); }
      }
    }

    method AcceptFin(hdr: M.Segment)
      modifies this
      ensures View() == M.Finish(old(View()), hdr) && t == old(t)
    {
      if !hdr.flags.fin { return; }
      recvNext := hdr.num;
      finSeen := true;
      if state == M.SynReceived || state == M.Established {
        recvNext := Add32(recvNext, 1);
        Send([], M.FIN_ACK);
        sendNext := Add32(sendNext, 1);
        state := M.CloseWait;
      } else if state == M.FinWait1 {
        state := M.Closing;
      } else if state == M.FinWait2 {
        recvNext := Add32(recvNext, 1);
        Send([], M.JUST_ACK);
        state := M.TimeWait;
      }
    }

    // handleTCP from the point where the state is locked; true when the code calls stateTable.Remove.
    method Handle(hdr: M.Segment) returns (remove: bool)
      modifies this
      ensures View() == M.Receive(old(View()), hdr) && t == old(t)
      ensures remove == M.Removes(old(View()), hdr)
    {
      remove := false;
      if state == M.Listen && hdr.flags.syn {
        AcceptSyn(hdr);
        return;
      }
      if hdr.flags.rst {
        if state == M.SynReceived {
          state := M.Listen;
          return;
        }
        if state == M.CloseWait || state == M.TimeWait {
          state := M.Closed;
          return true;
        }
      }
      if hdr.flags.syn || !hdr.flags.ack { return; }
      remove := state == M.CloseWait;
      AcceptAck(hdr);
    }

    method AcceptAck(hdr: M.Segment)
      modifies this
      ensures View() == M.OnAck(old(View()), hdr) && t == old(t)
    {
      if state == M.Closing { state := M.TimeWait; }
      if state == M.SynReceived {
        if sendUnacknowledged <= hdr.ackNum <= sendNext { state := M.Established; } else { return; }
      }
      if sendUnacknowledged <= hdr.ackNum <= sendNext { sendUnacknowledged := hdr.ackNum; }
      if state == M.FinWait1 { state := M.FinWait2; } else if state == M.FinWait2 { state := M.TimeWait; }
      AcceptPayload(hdr);
      AcceptFin(hdr);
    }
  }

  // The table's view of one array element.
  ghost function SlotOf(s: State?): T.Slot<State>
    reads s
  {
    if s == null then T.Vacant else var c: State := s; T.Held(c, c.state == M.TimeWait, c.t)
  }

  ghost function SlotsOf(ss: seq<State?>): (slots: seq<T.Slot<State>>)
    reads set s | s in ss
    ensures |slots| == |ss|
  {
    if ss == [] then [] else SlotsOf(ss[..|ss| - 1]) + [SlotOf(ss[|ss| - 1])]
  }

  lemma {:induction false} SlotsPointwise(ss: seq<State?>)
    ensures forall i :: 0 <= i < |ss| ==> SlotsOf(ss)[i] == SlotOf(ss[i])
  {
    if ss != [] { SlotsPointwise(ss[..|ss| - 1]); }
  }

  // The array with the first entry for s, from index `from` on, cleared.
  ghost function Without(ss: seq<State?>, s: State, from: nat): (r: seq<State?>)
    requires from <= |ss|
    decreases |ss| - from
  {
    if from == |ss| then ss else if ss[from] == s then ss[from := null] else Without(ss, s, from + 1)
  }

  const TABLE_SIZE: nat := 65535

  class Table {
    const slots: array<State?>

    constructor ()
      ensures fresh(slots) && slots.Length == TABLE_SIZE && forall i :: 0 <= i < TABLE_SIZE ==> slots[i] == null
    {
      slots := new State?[TABLE_SIZE](_ => null);
    }

    ghost function View(): seq<T.Slot<State>>
      reads slots, set s | s in slots[..]
    {
      SlotsOf(slots[..])
    }

    // False is the "Statetable full" panic.
    method Add(state: State, now: int) returns (ok: bool)
      requires state.state != M.TimeWait && state.t == now
      modifies slots
      ensures ok <==> T.Add(old(View()), state, now).Some?
      ensures View() == if ok then T.Add(old(View()), state, now).value else old(View())
      ensures if ok then T.Place(old(View()), now) < slots.Length else T.Place(old(View()), now) == slots.Length
      ensures slots[..] == if ok then old(slots[..])[T.Place(old(View()), now) := state] else old(slots[..])
    {
      ghost var was := View();
      SlotsPointwise(slots[..]);
      var i := 0;
      while i < slots.Length && !(slots[i] == null || slots[i].state == M.TimeWait)
        invariant i <= slots.Length && T.FirstReusable(was, 0) == T.FirstReusable(was, i)
      {
        i := i + 1;
      }
      if i == slots.Length {
        T.FirstReusableMeaning(was, 0);
        i := 0;
        while i < slots.Length && !(now - slots[i].t > T.IDLE)
          invariant i <= slots.Length && T.FirstInactive(was, now, 0) == T.FirstInactive(was, now, i)
        {
          i := i + 1;
        }
      }
      assert i == T.Place(was, now);
      if i == slots.Length { return false; }
      slots[i] := state;
      SlotsPointwise(slots[..]);
      assert View() == was[i := T.Held(state, false, now)];
      return true;
    }

    method Remove(state: State)
      modifies slots
      ensures View() == T.Remove(old(View()), state)
      ensures slots[..] == Without(old(slots[..]), state, 0)
    {
      ghost var was := View();
      SlotsPointwise(slots[..]);
      var i := 0;
      while i < slots.Length && slots[i] != state
        invariant i <= slots.Length && T.Find(was, state, 0) == T.Find(was, state, i)
        invariant Without(slots[..], state, 0) == Without(slots[..], state, i)
      {
        i := i + 1;
      }
      if i < slots.Length {
        slots[i] := null;
        SlotsPointwise(slots[..]);
        assert View() == was[i := T.Vacant];
      }
    }

    method Get(srcIp: string, destIp: string, srcPort: uint16, destPort: uint16) returns (state: State?)
      ensures state != null ==> state in slots[..] && Matches(state, srcIp, destIp, srcPort, destPort)
      ensures state == null ==> forall s: State :: s in slots[..] ==> !Matches(s, srcIp, destIp, srcPort, destPort)
      ensures state != null ==>
          exists k :: FirstMatch(slots[..], k, srcIp, destIp, srcPort, destPort) && slots[k] == state
    {
      for i := 0 to slots.Length
        invariant forall k :: 0 <= k < i && slots[k] != null ==> !Matches(slots[k], srcIp, destIp, srcPort, destPort)
      {
        var s := slots[i];
        if s == null { continue; }
        if s.srcPort != srcPort && s.destPort != srcPort { continue; }
        if s.destPort != destPort && s.srcPort != destPort { continue; }
        if s.srcIp != srcIp && s.destIp != srcIp { continue; }
        if s.destIp != destIp && s.srcIp != destIp { continue; }
        assert FirstMatch(slots[..], i, srcIp, destIp, srcPort, destPort);
        return s;
      }
      return null;
    }
  }

  // The k-th slot holds a connection that matches, and no earlier one does.
  ghost predicate FirstMatch(ss: seq<State?>, k: int, srcIp: string, destIp: string, srcPort: uint16,
                             destPort: uint16)
  {
    && 0 <= k < |ss| && ss[k] != null && Matches(ss[k], srcIp, destIp, srcPort, destPort)
    && forall i :: 0 <= i < k && ss[i] != null ==> !Matches(ss[i], srcIp, destIp, srcPort, destPort)
  }

  // Each endpoint of the packet is one of the connection's, port and address taken separately.
  predicate Matches(s: State, srcIp: string, destIp: string, srcPort: uint16, destPort: uint16) {
    srcPort in {s.srcPort, s.destPort} && destPort in {s.srcPort, s.destPort} &&
    srcIp in {s.srcIp, s.destIp} && destIp in {s.srcIp, s.destIp}
  }

  datatype Outcome = Ignored | Handled(conn: State) | Panicked

  // A well-formed packet for one of the canary's own addresses.
  datatype Packet = Packet(srcIp: string, destIp: string, srcPort: uint16, destPort: uint16, hdr: M.Segment)

  predicate ForConn(p: Packet, s: State) { Matches(s, p.srcIp, p.destIp, p.srcPort, p.destPort) }

  /** A packet between different ports and different addresses is a connection's exactly when the two ports are the
      connection's two ports and the two addresses its two addresses, in either order and independently. */
  lemma PacketMatchesExactly(p: Packet, s: State)
    requires p.srcPort != p.destPort && p.srcIp != p.destIp
    ensures ForConn(p, s) <==>
        {p.srcPort, p.destPort} == {s.srcPort, s.destPort} && {p.srcIp, p.destIp} == {s.srcIp, s.destIp}
  {
    var ports, ips := {s.srcPort, s.destPort}, {s.srcIp, s.destIp};
    assert p.srcPort in {p.srcPort, p.destPort} && p.destPort in {p.srcPort, p.destPort};
    assert p.srcIp in {p.srcIp, p.destIp} && p.destIp in {p.srcIp, p.destIp};
    if ForConn(p, s) {
      assert {p.srcPort, p.destPort} == ports && {p.srcIp, p.destIp} == ips;
    }
  }

  // The first connection of the table that is the packet's.
  ghost predicate FirstFor(ss: seq<State?>, p: Packet, s: State) {
    exists k :: FirstMatch(ss, k, p.srcIp, p.destIp, p.srcPort, p.destPort) && ss[k] == s
  }

  class Canary {
    const table: Table

    constructor ()
      ensures fresh(table) && fresh(table.slots)
    {
      table := new Table();
    }

    // A listening connection for the packet, put into the table; false when the table panics.
    method Open(p: Packet, iss: uint32, now: int) returns (c: State, ok: bool)
      modifies table.slots
      ensures fresh(c) && c.View() == M.NewConn(iss) && c.t == now
      ensures c.srcIp == p.srcIp && c.srcPort == p.srcPort && c.destIp == p.destIp && c.destPort == p.destPort
      ensures var k := T.Place(old(table.View()), now);
              if ok then k < table.slots.Length && table.slots[..] == old(table.slots[..])[k := c]
              else k == table.slots.Length && table.slots[..] == old(table.slots[..])
    {
      c := new State(p.srcIp, p.srcPort, p.destIp, p.destPort, iss, now);
      c.state := M.Listen;
      ok := table.Add(c, now);
    }

    method HandleTcp(p: Packet, iss: uint32, now: int) returns (outcome: Outcome)
      modifies table.slots, set s | s in table.slots[..]
      ensures var opening := p.hdr.flags.syn && !p.hdr.flags.ack;
              && (outcome.Ignored? <==>
                  (22 in {p.srcPort, p.destPort} ||
                   (!opening && forall s: State :: s in old(table.slots[..]) ==> !ForConn(p, s))))
              && (outcome.Panicked? ==> opening && T.Place(old(table.View()), now) == table.slots.Length)
              && (!outcome.Handled? ==> table.slots[..] == old(table.slots[..]))
      ensures outcome.Handled? ==> outcome.conn.t == now && ForConn(p, outcome.conn)
      ensures outcome.Handled? && p.hdr.flags.syn && !p.hdr.flags.ack ==> var c := outcome.conn;
        && fresh(c) && c.View() == M.Opened(iss, p.hdr)
        && c.srcIp == p.srcIp && c.srcPort == p.srcPort && c.destIp == p.destIp && c.destPort == p.destPort
        && var k := T.Place(old(table.View()), now);
           k < table.slots.Length && table.slots[..] == old(table.slots[..])[k := c]
      ensures outcome.Handled? && !(p.hdr.flags.syn && !p.hdr.flags.ack) ==> var c := outcome.conn;
        && old(allocated(c)) && c in old(table.slots[..]) && FirstFor(old(table.slots[..]), p, c)
        && c.View() == M.Receive(old(c.View()), p.hdr)
        && table.slots[..] == if M.Removes(old(c.View()), p.hdr) then Without(old(table.slots[..]), c, 0)
                              else old(table.slots[..])
      ensures outcome.Handled? ==> forall s: State :: s in old(table.slots[..]) && s != outcome.conn ==>
                s.View() == old(s.View()) && s.t == old(s.t)
    {
      if p.srcPort == 22 || p.destPort == 22 { return Ignored; }
      var state := table.Get(p.srcIp, p.destIp, p.srcPort, p.destPort);
      if p.hdr.flags.syn && !p.hdr.flags.ack {
        var ok;
        state, ok := Open(p, iss, now);
        if !ok { return Panicked; }
      }
      if state == null { return Ignored; }
      state.t := now;
      var remove := state.Handle(p.hdr);
      if remove { table.Remove(state); }
      return Handled(state);
    }
  }
}
