/** One connection of the canary's userspace TCP: how a segment, a write and a close change it.
    `sent` and `delivered` record what went to the network and to the socket; `peerSyn` and `finSeen`
    are history: the number of the last SYN answered, and whether a FIN was processed since. */
module TcpModel {
  import opened Words

  datatype SocketState =
    | Closed | Listen | SynReceived | SynSent | Established
    | FinWait1 | FinWait2 | Closing | TimeWait | CloseWait | LastAck

  datatype Flags = Flags(syn: bool, ack: bool, rst: bool, fin: bool, psh: bool)

  datatype Segment = Segment(num: uint32, ackNum: uint32, flags: Flags, payload: seq<byte>)

  datatype Conn = Conn(state: SocketState, una: uint32, nxt: uint32, iss: uint32, rcvNxt: uint32,
                       sent: seq<Segment>, delivered: seq<byte>, peerSyn: uint32, finSeen: bool)

  const SYN_ACK := Flags(true, true, false, false, false)
  const FIN_ACK := Flags(false, true, false, true, false)
  const PSH_ACK := Flags(false, true, false, false, true)
  const JUST_ACK := Flags(false, true, false, false, false)

  function NewConn(iss: uint32): Conn { Conn(Listen, 0, 0, iss, 0, [], [], 0, false) }

  // `send`: a segment numbered SendNext; advancing SendNext is the caller's business.
  function Emit(c: Conn, payload: seq<byte>, flags: Flags): Conn {
    c.(sent := c.sent + [Segment(c.nxt, c.rcvNxt, flags, payload)])
  }

  predicate AckInWindow(c: Conn, s: Segment) { c.una <= s.ackNum <= c.nxt }

  // ---- handleTCP, after the lookup -------------------------------------------------------

  function Handshake(c: Conn, s: Segment): Conn {
    var d := c.(una := c.iss, nxt := Add32(c.iss, 1), rcvNxt := Add32(s.num, 1), peerSyn := s.num, finSeen := false);
    var e := Emit(d, [], SYN_ACK);
    e.(nxt := Add32(e.nxt, 1), state := SynReceived)
  }

  // States in which an RST deletes the connection; the other case bodies are empty.
  predicate ResetCloses(st: SocketState) { st == CloseWait || st == TimeWait }

  // Payload handling.
  function Deliver(c: Conn, s: Segment): Conn {
    if c.state == Established || c.state == FinWait1 || c.state == FinWait2 then
      var d := c.(delivered := c.delivered + s.payload, rcvNxt := Add32(c.rcvNxt, |s.payload|));
      if |s.payload| > 0 then Emit(d, [], JUST_ACK) else d
    else c
  }

  function Finish(c: Conn, s: Segment): Conn {
    if !s.flags.fin then c
    else
      var d := c.(rcvNxt := s.num, finSeen := true);
      if d.state == SynReceived || d.state == Established then
        var e := Emit(d.(rcvNxt := Add32(d.rcvNxt, 1)), [], FIN_ACK);
        e.(nxt := Add32(e.nxt, 1), state := CloseWait)
      else if d.state == FinWait1 then d.(state := Closing)
      else if d.state == FinWait2 then Emit(d.(rcvNxt := Add32(d.rcvNxt, 1)), [], JUST_ACK).(state := TimeWait)
      else d
  }

  // The steps from the ACK check on, for a segment that carries ACK but not SYN.
  function OnAck(c: Conn, s: Segment): Conn {
    if c.state == SynReceived && !AckInWindow(c, s) then c
    else
      var c1 := if c.state == Closing then c.(state := TimeWait)
                else if c.state == SynReceived then c.(state := Established) else c;
      var c2 := if AckInWindow(c1, s) then c1.(una := s.ackNum) else c1;
      var c3 := if c2.state == FinWait1 then c2.(state := FinWait2)
                else if c2.state == FinWait2 then c2.(state := TimeWait) else c2;
      Finish(Deliver(c3, s), s)
  }

  function Receive(c: Conn, s: Segment): Conn {
    if c.state == Listen && s.flags.syn then Handshake(c, s)
    else if s.flags.rst && c.state == SynReceived then c.(state := Listen)
    else if s.flags.rst && ResetCloses(c.state) then c.(state := Closed)
    else if s.flags.syn || !s.flags.ack then c
    else OnAck(c, s)
  }

  // Whether handling the segment takes the connection out of the table.
  predicate Removes(c: Conn, s: Segment) {
    !(c.state == Listen && s.flags.syn) &&
    ((s.flags.rst && ResetCloses(c.state)) || (!s.flags.syn && s.flags.ack && c.state == CloseWait))
  }

  function WriteData(c: Conn, data: seq<byte>): Conn {
    Emit(c, data, PSH_ACK).(nxt := Add32(c.nxt, |data|))
  }

  function CloseConn(c: Conn): Conn {
    Emit(c, [], FIN_ACK).(nxt := Add32(c.nxt, 1), state := FinWait1)
  }

  // ---- Traces ----------------------------------------------------------------------------

  datatype Event = Arrive(segment: Segment) | SocketWrite(data: seq<byte>) | SocketClose

  function Step(c: Conn, e: Event): Conn {
    match e
    case Arrive(s) => Receive(c, s)
    case SocketWrite(data) => WriteData(c, data)
    case SocketClose => CloseConn(c)
  }

  function Run(c: Conn, es: seq<Event>): Conn {
    if es == [] then c else Step(Run(c, es[..|es| - 1]), es[|es| - 1])
  }

  // A connection begins with a SYN.
  function Opened(iss: uint32, syn: Segment): Conn { Handshake(NewConn(iss), syn) }
}
