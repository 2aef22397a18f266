/** Properties of every trace of a connection. */
module TcpTheorems {
  import opened Words
  import opened TcpModel

  // ---- Outbound sequence space -----------------------------------------------------------

  // Sequence numbers a segment takes up: its payload, and one each for SYN and FIN.
  function Length(s: Segment): nat {
    |s.payload| + (if s.flags.syn then 1 else 0) + (if s.flags.fin then 1 else 0)
  }

  function Span(ss: seq<Segment>): nat {
    if ss == [] then 0 else Span(ss[..|ss| - 1]) + Length(ss[|ss| - 1])
  }

  /** Every segment but a SYN-ACK starts where its predecessor ended, and so will the next one. */
  ghost predicate Gapless(c: Conn) { c.sent != [] && Contiguous(c.sent) && c.nxt == NextAfter(c.sent[|c.sent| - 1]) }

  ghost predicate Contiguous(ss: seq<Segment>) {
    forall i :: 0 < i < |ss| && !ss[i].flags.syn ==> ss[i].num == NextAfter(ss[i - 1])
  }

  function NextAfter(s: Segment): uint32 { Add32(s.num, Length(s)) }

  // Sending from SendNext and advancing SendNext by the segment's length keeps Gapless.
  lemma EmitKeepsGapless(c: Conn, payload: seq<byte>, flags: Flags, d: Conn)
    requires Gapless(c) && !flags.syn
    requires d.sent == c.sent + [Segment(c.nxt, d.rcvNxt, flags, payload)]
    requires d.nxt == Add32(c.nxt, |payload| + if flags.fin then 1 else 0)
    ensures Gapless(d)
  {
  }

  lemma DeliverKeepsGapless(c: Conn, s: Segment)
    requires Gapless(c)
    ensures Gapless(Deliver(c, s))
  {
    var d := Deliver(c, s);
    if d.sent != c.sent { EmitKeepsGapless(c, [], JUST_ACK, d); }
  }

  lemma FinishKeepsGapless(c: Conn, s: Segment)
    requires Gapless(c)
    ensures Gapless(Finish(c, s))
  {
    var d := Finish(c, s);
    if d.sent != c.sent { EmitKeepsGapless(c, [], if d.state == CloseWait then FIN_ACK else JUST_ACK, d); }
  }

  // The connection just before payload handling: only state and SND.UNA differ from c.
  function BeforeDelivery(c: Conn, s: Segment): (d: Conn)
    ensures d == c.(state := d.state, una := d.una)
    ensures !(c.state == SynReceived && !AckInWindow(c, s)) ==> OnAck(c, s) == Finish(Deliver(d, s), s)
  {
    var una := if AckInWindow(c, s) then s.ackNum else c.una;
    var st := match c.state
              case Closing => TimeWait
              case SynReceived => Established
              case FinWait1 => FinWait2
              case FinWait2 => TimeWait
              case _ => c.state;
    c.(state := st, una := una)
  }

  lemma OnAckKeepsGapless(c: Conn, s: Segment)
    requires Gapless(c)
    ensures Gapless(OnAck(c, s))
  {
    if !(c.state == SynReceived && !AckInWindow(c, s)) {
      var d := BeforeDelivery(c, s);
      assert Gapless(d);
      DeliverKeepsGapless(d, s);
      FinishKeepsGapless(Deliver(d, s), s);
    }
  }

  lemma ReceiveKeepsGapless(c: Conn, s: Segment)
    requires Gapless(c)
    ensures Gapless(Receive(c, s))
  {
    if c.state == Listen && s.flags.syn {
      HandshakeStartsGapless(c, s);
    } else {
      OnAckKeepsGapless(c, s);
      var d := Receive(c, s);
      assert d == OnAck(c, s) || (d.sent == c.sent && d.nxt == c.nxt);
    }
  }

  lemma StepKeepsGapless(c: Conn, e: Event)
    requires Gapless(c)
    ensures Gapless(Step(c, e))
  {
    match e
    case Arrive(s) => ReceiveKeepsGapless(c, s);
    case SocketWrite(data) => EmitKeepsGapless(c, data, PSH_ACK, Step(c, e));
    case SocketClose => EmitKeepsGapless(c, [], FIN_ACK, Step(c, e));
  }

  lemma HandshakeStartsGapless(c: Conn, s: Segment)
    requires Contiguous(c.sent)
    ensures Gapless(Handshake(c, s))
  {
  }

  /** Section 3.3 of RFC 793: under any interleaving of segments, writes and closes the outbound sequence
      space has no gaps and no overlaps from one SYN-ACK to the next. */
  lemma {:induction false} OutboundIsGapless(iss: uint32, syn: Segment, es: seq<Event>)
    ensures Gapless(Run(Opened(iss, syn), es))
  {
    if es == [] {
      HandshakeStartsGapless(NewConn(iss), syn);
    } else {
      OutboundIsGapless(iss, syn, es[..|es| - 1]);
      StepKeepsGapless(Run(Opened(iss, syn), es[..|es| - 1]), es[|es| - 1]);
    }
  }

  /** Between handshakes a segment's number is the earlier one's plus everything sent in between. */
  lemma {:induction false} NumbersAddUp(c: Conn, i: nat, j: nat)
    requires Gapless(c) && i <= j < |c.sent|
    requires forall k :: i < k <= j ==> !c.sent[k].flags.syn
    ensures c.sent[j].num == Add32(c.sent[i].num, Span(c.sent[i..j]))
  {
    if i == j {
      assert c.sent[i..j] == [];
    } else {
      NumbersAddUp(c, i, j - 1);
      assert c.sent[i..j][..j - i - 1] == c.sent[i..j - 1];
      AddAdd(c.sent[i].num, Span(c.sent[i..j - 1]), Length(c.sent[j - 1]));
    }
  }

  lemma {:induction false} SpanSplits(ss: seq<Segment>, j: nat)
    requires j <= |ss|
    ensures Span(ss) == Span(ss[..j]) + Span(ss[j..])
  {
    if j == |ss| {
      assert ss[..j] == ss && ss[j..] == [];
    } else {
      SpanSplits(ss[..|ss| - 1], j);
      assert ss[..|ss| - 1][..j] == ss[..j] && ss[..|ss| - 1][j..] == ss[j..][..|ss| - 1 - j];
    }
  }

  /** Two places in different segments after one handshake have different numbers, as long as what was sent
      from the first segment on fits the number space. */
  lemma NumbersDoNotOverlap(c: Conn, j: nat, k: nat, a: nat, b: nat)
    requires Gapless(c) && j < k < |c.sent| && a < Length(c.sent[j]) && b < Length(c.sent[k])
    requires forall i :: j < i <= k ==> !c.sent[i].flags.syn
    requires Span(c.sent[j..k + 1]) <= TWO_32
    ensures Add32(c.sent[j].num, a) != Add32(c.sent[k].num, b)
  {
    NumbersAddUp(c, j, k);
    SpanOfFirst(c.sent, j, k);
    AddAdd(c.sent[j].num, Span(c.sent[j..k]), b);
    OffsetsDiffer(c.sent[j].num, a, Span(c.sent[j..k]) + b);
  }

  lemma SpanOfFirst(ss: seq<Segment>, j: nat, k: nat)
    requires j < k < |ss|
    ensures Span(ss[j..k]) >= Length(ss[j])
    ensures Span(ss[j..k + 1]) == Span(ss[j..k]) + Length(ss[k])
  {
    assert ss[j..k + 1][..k - j] == ss[j..k];
    SpanSplits(ss[j..k], 1);
    assert ss[j..k][..1] == [ss[j]] && [ss[j]][..0] == [];
    assert Span([ss[j]]) == Length(ss[j]);
  }

  lemma OffsetsDiffer(num: uint32, a: nat, b: nat)
    requires a < b < TWO_32
    ensures Add32(num, a) != Add32(num, b)
  {
  }

  // ---- Becoming established --------------------------------------------------------------

  /** A connection becomes established exactly on an ACK inside [SND.UNA, SND.NXT] in SYN-RECEIVED; when that
      segment carries FIN as well it goes straight on to CLOSE-WAIT. */
  lemma EstablishedExactly(c: Conn, e: Event)
    requires c.state != Established
    ensures var d := Step(c, e);
      var accepted := e.Arrive? && c.state == SynReceived && e.segment.flags.ack && !e.segment.flags.syn
                      && !e.segment.flags.rst && c.una <= e.segment.ackNum <= c.nxt;
      && (d.state == Established <==> accepted && !e.segment.flags.fin)
      && (c.state == SynReceived ==> (d.state == CloseWait <==> accepted && e.segment.flags.fin))
  {
  }

  // What the network can do to a connection before a service has its socket.
  ghost predicate ArrivalsOnly(es: seq<Event>) { forall i :: 0 <= i < |es| ==> es[i].Arrive? }

  // An opened connection that has accepted no acknowledgment, numbered so that none is acceptable.
  ghost predicate Unreachable(c: Conn) {
    c.state in {Listen, SynReceived} && c.una == c.iss && c.nxt == Add32(c.iss, 2) && c.iss + 2 >= TWO_32
  }

  lemma StaysUnreachable(c: Conn, s: Segment)
    requires Unreachable(c)
    ensures Unreachable(Receive(c, s))
  {
  }

  lemma {:induction false} NeverEstablished(iss: uint32, syn: Segment, es: seq<Event>)
    requires iss + 2 >= TWO_32 && ArrivalsOnly(es)
    ensures Unreachable(Run(Opened(iss, syn), es))
  {
    if es != [] {
      var most, e := es[..|es| - 1], es[|es| - 1];
      NeverEstablished(iss, syn, most);
      StaysUnreachable(Run(Opened(iss, syn), most), e.segment);
    }
  }

  /** The comparison ignores wrap-around, so whatever the network sends, resets and new handshakes included, a
      connection whose initial number is one of the last two is never established; all others can be. */
  lemma CanEstablishExactly(iss: uint32, syn: Segment)
    ensures (exists es :: ArrivalsOnly(es) && Run(Opened(iss, syn), es).state == Established) <==> iss + 2 < TWO_32
  {
    if iss + 2 < TWO_32 {
      var es := [Arrive(Segment(0, iss, JUST_ACK, []))];
      assert Run(Opened(iss, syn), es[..0]) == Opened(iss, syn);
      assert ArrivalsOnly(es) && Run(Opened(iss, syn), es).state == Established;
    } else {
      forall es | ArrivalsOnly(es) ensures Run(Opened(iss, syn), es).state != Established {
        NeverEstablished(iss, syn, es);
      }
    }
  }

  // ---- SND.UNA ---------------------------------------------------------------------------

  predicate IsHandshake(c: Conn, e: Event) { e.Arrive? && c.state == Listen && e.segment.flags.syn }

  /** SND.UNA moves only to an acknowledged number inside the window, or back to ISS on a new handshake;
      wrap-around never makes it decrease. */
  lemma UnaStep(c: Conn, e: Event)
    ensures var d := Step(c, e);
      if IsHandshake(c, e) then d.una == c.iss
      else c.una <= d.una && (d.una != c.una ==> e.Arrive? && d.una == e.segment.ackNum <= c.nxt)
  {
  }

  // SendNext did not wrap in this step.
  predicate NoWrap(c: Conn, e: Event) {
    if IsHandshake(c, e) then c.iss + 2 < TWO_32 else c.nxt <= Step(c, e).nxt
  }

  ghost predicate NoWrapRun(c: Conn, es: seq<Event>) {
    es == [] || (NoWrapRun(c, es[..|es| - 1]) && NoWrap(Run(c, es[..|es| - 1]), es[|es| - 1]))
  }

  lemma StepKeepsUna(c: Conn, e: Event)
    ensures c.una <= c.nxt && NoWrap(c, e) ==> Step(c, e).una <= Step(c, e).nxt
  {
    UnaStep(c, e);
  }

  /** Absent wrap-around SND.UNA never passes SND.NXT... */
  lemma {:induction false} UnaStaysBehindNext(c: Conn, es: seq<Event>)
    requires c.una <= c.nxt && NoWrapRun(c, es)
    ensures Run(c, es).una <= Run(c, es).nxt
  {
    if es != [] {
      UnaStaysBehindNext(c, es[..|es| - 1]);
      StepKeepsUna(Run(c, es[..|es| - 1]), es[|es| - 1]);
    }
  }

  // A handshake on a connection that has accepted an acknowledgment beyond its initial number.
  predicate Reopens(c: Conn, e: Event) { IsHandshake(c, e) && c.iss < c.una }

  /** ...and, wrap or not, one event takes it back exactly when it is a handshake after an acknowledgment was
      accepted beyond ISS. */
  lemma UnaGoesBackExactly(c: Conn, e: Event)
    ensures Step(c, e).una < c.una <==> Reopens(c, e)
  {
    UnaStep(c, e);
  }

  // No event of the trace takes SND.UNA back.
  ghost predicate UnaMonotone(c: Conn, es: seq<Event>) {
    es == [] || (UnaMonotone(c, es[..|es| - 1]) && Run(c, es[..|es| - 1]).una <= Run(c, es).una)
  }

  ghost predicate NeverReopened(c: Conn, es: seq<Event>) {
    es == [] || (NeverReopened(c, es[..|es| - 1]) && !Reopens(Run(c, es[..|es| - 1]), es[|es| - 1]))
  }

  /** Over every trace: SND.UNA never decreases exactly when no event of it is such a handshake. */
  lemma {:induction false} UnaNeverDecreases(c: Conn, es: seq<Event>)
    ensures UnaMonotone(c, es) <==> NeverReopened(c, es)
    ensures UnaMonotone(c, es) ==> c.una <= Run(c, es).una
  {
    if es != [] {
      UnaNeverDecreases(c, es[..|es| - 1]);
      UnaGoesBackExactly(Run(c, es[..|es| - 1]), es[|es| - 1]);
    }
  }

  /** SND.UNA does go back when a reset connection in LISTEN acknowledges and is then opened again. */
  lemma UnaGoesBackOnReopening()
    ensures var c := Opened(5, Segment(9, 0, Flags(true, false, false, false, false), []));
      var reset := Receive(c, Segment(10, 0, Flags(false, false, true, false, false), []));
      var acked := Receive(reset, Segment(10, 7, JUST_ACK, []));
      var again := Receive(acked, Segment(20, 0, SYN_ACK, []));
      reset.state == Listen && acked.una == 7 && again.una == 5 && again.state == SynReceived
  {
  }

  // ---- RCV.NXT ---------------------------------------------------------------------------

  /** Until a FIN is processed RCV.NXT counts the bytes handed to the socket, starting after the peer's SYN. */
  ghost predicate Counted(c: Conn) {
    && (!c.finSeen ==> c.rcvNxt == Add32(c.peerSyn, 1 + |c.delivered|))
    && (c.state in {Listen, SynReceived} ==> c.delivered == [])
    && c.state !in {SynSent, Closing, LastAck}
  }

  lemma DeliveryKeepsCounted(c: Conn, s: Segment)
    requires Counted(c) && c.state !in {Listen, SynReceived, FinWait1}
    ensures Counted(Finish(Deliver(c, s), s))
  {
    AddAdd(c.peerSyn, 1 + |c.delivered|, |s.payload|);
  }

  lemma StepKeepsCounted(c: Conn, e: Event)
    requires Counted(c)
    ensures Counted(Step(c, e))
  {
    if e.Arrive? && Receive(c, e.segment) == OnAck(c, e.segment) {
      var s := e.segment;
      if c.state == SynReceived && !AckInWindow(c, s) { return; }
      if c.state == Listen { return; }
      DeliveryKeepsCounted(BeforeDelivery(c, s), s);
    }
  }

  /** The RCV.NXT count holds on every trace; and three of the eleven socket states are never entered. */
  lemma {:induction false} ReceivedBytesAreCounted(iss: uint32, syn: Segment, es: seq<Event>)
    ensures Counted(Run(Opened(iss, syn), es))
  {
    if es != [] {
      ReceivedBytesAreCounted(iss, syn, es[..|es| - 1]);
      StepKeepsCounted(Run(Opened(iss, syn), es[..|es| - 1]), es[|es| - 1]);
    }
  }

  // ---- Data ------------------------------------------------------------------------------

  lemma DataInState(c: Conn, s: Segment)
    requires s.flags.ack && !s.flags.syn && !s.flags.fin
    ensures var d := Receive(c, s);
      if TakesSegment(c, s) then
        && d.delivered == c.delivered + s.payload && d.peerSyn == c.peerSyn && d.finSeen == c.finSeen
        && d.rcvNxt == Add32(c.rcvNxt, |s.payload|)
        && d.sent == c.sent + if s.payload == [] then []
                              else [Segment(c.nxt, d.rcvNxt, Flags(false, true, false, false, false), [])]
      else d.delivered == c.delivered && d.sent == c.sent
  {
  }

  // The data is delivered, and acknowledged by one segment with nothing else when there was any.
  ghost predicate DataTaken(c: Conn, payload: seq<byte>, d: Conn) {
    && d.delivered == c.delivered + payload
    && (payload == [] ==> d.sent == c.sent)
    && (payload != [] ==>
          && |d.sent| == |c.sent| + 1 && d.sent[..|c.sent|] == c.sent
          && var reply := d.sent[|c.sent|];
             && reply.num == c.nxt && reply.flags == Flags(false, true, false, false, false) && reply.payload == []
             && (!c.finSeen ==> reply.ackNum == Add32(c.peerSyn, 1 + |d.delivered|)))
  }

  lemma DataTakenInState(c: Conn, s: Segment)
    requires Counted(c) && s.flags.ack && !s.flags.syn && !s.flags.fin && TakesSegment(c, s)
    ensures DataTaken(c, s.payload, Receive(c, s))
  {
    DataInState(c, s);
    AddAdd(c.peerSyn, 1 + |c.delivered|, |s.payload|);
  }

  /** On every trace, in every state: a segment with ACK and neither SYN nor FIN has its data delivered exactly in
      the states that take data, and there a single segment with nothing but an ACK covers all data so far when
      it carried any; otherwise nothing is delivered or sent. */
  lemma DataAcknowledgedExactly(iss: uint32, syn: Segment, es: seq<Event>, s: Segment)
    requires s.flags.ack && !s.flags.syn && !s.flags.fin
    ensures var c := Run(Opened(iss, syn), es); var d := Receive(c, s);
      if TakesSegment(c, s) then DataTaken(c, s.payload, d) else d.delivered == c.delivered && d.sent == c.sent
  {
    var c := Run(Opened(iss, syn), es);
    if TakesSegment(c, s) {
      ReceivedBytesAreCounted(iss, syn, es);
      DataTakenInState(c, s);
    } else {
      DataInState(c, s);
    }
  }

  // The data of the segments, in order.
  function Payloads(ss: seq<Segment>): seq<byte> {
    if ss == [] then [] else Payloads(ss[..|ss| - 1]) + ss[|ss| - 1].payload
  }

  // What the service wrote, in order.
  function Written(es: seq<Event>): seq<byte> {
    if es == [] then []
    else Written(es[..|es| - 1]) + if es[|es| - 1].SocketWrite? then es[|es| - 1].data else []
  }

  lemma PayloadsGrow(ss: seq<Segment>, s: Segment)
    ensures Payloads(ss + [s]) == Payloads(ss) + s.payload
  {
    assert (ss + [s])[..|ss|] == ss;
  }

  // One segment without data was sent, or none.
  ghost predicate SendsNoData(c: Conn, d: Conn) {
    d.sent == c.sent || exists s :: d.sent == c.sent + [s] && s.payload == []
  }

  lemma NoDataNoPayload(c: Conn, d: Conn)
    requires SendsNoData(c, d)
    ensures Payloads(d.sent) == Payloads(c.sent)
  {
    if d.sent != c.sent {
      var s :| d.sent == c.sent + [s] && s.payload == [];
      PayloadsGrow(c.sent, s);
    }
  }

  lemma DeliverSendsNoData(c: Conn, s: Segment)
    ensures Payloads(Deliver(c, s).sent) == Payloads(c.sent)
  {
    NoDataNoPayload(c, Deliver(c, s));
  }

  lemma FinishSendsNoData(c: Conn, s: Segment)
    ensures Payloads(Finish(c, s).sent) == Payloads(c.sent)
  {
    NoDataNoPayload(c, Finish(c, s));
  }

  lemma OnAckSendsNoData(c: Conn, s: Segment)
    ensures Payloads(OnAck(c, s).sent) == Payloads(c.sent)
  {
    if !(c.state == SynReceived && !AckInWindow(c, s)) {
      var d := BeforeDelivery(c, s);
      DeliverSendsNoData(d, s);
      FinishSendsNoData(Deliver(d, s), s);
    }
  }

  lemma ReceiveSendsNoData(c: Conn, s: Segment)
    ensures Payloads(Receive(c, s).sent) == Payloads(c.sent)
  {
    if c.state == Listen && s.flags.syn {
      NoDataNoPayload(c, Handshake(c, s));
    } else {
      OnAckSendsNoData(c, s);
      var d := Receive(c, s);
      assert d == OnAck(c, s) || d.sent == c.sent;
    }
  }

  /** Under any interleaving, the data sent is the data written, in order. */
  lemma {:induction false} SentIsWritten(iss: uint32, syn: Segment, es: seq<Event>)
    ensures Payloads(Run(Opened(iss, syn), es).sent) == Written(es)
  {
    if es == [] {
      assert Payloads(NewConn(iss).sent) == [];
      NoDataNoPayload(NewConn(iss), Opened(iss, syn));
    } else {
      var c, e := Run(Opened(iss, syn), es[..|es| - 1]), es[|es| - 1];
      SentIsWritten(iss, syn, es[..|es| - 1]);
      match e
      case Arrive(s) => ReceiveSendsNoData(c, s);
      case SocketWrite(data) => PayloadsGrow(c.sent, WriteData(c, data).sent[|c.sent|]);
      case SocketClose => NoDataNoPayload(c, CloseConn(c));
    }
  }

  /** A SYN in LISTEN is answered with a SYN-ACK numbered ISS+1, acknowledging the SYN. */
  lemma SynIsAnswered(c: Conn, s: Segment)
    requires c.state == Listen && s.flags.syn
    ensures var d := Receive(c, s);
      && d.state == SynReceived && d.una == c.iss && d.nxt == (c.iss + 2) % TWO_32
      && d.sent == c.sent
        + [Segment((c.iss + 1) % TWO_32, (s.num + 1) % TWO_32, Flags(true, true, false, false, false), [])]
  {
  }

  /** A connection is taken out of the table exactly by an RST or an acknowledgment in CLOSE-WAIT or an RST in
      TIME-WAIT; in CLOSE-WAIT the peer's FIN was processed. */
  lemma RemovedExactly(iss: uint32, syn: Segment, es: seq<Event>, s: Segment)
    ensures var c := Run(Opened(iss, syn), es);
      && (Removes(c, s) <==>
            || (c.state == CloseWait && (s.flags.rst || (s.flags.ack && !s.flags.syn)))
            || (c.state == TimeWait && s.flags.rst))
      && (c.state == CloseWait ==> c.finSeen)
  {
    CloseWaitAfterFin(iss, syn, es);
  }

  lemma {:induction false} CloseWaitAfterFin(iss: uint32, syn: Segment, es: seq<Event>)
    ensures Run(Opened(iss, syn), es).state == CloseWait ==> Run(Opened(iss, syn), es).finSeen
  {
    if es != [] {
      CloseWaitAfterFin(iss, syn, es[..|es| - 1]);
      StepToCloseWait(Run(Opened(iss, syn), es[..|es| - 1]), es[|es| - 1]);
    }
  }

  lemma StepToCloseWait(c: Conn, e: Event)
    requires c.state == CloseWait ==> c.finSeen
    ensures Step(c, e).state == CloseWait ==> Step(c, e).finSeen
  {
  }

  // ---- A FIN -----------------------------------------------------------------------------

  // The segment is handled as a FIN: its data is handed over, and the last reply covers all of it and the FIN.
  ghost predicate FinCovered(c: Conn, s: Segment) {
    var d := Receive(c, s);
    && d.finSeen && d.delivered == c.delivered + s.payload
    && |d.sent| > |c.sent|
    && d.sent[|d.sent| - 1].ackNum == Add32(c.peerSyn, 1 + |c.delivered| + |s.payload| + 1)
  }

  // The states that take data and answer a FIN; FIN-WAIT-2 is not one, since any acknowledgment takes it to
  // TIME-WAIT first.
  predicate TakesSegment(c: Conn, s: Segment) {
    s.flags.ack && !s.flags.syn &&
    match c.state
    case Established => true
    case FinWait1 => true
    case SynReceived => !s.flags.rst && c.una <= s.ackNum <= c.nxt
    case _ => false
  }

  lemma FinReply(c: Conn, s: Segment)
    requires c.state == Established || c.state == FinWait2
    requires s.flags.fin
    ensures var d := Finish(Deliver(c, s), s);
      && d.finSeen && d.delivered == c.delivered + s.payload && |d.sent| > |c.sent|
      && d.sent[|d.sent| - 1].ackNum == Add32(s.num, 1)
      && d.sent[|d.sent| - 1].flags == Flags(false, true, false, c.state == Established, false)
      && d.state == if c.state == Established then CloseWait else TimeWait
  {
  }

  lemma FinUnanswered(c: Conn, s: Segment)
    requires s.flags.fin && !TakesSegment(c, s) && Counted(c) && !c.finSeen
    ensures Receive(c, s).finSeen ==> Receive(c, s).sent == c.sent
  {
  }

  lemma FinAnswered(c: Conn, s: Segment)
    requires s.flags.fin && TakesSegment(c, s)
    ensures var d := Receive(c, s);
      && d.finSeen && d.delivered == c.delivered + s.payload && |d.sent| > |c.sent|
      && d.sent[|d.sent| - 1].ackNum == Add32(s.num, 1)
      && d.sent[|d.sent| - 1].flags == Flags(false, true, false, c.state != FinWait1, false)
      && d.state == if c.state == FinWait1 then TimeWait else CloseWait
  {
    var d := BeforeDelivery(c, s);
    assert Receive(c, s) == Finish(Deliver(d, s), s);
    FinReply(d, s);
  }

  /** On every trace, in every state: the first in-order FIN is acknowledged correctly, covering all data handed
      over and the FIN itself, exactly when it carries no data (RCV.NXT is set back to the segment's own number)
      and the state is one that answers a FIN. */
  lemma FinAcknowledgedExactly(iss: uint32, syn: Segment, es: seq<Event>, s: Segment)
    requires var c := Run(Opened(iss, syn), es); !c.finSeen && s.num == c.rcvNxt
    requires s.flags.fin && |s.payload| < TWO_32
    ensures var c := Run(Opened(iss, syn), es); FinCovered(c, s) <==> s.payload == [] && TakesSegment(c, s)
    ensures var c := Run(Opened(iss, syn), es); var d := Receive(c, s);
      FinCovered(c, s) ==>
        && d.sent[|d.sent| - 1].flags == Flags(false, true, false, c.state != FinWait1, false)
        && d.state == if c.state == FinWait1 then TimeWait else CloseWait
  {
    var c := Run(Opened(iss, syn), es);
    ReceivedBytesAreCounted(iss, syn, es);
    FinAcknowledgedInState(c, s);
    if TakesSegment(c, s) { FinAnswered(c, s); }
  }

  lemma FinNumber(peerSyn: uint32, before: nat, n: nat)
    requires n < TWO_32
    ensures Add32(Add32(peerSyn, before), 1) == Add32(peerSyn, before + n + 1) <==> n == 0
  {
    var start := Add32(peerSyn, before);
    AddAdd(peerSyn, before, n + 1);
    assert Add32(start, n + 1) == Add32(start, 1) <==> n == 0;
  }

  lemma FinAcknowledgedInState(c: Conn, s: Segment)
    requires Counted(c) && !c.finSeen && s.num == c.rcvNxt && s.flags.fin && |s.payload| < TWO_32
    ensures FinCovered(c, s) <==> s.payload == [] && TakesSegment(c, s)
  {
    if TakesSegment(c, s) {
      FinAnswered(c, s);
      FinNumber(c.peerSyn, 1 + |c.delivered|, |s.payload|);
    } else {
      FinUnanswered(c, s);
    }
  }

  // Established, closed by the service, and its FIN acknowledged.
  const HALF_CLOSED: seq<Event> :=
    [Arrive(Segment(10, 7, JUST_ACK, [])), SocketClose, Arrive(Segment(10, 8, JUST_ACK, []))]

  lemma RunOfThree(c: Conn, es: seq<Event>)
    requires |es| == 3
    ensures Run(c, es) == Step(Step(Step(c, es[0]), es[1]), es[2])
  {
    var two := es[..2];
    var one := two[..1];
    assert one[..0] == [] && Run(c, one) == Step(c, es[0]);
    assert Run(c, two) == Step(Run(c, one), es[1]);
  }

  const SYN: Segment := Segment(9, 0, Flags(true, false, false, false, false), [])

  lemma HalfClosed(es: seq<Event>)
    requires |es| == 3 && es[0] == Arrive(Segment(10, 7, JUST_ACK, [])) && es[1] == SocketClose
    requires es[2] == Arrive(Segment(10, 8, JUST_ACK, []))
    ensures var c := Run(Opened(5, SYN), es); c.state == FinWait2 && !c.finSeen && c.rcvNxt == 10
  {
    var c := Opened(5, SYN);
    RunOfThree(c, es);
    FirstAck(c, es[0].segment);
    CloseAndAck(Receive(c, es[0].segment), es[2].segment);
  }

  lemma FirstAck(c: Conn, s: Segment)
    requires c.state == SynReceived && AckInWindow(c, s) && s.flags == JUST_ACK && s.payload == []
    ensures var d := Receive(c, s); d.state == Established && d.finSeen == c.finSeen && d.rcvNxt == c.rcvNxt
  {
  }

  lemma CloseAndAck(c: Conn, s: Segment)
    requires c.state == Established && s.flags == JUST_ACK && s.payload == []
    ensures var d := Receive(CloseConn(c), s); d.state == FinWait2 && d.finSeen == c.finSeen && d.rcvNxt == c.rcvNxt
  {
  }

  /** An ordinary trace to FIN-WAIT-2, where the peer's FIN gets no reply and its last data is dropped. */
  lemma FinLostInFinWait2(payload: seq<byte>)
    ensures var c := Run(Opened(5, SYN), HALF_CLOSED);
      var d := Receive(c, Segment(10, 8, FIN_ACK, payload));
      && c.state == FinWait2 && !c.finSeen && c.rcvNxt == 10
      && d.state == TimeWait && d.finSeen && d.sent == c.sent && d.delivered == c.delivered
  {
    HalfClosed(HALF_CLOSED);
    FinIgnored(Run(Opened(5, SYN), HALF_CLOSED), Segment(10, 8, FIN_ACK, payload));
  }

  lemma FinIgnored(c: Conn, s: Segment)
    requires c.state == FinWait2 && s.flags.fin && s.flags.ack && !s.flags.syn
    ensures var d := Receive(c, s); d.state == TimeWait && d.finSeen && d.sent == c.sent && d.delivered == c.delivered
  {
  }
}
