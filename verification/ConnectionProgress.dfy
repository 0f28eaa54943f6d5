/** A connection only moves forward through the official states, and the side that ends last
    does not linger. */
module ConnectionProgress {
  import opened ByteStreams
  import ReassemblyRuns
  import opened TcpSegments
  import Rx = TcpReceivers
  import opened TcpSenders
  import opened SenderProofs
  import opened TcpConnections
  import opened TcpStates
  import opened ConnectionProofs
  import opened ConnectionRuns
  import ConnectionAcks

  /** The order in which a side that is not reset goes through its summaries. */
  function SenderRank(s: SenderSummary): nat {
    match s
    case Closed => 0
    case SynSent => 1
    case SynAcked => 2
    case FinSent => 3
    case FinAcked => 4
    case SenderError => 5
  }

  function ReceiverRank(r: ReceiverSummary): nat {
    match r
    case Listen => 0
    case SynRecv => 1
    case FinRecv => 2
    case ReceiverError => 3
  }

  lemma SenderGoesForward(s: Sender, s': Sender)
    requires Counted(s) && Counted(s') && s.bif <= s.next && s'.bif <= s'.next && Moves(s, s')
    ensures SenderRank(SummaryOfSender(s)) <= SenderRank(SummaryOfSender(s'))
  {
    if !s'.stream.error {
      SenderRankIs(s);
      SenderRankIs(s');
    }
  }

  /** The summary counts how much of SYN and FIN was sent and acknowledged. */
  lemma SenderRankIs(s: Sender)
    requires Counted(s) && s.bif <= s.next && !s.stream.error
    ensures SenderRank(SummaryOfSender(s)) ==
              if s.next == 0 then 0 else if AckedUpTo(s) == 0 then 1
              else if !FinWasSent(s) then 2 else if s.bif != 0 then 3 else 4
  {
  }

  predicate FinWasSent(s: Sender)
    requires s.Valid()
  {
    s.stream.Eof() && s.next == |s.stream.log| + 2
  }

  lemma ReceiverGoesForward(r: Rx.Receiver, r': Rx.Receiver)
    requires r.synReceived ==> r'.synReceived
    requires (r.Out().error ==> r'.Out().error) && (r.Out().ended ==> r'.Out().ended)
    ensures ReceiverRank(SummaryOfReceiver(r)) <= ReceiverRank(SummaryOfReceiver(r'))
  {
  }

  /** No event switches lingering on again, or revives an inactive connection. */
  lemma EventOnlySwitchesOff(c: Connection, e: Event)
    requires c.Valid()
    ensures After(c, e).linger ==> c.linger
    ensures After(c, e).active ==> c.active
  {
    match e
    case Arrive(seg) =>
      if c.active && !seg.header.rst { HandleOnlySwitchesOff(c.(sinceReceived := 0), seg); }
    case WriteBytes(_) =>
    case Pass(_) =>
    case Finish =>
    case Open =>
    case ReadBytes(_) =>
  }

  lemma AnswerOnlySwitchesOff(c: Connection, c': Connection)
    requires c.Valid() && Answers(c, c')
    ensures (c'.linger ==> c.linger) && (c'.active ==> c.active)
  {
    SendDataOnlySwitchesOff(c);
    SendDataOnlySwitchesOff(QueueEmpty(c));
    SendDataOnlySwitchesOff(Fill(c));
    SendDataOnlySwitchesOff(Fill(QueueEmpty(c)));
  }

  lemma SendDataOnlySwitchesOff(c: Connection)
    requires c.Valid()
    ensures (SendData(c).linger ==> c.linger) && (SendData(c).active ==> c.active)
  {
  }

  lemma HandleOnlySwitchesOff(c: Connection, seg: TcpSegment)
    requires c.Valid() && c.active && !seg.header.rst
    ensures Handle(c, seg).linger ==> c.linger
    ensures Handle(c, seg).active ==> c.active
  {
    if UsesAck(c, seg) {
      AckedAnswers(c, seg);
      AnswerOnlySwitchesOff(TakeBoth(c, seg), Handle(c, seg));
    } else {
      UnackedAnswers(c, seg);
      if Handle(c, seg) != c {
        AnswerOnlySwitchesOff(TakeSegment(c, seg), Handle(c, seg));
      }
    }
  }

  /** How far a connection has come. */
  ghost predicate Forward(c: Connection, c': Connection)
    requires c.Valid() && c'.Valid()
  {
    && SenderRank(SummaryOfSender(c.sender)) <= SenderRank(SummaryOfSender(c'.sender))
    && ReceiverRank(SummaryOfReceiver(c.receiver)) <= ReceiverRank(SummaryOfReceiver(c'.receiver))
    && (c'.linger ==> c.linger) && (c'.active ==> c.active)
  }

  lemma EventGoesForward(c: Connection, e: Event)
    requires ConnectionProofs.Inv(c) && Allowed(c, e)
    ensures Forward(c, After(c, e))
  {
    var c' := After(c, e);
    EventKeepsInv(c, e);
    EventMoves(c, e);
    NothingInFlightIff(c.sender);
    NothingInFlightIff(c'.sender);
    SenderGoesForward(c.sender, c'.sender);
    ConnectionAcks.EventIsLater(c, e);
    ReceiverGoesForward(c.receiver, c'.receiver);
    EventOnlySwitchesOff(c, e);
  }

  /** Over any run both halves only move forward through their summaries, lingering is never
      switched on again, and an inactive connection stays inactive: no official state is ever
      left and come back to. */
  lemma {:induction false} StatesGoForward(g: Config, es: seq<Event>, hs: seq<ConnectionHistory>, i: nat, j: nat)
    requires IsRun(g, es, hs) && i <= j <= |es|
    ensures Forward(hs[i].c, hs[j].c)
    decreases j - i
  {
    if i < j {
      StatesGoForward(g, es, hs, i, j - 1);
      RunKeepsInv(g, es, hs, j - 1);
      assert StepAt(es, hs, j - 1);
      EventGoesForward(hs[j - 1].c, es[j - 1]);
    }
  }

  // ----- passive close -----

  lemma EstablishedSends(c: Connection, seg: TcpSegment)
    requires c.Valid() && Dispatch(c) == InEstablished
    ensures var c' := Handle(c, seg);
            && c'.receiver == Rx.SegmentReceived(c.receiver, seg)
            && (c'.InboundEnded() && !c'.Eof() ==> !c'.linger && c'.active == c.active)
  {
  }

  /** A state with the inbound stream over, the SYN acknowledged and the own stream open. */
  lemma HalfClosedIsCloseWait(c: Connection)
    requires ConnectionProofs.Inv(c) && c.active && !c.linger
    requires c.InboundEnded() && !c.Eof() && AckedUpTo(c.sender) > 0
    ensures StateOf(c) == Official(CLOSE_WAIT)
  {
    NothingInFlightIff(c.sender);
  }

  lemma EstablishedKeepsEnd(c: Connection, seg: TcpSegment)
    requires ConnectionProofs.Inv(c) && c.active && LegalSegment(c, seg) && !seg.header.rst
    requires Dispatch(c) == InEstablished
    ensures Handle(c, seg).sender.stream.ended == c.sender.stream.ended
  {
    var c1 := TakeBoth(c, seg);
    SynKnown(c);
    TakeBothKeeps(c, seg);
    QueueEmptyKeeps(c1);
    var acked := AckKeepsTiling(c.sender, seg.header.ackno, seg.header.win);
    var c2 := if seg.LengthInSequenceSpace() > 0 then QueueEmpty(c1) else c1;
    var news := FillSends(c2.sender);
  }

  /** The stream index just past the segment's payload, as the receiver reads it. */
  function EndOf(r: Rx.Receiver, seg: TcpSegment): int { Rx.StreamIndex(r, seg) - 1 + |seg.payload| }

  /** A FIN segment that starts at or before the ackno and reaches past it, with any room left,
      ends the stream exactly when its end fits. */
  lemma FinEndsStreamIff(r: Rx.Receiver, seg: TcpSegment)
    requires Rx.Inv(r) && Rx.Short(r) && r.synReceived && !r.Out().ended && r.WindowSize() > 0
    requires seg.header.fin && !seg.header.syn
    requires 0 < Rx.StreamIndex(r, seg) <= r.AbsAckno() <= EndOf(r, seg) + 1
    ensures Rx.SegmentReceived(r, seg).Out().ended <==> ReassemblyRuns.EndFits(r.reassembler, EndOf(r, seg))
  {
    Rx.RecomputedAckno(r);
    Rx.IndexOfPayload(r, seg, Rx.StreamIndex(r, seg));
    assert Rx.Wanted(r, seg);
    ReassemblyRuns.EndReachedIff(r.reassembler, seg.payload, Rx.StreamIndex(r, seg) - 1);
  }

  lemma OpenIsNotCloseWait(c: Connection)
    requires c.Valid() && !c.InboundEnded()
    ensures StateOf(c) != Official(CLOSE_WAIT)
  {
  }

  /** The peer's FIN, arriving in ESTABLISHED in a segment that starts at or before the ackno
      and reaches past it, with any room left and the own stream open, leads to CLOSE-WAIT
      exactly when the end of the peer's stream fits what the receiver has and can hold. */
  lemma FinLeadsToCloseWait(c: Connection, seg: TcpSegment)
    requires ConnectionProofs.Inv(c) && c.active && LegalSegment(c, seg) && !seg.header.rst
    requires Dispatch(c) == InEstablished && !c.sender.stream.ended
    requires Rx.Short(c.receiver) && c.receiver.synReceived && !c.receiver.Out().ended && c.receiver.WindowSize() > 0
    requires seg.header.fin && !seg.header.syn
    requires 0 < Rx.StreamIndex(c.receiver, seg) <= c.receiver.AbsAckno() <= EndOf(c.receiver, seg) + 1
    ensures StateOf(SegmentReceived(c, seg)) == Official(CLOSE_WAIT) <==>
              ReassemblyRuns.EndFits(c.receiver.reassembler, EndOf(c.receiver, seg))
  {
    var c1, c' := c.(sinceReceived := 0), SegmentReceived(c, seg);
    RestartedClock(c, seg);
    SegmentKeepsInv(c, seg);
    ArrivalMoves(c, seg);
    FinEndsStreamIff(c.receiver, seg);
    EstablishedSends(c1, seg);
    EstablishedKeepsEnd(c1, seg);
    NothingInFlightIff(c.sender);
    if c'.InboundEnded() {
      HalfClosedIsCloseWait(c');
    } else {
      OpenIsNotCloseWait(c');
    }
  }

  /** A connection that was in CLOSE-WAIT never waits in TIME-WAIT: it is inactive as soon as
      its own stream is over and all of it acknowledged. */
  lemma PassiveCloseDoesNotLinger(g: Config, es: seq<Event>, hs: seq<ConnectionHistory>, i: nat, j: nat)
    requires IsRun(g, es, hs) && i <= j <= |es| && StateOf(hs[i].c) == Official(CLOSE_WAIT)
    ensures var c := hs[j].c;
            && StateOf(c) != Official(TIME_WAIT)
            && (c.Eof() && c.sender.bif == 0 ==> !c.active)
  {
    StatesGoForward(g, es, hs, i, j);
    RunKeepsInv(g, es, hs, j);
  }
}
