/** The connection state diagram of section 3.2 of RFC 793, arrow by arrow: what the official
    names mean, and which event leads from which state to which. */
module ConnectionDiagrams {
  import opened Numbers
  import opened WrappingIntegers
  import opened ByteStreams
  import opened TcpSegments
  import Rx = TcpReceivers
  import opened TcpSenders
  import opened SenderProofs
  import opened SenderWindows
  import opened TcpConnections
  import opened TcpStates
  import opened ConnectionProofs
  import opened ConnectionRuns
  import opened ConnectionReplies

  // ----- what the names mean -----

  /** The number of the own FIN, once it was given out, is the last one. */
  predicate OwnFinSent(c: Connection) {
    c.sender.stream.ended && c.sender.next == |c.sender.stream.log| + 2
  }

  predicate SynIsAcked(c: Connection) { c.sender.next - c.sender.bif > 0 }

  /** The official names in terms of what was sent, acknowledged and received. Which side ended
      first tells CLOSING from LAST-ACK: only the one that did lingers. */
  lemma NamesMean(c: Connection)
    requires Inv(c) && c.active
    ensures StateOf(c) == Official(LISTEN) <==> c.sender.next == 0
    ensures StateOf(c) == Official(SYN_SENT) <==> c.sender.next > 0 && !SynIsAcked(c) && !c.receiver.synReceived
    ensures StateOf(c) == Official(SYN_RCVD) <==>
              c.sender.next > 0 && !SynIsAcked(c) && c.receiver.synReceived && !c.InboundEnded()
    ensures StateOf(c) == Official(ESTABLISHED) <==> SynIsAcked(c) && !OwnFinSent(c) && !c.InboundEnded()
    ensures StateOf(c) == Official(CLOSE_WAIT) <==> SynIsAcked(c) && !OwnFinSent(c) && c.InboundEnded() && !c.linger
    ensures StateOf(c) == Official(FIN_WAIT_1) <==>
              SynIsAcked(c) && OwnFinSent(c) && c.sender.bif > 0 && !c.InboundEnded()
    ensures StateOf(c) == Official(CLOSING) <==>
              SynIsAcked(c) && OwnFinSent(c) && c.sender.bif > 0 && c.InboundEnded() && c.linger
    ensures StateOf(c) == Official(LAST_ACK) <==>
              SynIsAcked(c) && OwnFinSent(c) && c.sender.bif > 0 && c.InboundEnded() && !c.linger
    ensures StateOf(c) == Official(FIN_WAIT_2) <==> OwnFinSent(c) && c.sender.bif == 0 && !c.InboundEnded()
    ensures StateOf(c) == Official(TIME_WAIT) <==> OwnFinSent(c) && c.sender.bif == 0 && c.InboundEnded()
  {
    InvCounts(c);
    NothingInFlightIff(c.sender);
  }

  // ----- lingering and closing -----

  /** After a segment that is not ignored, outside SYN-RCVD: lingering is switched off exactly
      when the peer's stream is over before the own one; and the connection is over exactly when
      both are, all is acknowledged, and there is no reason to linger. */
  lemma ArrivalCloses(c: Connection, seg: TcpSegment)
    requires Inv(c) && c.active && LegalSegment(c, seg) && !seg.header.rst && !Ignored(c, seg) && !QueueStays(c)
    ensures var c' := SegmentReceived(c, seg);
            && (c'.linger <==> c.linger && !(c'.InboundEnded() && !c'.Eof()))
            && (c'.active <==>
                  !(c'.InboundEnded() && c'.Eof() && c'.sender.bif == 0 && (!c.linger || c.rtTimeout == 0)))
            && Inv(c')
  {
    ArrivalIs(c, seg);
    SegmentKeepsInv(c, seg);
    var t := Taken(c, seg);
    var e := if Due(c, seg) then QueueEmpty(t) else t;
    SendDataCloses(if Refills(c) then Fill(e) else e);
  }

  lemma SendDataCloses(c: Connection)
    requires c.Valid() && c.active && c.sinceReceived == 0
    ensures var c' := SendData(c);
            && (c'.linger <==> c.linger && !(c'.InboundEnded() && !c'.Eof()))
            && (c'.active <==>
                  !(c'.InboundEnded() && c'.Eof() && c'.sender.bif == 0 && (!c.linger || c.rtTimeout == 0)))
  {
  }

  // ----- the last acknowledgment -----

  /** The ackno is the number after everything sent. */
  predicate AcksAll(c: Connection, seg: TcpSegment) { seg.header.ackno == Wrap(c.sender.next, c.sender.isn) }

  /** Once the FIN is out and something is in flight, it is all acknowledged exactly by the ackno
      of the next number. */
  lemma LastAckIff(c: Connection, seg: TcpSegment)
    requires Inv(c) && c.active && LegalSegment(c, seg) && !seg.header.rst && Heeded(c, seg)
    requires OwnFinSent(c) && SynIsAcked(c) && c.sender.bif > 0
    ensures var s := SegmentReceived(c, seg).sender;
            && s.next == c.sender.next && s.stream == c.sender.stream
            && (s.bif == 0 <==> AcksAll(c, seg))
  {
    var s := c.sender;
    ArrivalHeeds(c, seg);
    ArrivalOnlySends(c, seg);
    NothingNewToSend(c, seg);
    NothingInFlightIff(s);
    OffsetIsZeroIff(s, seg.header.ackno);
    if AcksAll(c, seg) {
      var k :| k in s.cache;
      assert Covers(s, s.next);
    }
  }

  lemma OffsetIsZeroIff(s: Sender, ackno: u32)
    ensures Offset(Wrap(s.next, s.isn), ackno) == 0 <==> ackno == Wrap(s.next, s.isn)
  {
  }

  /** With the FIN given out no number is left. */
  lemma NothingNewToSend(c: Connection, seg: TcpSegment)
    requires Inv(c) && c.active && LegalSegment(c, seg) && !seg.header.rst && !Ignored(c, seg)
    requires OwnFinSent(c)
    ensures var s := SegmentReceived(c, seg).sender; s.next == c.sender.next && s.stream == c.sender.stream
  {
    var s' := SegmentReceived(c, seg).sender;
    SegmentKeepsInv(c, seg);
    ArrivalOnlyReads(c, seg);
    LastNumber(c.sender, s');
  }

  lemma ArrivalOnlyReads(c: Connection, seg: TcpSegment)
    requires Inv(c) && c.active && LegalSegment(c, seg) && !seg.header.rst && !Ignored(c, seg)
    ensures var s := SegmentReceived(c, seg).sender;
            s.stream == c.sender.stream.(nread := s.stream.nread) && s.next >= c.sender.next
  {
    ArrivalMoves(c, seg);
    ArrivalOnlySends(c, seg);
    if Heeded(c, seg) {
      HeededIsUsed(c, seg);
      var acked := AckKeepsTiling(c.sender, seg.header.ackno, seg.header.win);
    }
  }

  lemma LastNumber(s: Sender, s': Sender)
    requires Counted(s) && Counted(s') && s'.stream == s.stream.(nread := s'.stream.nread) && s'.next >= s.next
    requires s.next == |s.stream.log| + 2
    ensures s'.next == s.next && s'.stream == s.stream
  {
  }

  // ----- opening -----

  /** The SYN is the first segment, alone. */
  lemma SynIsFirst(s: Sender)
    requires Tiling(s) && s.next == s.bif > 0
    ensures 1 in s.cache
  {
    var bs :| Tiled(s, bs);
    assert bs[0] == 0 && |bs| > 1;
    assert Linked(s.cache, bs, 1);
    assert Fills(s.isn, s.stream, s.cache[bs[1]], bs[1]);
  }

  /** An ack of a number past the SYN and not beyond what was sent. */
  predicate AcksSyn(c: Connection, seg: TcpSegment) {
    0 <= Offset(Wrap(c.sender.next, c.sender.isn), seg.header.ackno) < c.sender.next
  }

  /** Before its SYN is acknowledged: a connection that heeds an ack has it acknowledged after
      it exactly if that is an ack of it. */
  lemma SynIsAckedIff(c: Connection, seg: TcpSegment)
    requires Inv(c) && c.active && LegalSegment(c, seg) && !seg.header.rst && Heeded(c, seg)
    requires c.sender.next > 0 && !SynIsAcked(c)
    ensures SynIsAcked(SegmentReceived(c, seg)) <==> AcksSyn(c, seg)
  {
    var s := c.sender;
    ArrivalHeeds(c, seg);
    NothingInFlightIff(s);
    SynIsFirst(s);
    var n := Offset(Wrap(s.next, s.isn), seg.header.ackno);
    assert s.next - n >= 1 ==> 1 in s.cache && 1 <= s.next - n && Covers(s, s.next - n);
  }

  /** LISTEN: a SYN leads to SYN-RCVD, unless it brings the end of the peer's stream with it. */
  lemma ListenHearsSyn(c: Connection, seg: TcpSegment)
    requires Inv(c) && c.active && !seg.header.rst && StateOf(c) == Official(LISTEN) && seg.header.syn
    ensures var c' := SegmentReceived(c, seg); StateOf(c') == Official(SYN_RCVD) <==> !c'.InboundEnded()
  {
    NamesMean(c);
    HeededIsUsed(c, seg);
    ArrivalHeeds(c, seg);
    ArrivalIsReceived(c, seg);
    ArrivalCloses(c, seg);
    NothingInFlightIff(c.sender);
    OpeningIsRcvd(SegmentReceived(c, seg));
  }

  lemma OpeningIsRcvd(c: Connection)
    requires Inv(c) && c.receiver.synReceived && !SynIsAcked(c) && (c.active || c.sender.bif == 0)
    ensures StateOf(c) == Official(SYN_RCVD) <==> !c.InboundEnded()
  {
    if c.active {
      NamesMean(c);
    }
    NothingInFlightIff(c.sender);
  }

  /** SYN-SENT: a SYN that acknowledges ours leads to ESTABLISHED, any other to SYN-RCVD, as
      long as neither side's stream is over. */
  lemma SynSentHearsSyn(c: Connection, seg: TcpSegment)
    requires Inv(c) && c.active && LegalSegment(c, seg) && !seg.header.rst
    requires StateOf(c) == Official(SYN_SENT) && seg.header.syn && !c.sender.stream.ended
    requires !SegmentReceived(c, seg).InboundEnded()
    ensures StateOf(SegmentReceived(c, seg)) ==
              Official(if seg.header.ack && AcksSyn(c, seg) then ESTABLISHED else SYN_RCVD)
  {
    var c' := SegmentReceived(c, seg);
    NamesMean(c);
    ArrivalHeeds(c, seg);
    ArrivalIsReceived(c, seg);
    ArrivalCloses(c, seg);
    ArrivalKeepsStream(c, seg);
    if seg.header.ack {
      SynIsAckedIff(c, seg);
    }
    NamesMean(c');
  }

  /** SYN-RCVD: the ack of our SYN leads to ESTABLISHED, as long as neither side's stream is
      over; anything else leaves it there. */
  lemma SynRcvdHearsAck(c: Connection, seg: TcpSegment)
    requires Inv(c) && c.active && LegalSegment(c, seg) && !seg.header.rst
    requires StateOf(c) == Official(SYN_RCVD) && !c.sender.stream.ended
    requires !SegmentReceived(c, seg).InboundEnded()
    ensures StateOf(SegmentReceived(c, seg)) == Official(if AcksSyn(c, seg) then ESTABLISHED else SYN_RCVD)
  {
    var c' := SegmentReceived(c, seg);
    NamesMean(c);
    ArrivalIs(c, seg);
    SegmentKeepsInv(c, seg);
    ArrivalIsReceived(c, seg);
    ArrivalKeepsStream(c, seg);
    SynIsAckedIff(c, seg);
    NamesMean(c');
  }

  // ----- the peer closes -----

  /** ESTABLISHED with the own stream open: the end of the peer's stream leads to CLOSE-WAIT,
      and nothing else leads anywhere. */
  lemma EstablishedHears(c: Connection, seg: TcpSegment)
    requires Inv(c) && c.active && LegalSegment(c, seg) && !seg.header.rst
    requires StateOf(c) == Official(ESTABLISHED) && !c.sender.stream.ended
    ensures var c' := SegmentReceived(c, seg);
            StateOf(c') == Official(if c'.InboundEnded() then CLOSE_WAIT else ESTABLISHED)
  {
    var c' := SegmentReceived(c, seg);
    NamesMean(c);
    ArrivalMoves(c, seg);
    ArrivalIsReceived(c, seg);
    ArrivalCloses(c, seg);
    ArrivalKeepsStream(c, seg);
    NamesMean(c');
  }

  // ----- the own side closes -----

  /** The FIN goes out at once exactly when the window has room for all that is unread and it. */
  lemma CloseSendsFinIff(c: Connection)
    requires Inv(c) && c.active && SynIsAcked(c) && !OwnFinSent(c)
    ensures var c' := EndInput(c);
            && (OwnFinSent(c') <==> c.sender.bif + c.sender.stream.BufferSize() + 1 <= Usable(c.sender.peerWin))
            && SynIsAcked(c') && (OwnFinSent(c') ==> c'.sender.bif > 0)
            && c'.receiver == c.receiver && c'.sinceReceived == c.sinceReceived
  {
    var stream := c.sender.stream.(ended := true);
    var s := c.sender.(stream := stream);
    GrowthKeepsTiling(c.sender, stream);
    var news := FillFillsWindow(s);
    var sent := FillSends(s);
    SendDataKeepsSender(Fill(c.(sender := s)));
    SendDataKeepsClock(Fill(c.(sender := s)));
  }

  /** ESTABLISHED: closing leads to FIN-WAIT-1 once the FIN is out. */
  lemma EstablishedCloses(c: Connection)
    requires Inv(c) && c.active && StateOf(c) == Official(ESTABLISHED)
    ensures StateOf(EndInput(c)) ==
              Official(if c.sender.bif + c.sender.stream.BufferSize() + 1 <= Usable(c.sender.peerWin) then FIN_WAIT_1
                       else ESTABLISHED)
  {
    NamesMean(c);
    CloseSendsFinIff(c);
    EndInputKeepsInv(c);
    EndInputStaysActive(c);
    NamesMean(EndInput(c));
  }

  /** CLOSE-WAIT: closing leads to LAST-ACK once the FIN is out. */
  lemma CloseWaitCloses(c: Connection)
    requires Inv(c) && c.active && StateOf(c) == Official(CLOSE_WAIT)
    ensures StateOf(EndInput(c)) ==
              Official(if c.sender.bif + c.sender.stream.BufferSize() + 1 <= Usable(c.sender.peerWin) then LAST_ACK
                       else CLOSE_WAIT)
  {
    NamesMean(c);
    CloseSendsFinIff(c);
    EndInputKeepsInv(c);
    EndInputStaysActive(c);
    NamesMean(EndInput(c));
  }

  lemma EndInputStaysActive(c: Connection)
    requires Inv(c) && c.active && SynIsAcked(c) && !OwnFinSent(c)
    ensures EndInput(c).active && (EndInput(c).linger ==> c.linger)
    ensures !c.InboundEnded() ==> EndInput(c).linger == c.linger
  {
    CloseSendsFinIff(c);
    EndInputKeepsInv(c);
  }

  // ----- both closed -----

  /** FIN-WAIT-1: the ack of the FIN leads to FIN-WAIT-2, the end of the peer's stream to
      CLOSING, and both at once to TIME-WAIT. */
  lemma FinWait1Hears(c: Connection, seg: TcpSegment)
    requires Inv(c) && c.active && LegalSegment(c, seg) && !seg.header.rst && c.rtTimeout > 0
    requires StateOf(c) == Official(FIN_WAIT_1) && (seg.header.fin || seg.header.ack)
    ensures var c' := SegmentReceived(c, seg);
            StateOf(c') == Official(if AcksAll(c, seg) then if c'.InboundEnded() then TIME_WAIT else FIN_WAIT_2
                                    else if c'.InboundEnded() then CLOSING else FIN_WAIT_1)
  {
    var c' := SegmentReceived(c, seg);
    NamesMean(c);
    LastAckIff(c, seg);
    ArrivalMoves(c, seg);
    ArrivalCloses(c, seg);
    NamesMean(c');
  }

  /** FIN-WAIT-2: the end of the peer's stream leads to TIME-WAIT, and nothing else anywhere. */
  lemma FinWait2Hears(c: Connection, seg: TcpSegment)
    requires Inv(c) && c.active && LegalSegment(c, seg) && !seg.header.rst && c.rtTimeout > 0
    requires StateOf(c) == Official(FIN_WAIT_2)
    ensures var c' := SegmentReceived(c, seg);
            StateOf(c') == Official(if c'.InboundEnded() then TIME_WAIT else FIN_WAIT_2)
  {
    var c' := SegmentReceived(c, seg);
    NamesMean(c);
    StaysAcked(c, seg);
    ArrivalCloses(c, seg);
    NamesMean(c');
  }

  lemma StaysAcked(c: Connection, seg: TcpSegment)
    requires Inv(c) && c.active && LegalSegment(c, seg) && !seg.header.rst && !Ignored(c, seg)
    requires OwnFinSent(c) && c.sender.bif == 0
    ensures var s := SegmentReceived(c, seg).sender; s.next == c.sender.next && s.stream == c.sender.stream && s.bif == 0
  {
    NothingNewToSend(c, seg);
    ArrivalMoves(c, seg);
    SegmentKeepsInv(c, seg);
    NothingInFlightIff(SegmentReceived(c, seg).sender);
  }

  /** CLOSING: the ack of the FIN leads to TIME-WAIT. */
  lemma ClosingHears(c: Connection, seg: TcpSegment)
    requires Inv(c) && c.active && LegalSegment(c, seg) && !seg.header.rst && c.rtTimeout > 0
    requires StateOf(c) == Official(CLOSING)
    ensures StateOf(SegmentReceived(c, seg)) == Official(if AcksAll(c, seg) then TIME_WAIT else CLOSING)
  {
    var c' := SegmentReceived(c, seg);
    NamesMean(c);
    LastAckIff(c, seg);
    ArrivalMoves(c, seg);
    ArrivalIsReceived(c, seg);
    ArrivalCloses(c, seg);
    NamesMean(c');
  }

  /** LAST-ACK: the ack of the FIN closes the connection. */
  lemma LastAckHears(c: Connection, seg: TcpSegment)
    requires Inv(c) && c.active && LegalSegment(c, seg) && !seg.header.rst && StateOf(c) == Official(LAST_ACK)
    ensures StateOf(SegmentReceived(c, seg)) == Official(if AcksAll(c, seg) then CLOSED else LAST_ACK)
  {
    var c' := SegmentReceived(c, seg);
    NamesMean(c);
    LastAckIff(c, seg);
    ArrivalMoves(c, seg);
    ArrivalIsReceived(c, seg);
    ArrivalCloses(c, seg);
    if c'.active {
      NamesMean(c');
    } else {
      InactiveState(c');
    }
  }

  /** TIME-WAIT: nothing leads out of it but time, and every segment starts that afresh. */
  lemma TimeWaitHears(c: Connection, seg: TcpSegment)
    requires Inv(c) && c.active && LegalSegment(c, seg) && !seg.header.rst && c.rtTimeout > 0
    requires StateOf(c) == Official(TIME_WAIT)
    ensures StateOf(SegmentReceived(c, seg)) == Official(TIME_WAIT) && SegmentReceived(c, seg).sinceReceived == 0
  {
    var c' := SegmentReceived(c, seg);
    NamesMean(c);
    ArrivalIsReceived(c, seg);
    if Ignored(c, seg) {
      ArrivalIs(c, seg);
      SegmentKeepsInv(c, seg);
    } else {
      StaysAcked(c, seg);
      ArrivalMoves(c, seg);
      ArrivalCloses(c, seg);
    }
    NamesMean(c');
  }
}
