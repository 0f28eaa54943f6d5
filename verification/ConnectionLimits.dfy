/** Where the connection's tests are too weak: some branches pass an ackno to the sender
    without looking at the ACK flag. This is exactly when an arriving segment breaks the
    sender's accounting. */
module ConnectionLimits {
  import opened Numbers
  import opened WrappingIntegers
  import opened ReassemblerProofs
  import opened TcpSegments
  import Rx = TcpReceivers
  import opened TcpSenders
  import opened SenderProofs
  import opened TcpConnections
  import opened TcpStates
  import opened ConnectionProofs
  import opened ConnectionRuns

  /** More is counted in flight than was ever sent. */
  predicate Excess(s: Sender) { s.Valid() && 0 < s.next < s.bif }

  lemma AckCausesExcess(s: Sender, ackno: u32, win: u16)
    requires Tiling(s) && WindowBounded(s) && !Harmless(s, ackno)
    ensures Excess(AckReceived(s, ackno, win))
  {
    var k :| k in s.cache;
    UnacceptableCoversAll(s, ackno, k);
    NothingInFlightIff(s);
    FillKeepsExcess(Acknowledge(s, ackno, win));
  }

  lemma FillStaysInExcess(c: Connection)
    requires c.Valid() && Excess(c.sender)
    ensures Excess(SendData(Fill(c)).sender)
  {
    FillKeepsExcess(c.sender);
    SendDataStaysInExcess(Fill(c));
  }

  lemma AnswerStaysInExcess(c: Connection, c': Connection)
    requires c.Valid() && Answers(c, c') && Excess(c.sender)
    ensures Excess(c'.sender)
  {
    var e := QueueEmpty(c);
    assert Excess(e.sender);
    SendDataStaysInExcess(c);
    SendDataStaysInExcess(e);
    FillStaysInExcess(c);
    FillStaysInExcess(e);
  }

  lemma SendDataStaysInExcess(c: Connection)
    requires c.Valid() && Excess(c.sender)
    ensures Excess(SendData(c).sender)
  {
  }

  lemma ArrivalCausesExcess(c: Connection, seg: TcpSegment)
    requires ConnectionProofs.Inv(c) && UsesAck(c, seg) && !Harmless(c.sender, seg.header.ackno)
    ensures Excess(SegmentReceived(c, seg).sender)
  {
    var c1 := c.(sinceReceived := 0);
    RestartedUse(c, seg);
    AckCausesExcess(c.sender, seg.header.ackno, seg.header.win);
    AckedAnswers(c1, seg);
    AnswerStaysInExcess(TakeBoth(c1, seg), Handle(c1, seg));
  }

  lemma ExcessIsNotTiled(s: Sender)
    requires Excess(s)
    ensures !Tiling(s)
  {
    if Tiling(s) {
      NothingInFlightIff(s);
    }
  }

  /** A segment whose ackno is used keeps the sender's tiling exactly when that ackno is not
      from before the initial sequence number, or nothing is outstanding. */
  lemma ArrivalKeepsTilingIff(c: Connection, seg: TcpSegment)
    requires ConnectionProofs.Inv(c) && Short(c.sender) && UsesAck(c, seg)
    ensures Tiling(SegmentReceived(c, seg).sender) <==> Harmless(c.sender, seg.header.ackno)
  {
    if Harmless(c.sender, seg.header.ackno) {
      SegmentKeepsInv(c, seg);
    } else {
      ArrivalCausesExcess(c, seg);
      ExcessIsNotTiled(SegmentReceived(c, seg).sender);
    }
  }

  /** The first segment of a peer that opens actively: a bare SYN, no ACK. */
  function BareSyn(seqno: u32): TcpSegment {
    TcpSegment(EMPTY_HEADER.(syn := true, seqno := seqno), [])
  }

  lemma FirstSynReceived(capacity: nat, seqno: u32)
    ensures var r := Rx.FreshReceiver(capacity);
            Rx.SegmentReceived(r, BareSyn(seqno)) == r.(synReceived := true, isn := seqno)
  {
    var r1 := Rx.TakeSyn(Rx.FreshReceiver(capacity), BareSyn(seqno).header);
    UnwrapWrap(0, seqno, 0);
    assert Wrap(0, seqno) == seqno;
    UnwrapWrap(1, seqno, 0);
  }

  lemma FirstFill(capacity: nat, rtTimeout: u16, isn: u32)
    ensures var s := FreshSender(capacity, rtTimeout, isn);
            FillWindow(s) == SendSyn(s) && SendSyn(s).next == 1 && SendSyn(s).bif == 1
  {
  }

  /** A listening connection that hears a bare SYN is in SYN-RCVD. */
  function InSynRcvdAfter(g: Config, seqno: u32): (c: Connection)
    ensures c.Valid()
  {
    SegmentReceived(FreshConnection(g.rtTimeout, g.recvCapacity, g.sendCapacity, g.isn), BareSyn(seqno))
  }

  lemma AfterSyn(g: Config, seqno: u32)
    ensures var c := InSynRcvdAfter(g, seqno);
            && c.active && c.sender.isn == g.isn && c.sender.next == 1 && c.sender.bif == 1
            && Dispatch(c) == InSynRcvd && ConnectionProofs.Inv(c)
  {
    var c0 := FreshConnection(g.rtTimeout, g.recvCapacity, g.sendCapacity, g.isn);
    FreshInv(g.rtTimeout, g.recvCapacity, g.sendCapacity, g.isn);
    SegmentKeepsInv(c0, BareSyn(seqno));
    FirstSynReceived(g.recvCapacity, seqno);
    FirstFill(g.sendCapacity, g.rtTimeout, g.isn);
  }

  /** The peer's SYN arriving a second time, a plain duplicate without ACK, is taken for an ack
      of a number before ours unless our initial sequence number makes its zero ackno lie
      ahead: for every such number between 1 and 2^31 - 2 the accounting breaks. */
  lemma DuplicateSynBreaksTiling(g: Config, seqno: u32)
    requires 1 <= g.isn <= TWO31 - 2
    ensures var c := InSynRcvdAfter(g, seqno);
            Tiling(c.sender) && !Tiling(SegmentReceived(c, BareSyn(seqno)).sender)
  {
    var c := InSynRcvdAfter(g, seqno);
    AfterSyn(g, seqno);
    ZeroAcknoIsFar(c.sender);
    ArrivalKeepsTilingIff(c, BareSyn(seqno));
  }

  lemma ZeroAcknoIsFar(s: Sender)
    requires Tiling(s) && s.next == 1 && s.bif == 1 && 1 <= s.isn <= TWO31 - 2
    ensures !Harmless(s, 0)
  {
    NothingInFlightIff(s);
    assert s.NextSeqno() == s.isn + 1;
    assert LeftInFlight(s, 0) == s.isn + 1;
  }

  // ----- a state without an official name -----

  /** An acknowledgment of our SYN that carries the peer's FIN and nothing else. */
  function AckWithFin(isn: u32, seqno: u32): TcpSegment {
    TcpSegment(EMPTY_HEADER.(ack := true, fin := true, ackno := Wrap(1, isn), seqno := Wrap(1, seqno)), [])
  }

  lemma FinEndsInbound(capacity: nat, isn: u32, seqno: u32)
    requires capacity > 0
    ensures var r := Rx.FreshReceiver(capacity).(synReceived := true, isn := seqno);
            var r' := Rx.SegmentReceived(r, AckWithFin(isn, seqno));
            r'.synReceived && r'.Out() == r.Out().(ended := true)
  {
    var r, seg := Rx.FreshReceiver(capacity).(synReceived := true, isn := seqno), AckWithFin(isn, seqno);
    UnwrapWrap(1, seqno, 0);
    assert Rx.Wanted(r, seg) && Rx.PayloadIndex(r, seg) == 0;
    LastPushEnds(r.reassembler, []);
  }

  lemma AckCoversSyn(g: Config)
    ensures var s := SendSyn(FreshSender(g.sendCapacity, g.rtTimeout, g.isn)).(out := []);
            var e := AckReceived(s, Wrap(1, g.isn), 0);
            e.next == 1 && e.bif == 0 && e.stream == s.stream && e.retx == 0
  {
    var s := SendSyn(FreshSender(g.sendCapacity, g.rtTimeout, g.isn)).(out := []);
    OffsetOfWraps(1, 1, g.isn);
    UnwrapWrap(1, g.isn, 1);
    assert LeftInFlight(s, Wrap(1, g.isn)) == 0;
    assert 1 in Acked(s, Wrap(1, g.isn));
  }

  lemma SynRcvdParts(g: Config, seqno: u32)
    ensures var c := InSynRcvdAfter(g, seqno);
            && c.receiver == Rx.FreshReceiver(g.recvCapacity).(synReceived := true, isn := seqno)
            && c.sender == SendSyn(FreshSender(g.sendCapacity, g.rtTimeout, g.isn)).(out := [])
            && c.linger
  {
    FirstSynReceived(g.recvCapacity, seqno);
    FirstFill(g.sendCapacity, g.rtTimeout, g.isn);
  }

  /** A peer that acknowledges our SYN and closes with one segment: SYN-RCVD is left without
      the queue being moved out, so lingering stays on where CLOSE-WAIT has it off. */
  lemma FinInSynRcvd(g: Config, seqno: u32)
    requires g.recvCapacity > 0
    ensures var c, seg := InSynRcvdAfter(g, seqno), AckWithFin(g.isn, seqno);
            && LegalSegment(c, seg)
            && StateOf(SegmentReceived(c, seg)) == TcpState(SynAcked, FinRecv, true, true)
  {
    var c, seg := InSynRcvdAfter(g, seqno), AckWithFin(g.isn, seqno);
    AfterSyn(g, seqno);
    SynRcvdParts(g, seqno);
    FinEndsInbound(g.recvCapacity, g.isn, seqno);
    AckCoversSyn(g);
    OffsetOfWraps(1, 1, g.isn);
    assert LeftInFlight(c.sender, seg.header.ackno) == 0;
    var c1 := c.(sinceReceived := 0);
    assert SegmentReceived(c, seg) == TakeBoth(c1, seg);
  }

  /** So a run of two segments leads to an active state that has no official name. */
  lemma UnnamedStateIsReached(g: Config, seqno: u32) returns (es: seq<Event>, hs: seq<ConnectionHistory>)
    requires g.recvCapacity > 0
    ensures IsRun(g, es, hs) && hs[|es|].c.active
    ensures StateOf(hs[|es|].c) == TcpState(SynAcked, FinRecv, true, true)
    ensures !HasName(hs[|es|].c)
  {
    var syn, fin := Arrive(BareSyn(seqno)), Arrive(AckWithFin(g.isn, seqno));
    FinInSynRcvd(g, seqno);
    RunExtends(g, [], [Begin(g)], syn);
    RunExtends(g, [] + [syn], [Begin(g)] + [Next(Begin(g), syn)], fin);
    es := [] + [syn] + [fin];
    hs := [Begin(g)] + [Next(Begin(g), syn)] + [Next(Next(Begin(g), syn), fin)];
    NamedIff(g, es, hs);
  }
}
