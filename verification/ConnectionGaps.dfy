/** Where numbers that arrive are not acknowledged at once: while the own FIN waits for the
    window, and in FIN-WAIT-1. */
module ConnectionGaps {
  import opened Numbers
  import opened WrappingIntegers
  import opened ByteStreams
  import opened TcpSegments
  import Rx = TcpReceivers
  import opened ReceiverWindows
  import opened TcpSenders
  import opened SenderProofs
  import opened SenderWindows
  import opened TcpConnections
  import opened TcpStates
  import opened ConnectionProofs
  import opened ConnectionRuns
  import ConnectionLimits
  import opened ConnectionReplies
  import opened ConnectionDiagrams

  /** In ESTABLISHED and CLOSE-WAIT a segment with numbers brings something out, and with it
      their acknowledgment, exactly when the own stream is not over, or something is queued, or
      the segment lets something new out. */
  lemma NumbersAreAcknowledgedIff(c: Connection, seg: TcpSegment)
    requires Inv(c) && c.active && LegalSegment(c, seg) && !seg.header.rst && seg.LengthInSequenceSpace() > 0
    requires StateOf(c) == Official(ESTABLISHED) || StateOf(c) == Official(CLOSE_WAIT)
    ensures var c' := SegmentReceived(c, seg);
            Acknowledges(c, c') <==> !c.Eof() || c.sender.out != [] || c'.sender.next > c.sender.next
  {
    NumbersAreDueIff(c, seg);
    ArrivalSendsIff(c, seg);
    SendingAcknowledges(c, seg);
  }

  lemma NumbersAreDueIff(c: Connection, seg: TcpSegment)
    requires Inv(c) && c.active && LegalSegment(c, seg) && !seg.header.rst && seg.LengthInSequenceSpace() > 0
    requires StateOf(c) == Official(ESTABLISHED) || StateOf(c) == Official(CLOSE_WAIT)
    ensures !Ignored(c, seg) && !QueueStays(c) && c.receiver.synReceived && (Due(c, seg) <==> !c.Eof())
  {
    SynAckedTaken(c, seg);
  }

  /** In FIN-WAIT-1 a segment that acknowledges brings something out exactly when it has a FIN,
      or something is queued: data alone is not acknowledged. */
  lemma FinWait1AcknowledgesIff(c: Connection, seg: TcpSegment)
    requires Inv(c) && c.active && LegalSegment(c, seg) && !seg.header.rst && seg.header.ack
    requires StateOf(c) == Official(FIN_WAIT_1)
    ensures Acknowledges(c, SegmentReceived(c, seg)) <==> seg.header.fin || c.sender.out != []
  {
    NamesMean(c);
    ArrivalSendsIff(c, seg);
    SendingAcknowledges(c, seg);
    NothingNewToSend(c, seg);
  }

  /** Whatever goes out acknowledges. */
  lemma SendingAcknowledges(c: Connection, seg: TcpSegment)
    requires Inv(c) && c.active && LegalSegment(c, seg) && !seg.header.rst && !Ignored(c, seg) && !QueueStays(c)
    requires c.receiver.synReceived
    ensures var c' := SegmentReceived(c, seg); Acknowledges(c, c') <==> |c'.out| > |c.out|
  {
    var c' := SegmentReceived(c, seg);
    var acked, mid, more := ArrivalReplies(c, seg);
    SequencePlain(c'.sender.isn, c'.sender.stream, acked, c.sender.next, mid);
    SequencePlain(c'.sender.isn, c'.sender.stream, more, mid, c'.sender.next);
    PlainParts(c'.sender.isn, c.sender.out, acked, mid, Due(c, seg), more);
    Rx.ReceiveKeepsInv(c.receiver, seg);
    var all := c.sender.out + acked + (if Due(c, seg) then [Empty(c'.sender.isn, mid)] else []) + more;
    if all != [] {
      SendsAcknowledge(c, c', all);
    }
  }

  // ----- a byte that is not acknowledged -----

  /** The peer's SYN with the ack of ours and a window of one. */
  function NarrowSynAck(isn: u32, seqno: u32): TcpSegment {
    TcpSegment(EMPTY_HEADER.(syn := true, ack := true, seqno := seqno, ackno := Wrap(1, isn), win := 1), [])
  }

  /** A byte of the peer's, and nothing new acknowledged. */
  function OneByte(isn: u32, seqno: u32, b: byte): TcpSegment {
    TcpSegment(EMPTY_HEADER.(ack := true, seqno := Wrap(1, seqno), ackno := Wrap(1, isn), win := 1), [b])
  }

  function Base(g: Config): Sender { FreshSender(g.sendCapacity, g.rtTimeout, g.isn) }

  /** Opened, with the SYN out. */
  function Opened(g: Config): Sender {
    Base(g).(next := 1, bif := 1, cache := map[1 := ConnectionLimits.BareSyn(g.isn)])
  }

  /** The SYN acknowledged. */
  function Acked(g: Config): Sender { Base(g).(next := 1) }

  /** The byte `x` written and out, which fills the window, and the stream ended. */
  function Closing(g: Config, x: byte): Sender {
    var seg := TcpSegment(EMPTY_HEADER.(seqno := Wrap(1, g.isn)), [x]);
    Acked(g).(stream := Stream(g.sendCapacity, [x], 1, true, false), next := 2, bif := 1, cache := map[2 := seg])
  }

  function Heard(g: Config, seqno: u32): Rx.Receiver {
    Rx.FreshReceiver(g.recvCapacity).(synReceived := true, isn := seqno)
  }

  /** A connection with these halves, nothing queued, and an own side that may linger. */
  predicate Is(c: Connection, s: Sender, r: Rx.Receiver) {
    c.Valid() && c.active && c.linger && c.sender == s && c.receiver == r
  }

  lemma OpenStep(g: Config)
    ensures Is(After(Begin(g).c, Open), Opened(g), Rx.FreshReceiver(g.recvCapacity))
  {
    ConnectionLimits.FirstFill(g.sendCapacity, g.rtTimeout, g.isn);
    assert map[][1 := ConnectionLimits.BareSyn(g.isn)] == map[1 := ConnectionLimits.BareSyn(g.isn)];
  }

  lemma SynAckCoversSyn(g: Config)
    ensures AckReceived(Opened(g), Wrap(1, g.isn), 1) == Acked(g)
    ensures LeftInFlight(Opened(g), Wrap(1, g.isn)) == 0
  {
    var s := Opened(g);
    OffsetOfWraps(1, 1, g.isn);
    UnwrapWrap(1, g.isn, 1);
    assert TcpSenders.Acked(s, Wrap(1, g.isn)) == {1};
    assert s.cache - {1} == map[];
  }

  lemma SynAckStep(g: Config, seqno: u32, c: Connection)
    requires Is(c, Opened(g), Rx.FreshReceiver(g.recvCapacity))
    ensures Is(After(c, Arrive(NarrowSynAck(g.isn, seqno))), Acked(g), Heard(g, seqno))
    ensures LegalSegment(c, NarrowSynAck(g.isn, seqno))
  {
    var seg := NarrowSynAck(g.isn, seqno);
    SynAckCoversSyn(g);
    ConnectionLimits.FirstSynReceived(g.recvCapacity, seqno);
    assert Rx.SegmentReceived(c.receiver, seg) == Heard(g, seqno);
  }

  lemma WriteStep(g: Config, x: byte, c: Connection, r: Rx.Receiver)
    requires Is(c, Acked(g), r) && g.sendCapacity > 0 && !r.Out().ended
    ensures Is(After(After(c, WriteBytes([x])), Finish), Closing(g, x), r)
  {
    var stream := Base(g).stream.Write([x]);
    assert stream == Stream(g.sendCapacity, [x], 0, false, false);
    WritesOne(g, x);
  }

  lemma WritesOne(g: Config, x: byte)
    requires g.sendCapacity > 0
    ensures var s := Acked(g).(stream := Stream(g.sendCapacity, [x], 0, false, false));
            var e := Closing(g, x).(stream := Stream(g.sendCapacity, [x], 1, false, false));
            FillWindow(s) == e.(out := FillWindow(s).out)
    ensures FillWindow(Closing(g, x)) == Closing(g, x)
  {
    var s := Acked(g).(stream := Stream(g.sendCapacity, [x], 0, false, false));
    assert [x][0..1] == [x];
    var c := SendChunk(s, 1);
    assert SendLoop(c, 0) == c && SendLoop(s, 1) == c;
    assert map[][2 := ChunkSegment(s, 1)] == map[2 := ChunkSegment(s, 1)];
  }

  /** The run: open, SYN-ACK, write, close. The connection is in ESTABLISHED with its FIN due and
      its window full; the peer's next byte is taken, and nothing goes out. */
  lemma ByteIsNotAcknowledged(g: Config, seqno: u32, x: byte, b: byte)
    returns (es: seq<Event>, hs: seq<ConnectionHistory>)
    requires g.sendCapacity > 0 && g.recvCapacity > 0
    ensures IsRun(g, es, hs)
    ensures var c, seg := hs[|es|].c, OneByte(g.isn, seqno, b);
            var c' := SegmentReceived(c, seg);
            && StateOf(c) == Official(ESTABLISHED) && LegalSegment(c, seg)
            && c'.receiver.Out().log == [b] && c'.out == c.out
  {
    es, hs := ToDueFin(g, seqno, x);
    var c, seg := hs[|es|].c, OneByte(g.isn, seqno, b);
    RunKeepsInv(g, es, hs, |es|);
    OffsetOfWraps(2, 1, g.isn);
    assert LeftInFlight(c.sender, seg.header.ackno) == 1;
    DueFinIsSilent(g, x, c, seg);
    ByteIsTaken(g, seqno, b);
    ArrivalIsReceived(c, seg);
  }

  lemma ToDueFin(g: Config, seqno: u32, x: byte) returns (es: seq<Event>, hs: seq<ConnectionHistory>)
    requires g.sendCapacity > 0 && g.recvCapacity > 0
    ensures IsRun(g, es, hs) && Is(hs[|es|].c, Closing(g, x), Heard(g, seqno))
  {
    var syn, write := Arrive(NarrowSynAck(g.isn, seqno)), WriteBytes([x]);
    var h0 := Begin(g);
    var h1 := Next(h0, Open);
    OpenStep(g);
    var h2 := Next(h1, syn);
    SynAckStep(g, seqno, h1.c);
    var h3 := Next(h2, write);
    var h4 := Next(h3, Finish);
    WriteStep(g, x, h2.c, Heard(g, seqno));
    RunExtends(g, [], [h0], Open);
    RunExtends(g, [] + [Open], [h0] + [h1], syn);
    RunExtends(g, [] + [Open] + [syn], [h0] + [h1] + [h2], write);
    RunExtends(g, [] + [Open] + [syn] + [write], [h0] + [h1] + [h2] + [h3], Finish);
    es := [] + [Open] + [syn] + [write] + [Finish];
    hs := [h0] + [h1] + [h2] + [h3] + [h4];
  }

  lemma DueFinIsSilent(g: Config, x: byte, c: Connection, seg: TcpSegment)
    requires Inv(c) && c.active && c.sender == Closing(g, x) && LegalSegment(c, seg) && !seg.header.rst
    requires StateOf(c) == Official(ESTABLISHED) && seg.header.win == 1 && LeftInFlight(c.sender, seg.header.ackno) == 1
    ensures SegmentReceived(c, seg).out == c.out
  {
    var c' := SegmentReceived(c, seg);
    ArrivalSendsIff(c, seg);
    WindowUpdateFills(c, seg);
    UpdateStaysWithin(c, seg);
    ArrivalHeeds(c, seg);
    ArrivalMoves(c, seg);
    SegmentKeepsInv(c, seg);
    assert c'.sender.bif <= 1;
    assert c.out <= c'.out;
  }

  lemma ByteIsTaken(g: Config, seqno: u32, b: byte)
    requires g.recvCapacity > 0
    ensures Rx.SegmentReceived(Heard(g, seqno), OneByte(g.isn, seqno, b)).Out().log == [b]
  {
    var r, seg := Heard(g, seqno), OneByte(g.isn, seqno, b);
    WindowTestIsExact(r, seg, 1);
    WindowIsDelivered(r, seg, 1, 0);
  }
}
