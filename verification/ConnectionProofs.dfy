/** What every operation of a connection keeps. */
module ConnectionProofs {
  import opened Numbers
  import opened WrappingIntegers
  import OrderedMaps
  import opened ByteStreams
  import opened TcpSegments
  import Rx = TcpReceivers
  import opened TcpSenders
  import opened SenderProofs
  import opened SenderRuns
  import opened TcpConnections

  /** The two halves, each with its own invariant. */
  ghost predicate Halves(c: Connection) {
    && Tiling(c.sender) && WindowBounded(c.sender) && Timer(c.sender) && Plain(c.sender.out)
    && Rx.Inv(c.receiver)
    && (c.sender.stream.error <==> c.receiver.Out().error)
  }

  /** How the halves depend on each other outside LISTEN: an acked SYN implies that the peer's
      SYN was received, and lingering stays on until the inbound stream ends. */
  ghost predicate Coupled(c: Connection) {
    && (c.sender.next > c.sender.bif ==> c.receiver.synReceived)
    && (!c.InboundEnded() ==> c.linger)
  }

  /** A connection whose own side has not started has heard nothing; one that has started
      does not forget its FIN. */
  ghost predicate Started(c: Connection) {
    if c.sender.next == 0 then !c.receiver.synReceived && c.linger else FinDue(c.sender)
  }

  ghost predicate Core(c: Connection) { Halves(c) && Coupled(c) && Started(c) }

  /** Everything both ways was delivered and acknowledged, and there was nothing left to
      linger for. */
  ghost predicate CleanlyClosed(c: Connection)
    requires c.Valid()
  {
    && !c.sender.stream.error && !c.receiver.Out().error
    && c.InboundEnded() && c.Eof()
    && c.sender.next > 0 && FinSent(c.sender) && c.sender.bif == 0
    && (!c.linger || c.sinceReceived >= 10 * c.rtTimeout)
  }

  /** Active without errors and before giving up, or closed for one of two reasons. */
  ghost predicate Reasoned(c: Connection)
    requires c.Valid()
  {
    if c.active then !c.sender.stream.error && c.sender.retx <= MAX_RETX_ATTEMPTS
    else c.Failed() || CleanlyClosed(c)
  }

  /** A side that lost its reason to linger does not stay active once all is acknowledged. */
  ghost predicate Settled(c: Connection)
    requires c.Valid()
  {
    c.active && c.InboundEnded() && c.Eof() && c.sender.bif == 0 ==> c.linger
  }

  ghost predicate Inv(c: Connection) { Core(c) && Reasoned(c) && Settled(c) }

  lemma FreshInv(rtTimeout: u16, recvCapacity: nat, sendCapacity: nat, isn: u32)
    ensures Inv(FreshConnection(rtTimeout, recvCapacity, sendCapacity, isn))
  {
    FreshIsTiled(sendCapacity, rtTimeout, isn);
  }

  // ----- what is put on the wire -----

  /** A segment on the wire is a RST or carries the ackno and the window, cut to 16 bits, of a
      receiver in state `r`. */
  ghost predicate Stamped(r: Rx.Receiver, seg: TcpSegment)
    requires r.Valid()
  {
    seg.header.rst ||
    if r.synReceived then
      && seg.header.ack && seg.header.ackno == Wrap(r.AbsAckno(), r.isn)
      && seg.header.win == r.WindowSize() % TWO16
    else !seg.header.ack
  }

  /** Everything in `c'.out` after `out` was stamped with the ackno and window `c'` has now. */
  ghost predicate Emits(out: seq<TcpSegment>, c': Connection)
    requires c'.Valid()
  {
    && out <= c'.out
    && forall i :: |out| <= i < |c'.out| ==> Stamped(c'.receiver, c'.out[i])
  }

  lemma {:induction false} StampAllStamps(r: Rx.Receiver, segs: seq<TcpSegment>)
    requires r.Valid() && Plain(segs)
    ensures |StampAll(r, segs)| == |segs|
    ensures forall i :: 0 <= i < |segs| ==> StampAll(r, segs)[i] == Stamp(r, segs[i]) && Stamped(r, StampAll(r, segs)[i])
    decreases |segs|
  {
    if segs != [] {
      StampAllStamps(r, segs[..|segs| - 1]);
      assert PlainSegment(segs[|segs| - 1]);
    }
  }

  lemma SendDataEmits(c: Connection)
    requires c.Valid() && Plain(c.sender.out)
    ensures Emits(c.out, SendData(c))
  {
    StampAllStamps(c.receiver, c.sender.out);
    var c' := SendData(c);
    assert c'.out == c.out + StampAll(c.receiver, c.sender.out) && c'.receiver == c.receiver;
  }

  // ----- pieces of the operations -----

  lemma DrainKeeps(c: Connection)
    requires Core(c) && Reasoned(c)
    ensures Core(Drain(c)) && Reasoned(Drain(c))
  {
    SameTiling(c.sender, c.sender.(out := []));
  }

  lemma CloseIfDoneKeeps(c: Connection)
    requires Core(c) && Reasoned(c)
    ensures Inv(CloseIfDone(c))
  {
    NothingInFlightIff(c.sender);
  }

  lemma SendDataKeeps(c: Connection)
    requires Core(c) && Reasoned(c)
    ensures Inv(SendData(c)) && Emits(c.out, SendData(c))
  {
    SendDataEmits(c);
    DrainKeeps(c);
    CloseIfDoneKeeps(Drain(c));
  }

  lemma FillKeeps(c: Connection)
    requires Halves(c) && Coupled(c) && Reasoned(c)
    requires !c.active ==> Started(c)
    ensures Core(Fill(c)) && Reasoned(Fill(c))
  {
    var news := FillSends(c.sender);
    FillKeepsTimer(c.sender);
    NothingInFlightIff(c.sender);
    if !c.active && CleanlyClosed(c) {
      assert FillWindow(c.sender) == c.sender;
    }
  }

  lemma QueueEmptyKeeps(c: Connection)
    requires Core(c) && Reasoned(c)
    ensures Core(QueueEmpty(c)) && Reasoned(QueueEmpty(c))
  {
    SameTiling(c.sender, SendEmpty(c.sender));
  }

  /** The receiver takes a segment: it may learn the SYN, it never forgets anything. */
  lemma TakeSegmentKeeps(c: Connection, seg: TcpSegment)
    requires Halves(c) && c.active && Reasoned(c) && (!c.InboundEnded() ==> c.linger)
    requires seg.header.syn || c.receiver.synReceived
    ensures var e := TakeSegment(c, seg);
            Halves(e) && Coupled(e) && Reasoned(e) && e.active && e.receiver.synReceived
    ensures FinDue(c.sender) ==> Core(TakeSegment(c, seg))
  {
    Rx.ReceiveKeepsInv(c.receiver, seg);
  }

  lemma TakeAckKeeps(c: Connection, seg: TcpSegment)
    requires Core(c) && c.active && Reasoned(c) && c.sender.next > 0
    requires Short(c.sender) && Harmless(c.sender, seg.header.ackno)
    ensures var e := TakeAck(c, seg);
            Halves(e) && (!e.InboundEnded() ==> e.linger) && Reasoned(e) && FinDue(e.sender)
  {
    var news := AckKeepsTiling(c.sender, seg.header.ackno, seg.header.win);
    AckTimer(c.sender, seg.header.ackno, seg.header.win);
  }

  lemma TakeBothKeeps(c: Connection, seg: TcpSegment)
    requires Core(c) && c.active && Reasoned(c) && c.sender.next > 0
    requires Short(c.sender) && Harmless(c.sender, seg.header.ackno)
    requires seg.header.syn || c.receiver.synReceived
    ensures var e := TakeBoth(c, seg); Core(e) && Reasoned(e) && e.active
  {
    TakeAckKeeps(c, seg);
    TakeSegmentKeeps(TakeAck(c, seg), seg);
  }

  // ----- the operations -----

  /** Does the branch taken pass the segment's ackno to the sender? Some branches do so without
      looking at the ACK flag. */
  predicate UsesAck(c: Connection, seg: TcpSegment)
    requires c.Valid()
  {
    var h := seg.header;
    c.active && !h.rst &&
    match Dispatch(c)
    case InListen => false
    case InSynSent => h.syn && h.ack
    case InFinWait1 => h.fin || h.ack
    case InTimeWait => h.fin
    case InSynRcvd => true
    case InEstablished => true
    case InFinWait2 => true
    case Otherwise => true
  }

  /** What a connection may assume of an arriving segment. */
  predicate LegalSegment(c: Connection, seg: TcpSegment)
    requires c.Valid()
  {
    UsesAck(c, seg) ==> Short(c.sender) && Harmless(c.sender, seg.header.ackno)
  }

  /** What can follow once a segment was taken: nothing, or sending what is queued, with an
      empty segment or a refill before it. */
  ghost predicate Answers(c: Connection, c': Connection)
    requires c.Valid()
  {
    || c' == c || c' == SendData(c) || c' == SendData(QueueEmpty(c))
    || c' == SendData(Fill(c)) || c' == SendData(Fill(QueueEmpty(c)))
  }

  lemma AckedAnswers(c: Connection, seg: TcpSegment)
    requires c.Valid() && UsesAck(c, seg)
    ensures Answers(TakeBoth(c, seg), Handle(c, seg))
  {
    match Dispatch(c)
    case InEstablished =>
    case Otherwise =>
    case _ =>
  }

  lemma UnackedAnswers(c: Connection, seg: TcpSegment)
    requires c.Valid() && c.active && !seg.header.rst && !UsesAck(c, seg)
    ensures Handle(c, seg) == c || Answers(TakeSegment(c, seg), Handle(c, seg))
  {
    match Dispatch(c)
    case InListen =>
    case InSynSent =>
    case _ =>
  }

  /** Outside LISTEN and SYN-SENT the peer's SYN was received. */
  lemma SynKnown(c: Connection)
    requires Core(c) && Dispatch(c) != InListen && Dispatch(c) != InSynSent
    ensures c.sender.next > 0 && c.receiver.synReceived
  {
    NothingInFlightIff(c.sender);
  }

  lemma HandleKeeps(c: Connection, seg: TcpSegment)
    requires Core(c) && Reasoned(c) && Settled(c) && c.active && LegalSegment(c, seg) && !seg.header.rst
    ensures Inv(Handle(c, seg)) && Emits(c.out, Handle(c, seg))
  {
    var h := seg.header;
    match Dispatch(c)
    case InListen =>
      if h.syn {
        TakeSegmentKeeps(c, seg);
        FillKeeps(TakeSegment(c, seg));
        SendDataKeeps(Fill(TakeSegment(c, seg)));
      }
    case InSynSent =>
      if h.syn && h.ack {
        TakeBothKeeps(c, seg);
        EmptyAndSend(TakeBoth(c, seg));
      } else if h.syn {
        TakeSegmentKeeps(c, seg);
        EmptyAndSend(TakeSegment(c, seg));
      }
    case InSynRcvd =>
      TakeBothKeeps(c, seg);
    case _ =>
      SynKnown(c);
      HandleSynchronized(c, seg);
  }

  lemma EmptyAndSend(c: Connection)
    requires Core(c) && Reasoned(c)
    ensures Inv(SendData(QueueEmpty(c))) && Emits(c.out, SendData(QueueEmpty(c)))
  {
    QueueEmptyKeeps(c);
    SendDataKeeps(QueueEmpty(c));
  }

  lemma FillAndSend(c: Connection)
    requires Core(c) && Reasoned(c)
    ensures Inv(SendData(Fill(c))) && Emits(c.out, SendData(Fill(c)))
  {
    FillKeeps(c);
    SendDataKeeps(Fill(c));
  }

  lemma HandleSynchronized(c: Connection, seg: TcpSegment)
    requires Core(c) && Reasoned(c) && Settled(c) && c.active && LegalSegment(c, seg) && !seg.header.rst
    requires c.sender.next > 0 && c.receiver.synReceived
    requires Dispatch(c) != InListen && Dispatch(c) != InSynSent && Dispatch(c) != InSynRcvd
    ensures Inv(Handle(c, seg)) && Emits(c.out, Handle(c, seg))
  {
    if UsesAck(c, seg) {
      var c1 := TakeBoth(c, seg);
      TakeBothKeeps(c, seg);
      match Dispatch(c)
      case InEstablished =>
        QueueEmptyKeeps(c1);
        FillAndSend(if seg.LengthInSequenceSpace() > 0 then QueueEmpty(c1) else c1);
      case InFinWait1 =>
        EmptyAndSend(c1);
        SendDataKeeps(c1);
      case InFinWait2 => EmptyAndSend(c1);
      case InTimeWait => EmptyAndSend(c1);
      case Otherwise => FillAndSend(c1);
    }
  }

  /** Restarting the clock of the last segment changes nothing else. */
  lemma RestartedDispatch(c: Connection)
    requires c.Valid()
    ensures Dispatch(c.(sinceReceived := 0)) == Dispatch(c)
  {
  }

  lemma RestartedUse(c: Connection, seg: TcpSegment)
    requires c.Valid()
    ensures UsesAck(c.(sinceReceived := 0), seg) == UsesAck(c, seg)
    ensures LegalSegment(c.(sinceReceived := 0), seg) == LegalSegment(c, seg)
  {
    RestartedDispatch(c);
  }

  lemma RestartedClock(c: Connection, seg: TcpSegment)
    requires Inv(c) && c.active
    ensures Inv(c.(sinceReceived := 0))
    ensures LegalSegment(c.(sinceReceived := 0), seg) == LegalSegment(c, seg)
  {
    RestartedUse(c, seg);
  }

  /** An arriving segment. */
  lemma SegmentKeepsInv(c: Connection, seg: TcpSegment)
    requires Inv(c) && LegalSegment(c, seg)
    ensures Inv(SegmentReceived(c, seg)) && Emits(c.out, SegmentReceived(c, seg))
  {
    if c.active {
      var c1 := c.(sinceReceived := 0);
      RestartedClock(c, seg);
      if seg.header.rst {
        SetErrorsKeeps(c1);
      } else {
        HandleKeeps(c1, seg);
      }
    }
  }

  lemma SetErrorsKeeps(c: Connection)
    requires Core(c)
    ensures Inv(SetErrors(c)) && SetErrors(c).Failed()
  {
    GrowthKeepsTiling(c.sender, c.sender.stream.(error := true));
  }

  /** A tick of the sender inside the connection. */
  function Elapse(c: Connection, ms: nat): (c': Connection)
    requires c.Valid()
    ensures c'.Valid()
  {
    c.(sinceReceived := c.sinceReceived + ms, sender := TcpSenders.Tick(c.sender, ms))
  }

  lemma TickStaysPlain(s: Sender, ms: nat)
    requires Tiling(s) && Plain(s.out)
    ensures Plain(TcpSenders.Tick(s, ms).out)
  {
    if s.cache != map[] {
      var bs :| Tiled(s, bs);
      var k := OrderedMaps.Least(s.cache.Keys);
      assert Fills(s.isn, s.stream, s.cache[k], k);
    }
  }

  lemma ElapseKeepsCore(c: Connection, ms: nat)
    requires Core(c)
    ensures Core(Elapse(c, ms))
  {
    var s := TcpSenders.Tick(c.sender, ms);
    SameTiling(c.sender, s);
    TickStaysPlain(c.sender, ms);
    TickKeepsTimer(c.sender, ms, Expired(c.sender.defaultRto, c.sender.retx) + c.sender.time);
  }

  lemma TickKeepsInv(c: Connection, ms: nat)
    requires Inv(c)
    ensures Inv(TcpConnections.Tick(c, ms)) && Emits(c.out, TcpConnections.Tick(c, ms))
  {
    if c.active {
      var c1 := Elapse(c, ms);
      ElapseKeepsCore(c, ms);
      if c1.sender.retx > MAX_RETX_ATTEMPTS {
        SetErrorsKeeps(c1.(out := c1.out + [RST_SEGMENT]));
      } else {
        SendDataKeeps(c1);
      }
    }
  }

  lemma ConnectKeepsInv(c: Connection)
    requires Inv(c)
    ensures Inv(Connect(c)) && Emits(c.out, Connect(c))
  {
    FillAndSend(c);
  }

  lemma StreamKeeps(c: Connection, stream: Stream)
    requires Inv(c) && stream.Valid()
    requires Grows(c.sender.stream, stream) && stream.nread == c.sender.stream.nread
    requires stream.error == c.sender.stream.error
    requires !c.active && !c.Failed() ==> stream == c.sender.stream
    ensures var c' := SendData(Fill(c.(sender := c.sender.(stream := stream)))); Inv(c') && Emits(c.out, c')
  {
    var c1 := c.(sender := c.sender.(stream := stream));
    GrowthKeepsTiling(c.sender, stream);
    NothingInFlightIff(c.sender);
    StartedFillKeeps(c, c1);
    SendDataKeeps(Fill(c1));
  }

  /** Filling after the stream grew: the FIN may be due only after the fill. */
  lemma StartedFillKeeps(c: Connection, c1: Connection)
    requires Inv(c) && Halves(c1) && Coupled(c1) && Reasoned(c1)
    requires c1 == c.(sender := c.sender.(stream := c1.sender.stream))
    requires !c.active && !c.Failed() ==> c1 == c
    ensures Core(Fill(c1)) && Reasoned(Fill(c1))
  {
    var news := FillSends(c1.sender);
    FillKeepsTimer(c1.sender);
    NothingInFlightIff(c1.sender);
    if c1 == c {
      FillKeeps(c);
    }
  }

  lemma WriteKeepsInv(c: Connection, data: seq<byte>)
    requires Inv(c) && !c.sender.stream.ended
    ensures Inv(Write(c, data)) && Emits(c.out, Write(c, data))
  {
    if data != [] {
      StreamKeeps(c, c.sender.stream.Write(data));
    }
  }

  lemma EndInputKeepsInv(c: Connection)
    requires Inv(c)
    ensures Inv(EndInput(c)) && Emits(c.out, EndInput(c))
  {
    StreamKeeps(c, c.sender.stream.(ended := true));
  }

  lemma ReadKeepsInv(c: Connection, len: nat)
    requires Inv(c)
    ensures Inv(ReadInbound(c, len)) && Emits(c.out, ReadInbound(c, len))
  {
  }
}
