/** One sender and one receiver over a network that may lose, duplicate and reorder whatever
    is sent, in both directions. */
module EndToEnd {
  import opened Numbers
  import opened WrappingIntegers
  import opened ByteStreams
  import opened StreamReassemblers
  import opened ReassemblerProofs
  import opened ReassemblyRuns
  import opened TcpSegments
  import Rx = TcpReceivers
  import opened TcpSenders
  import opened SenderProofs
  import SenderRuns
  import opened Deliveries

  /** An ack under way. Its absolute number is not on the wire: it is kept to speak about. */
  datatype AckMessage = AckMessage(number: nat, ackno: u32, win: u16)

  /** Everything ever sent stays on the wire: a message not delivered is lost or late, one
      delivered twice is duplicated. */
  datatype System = System(sender: Sender, receiver: Rx.Receiver, wire: set<TcpSegment>, acks: set<AckMessage>)

  datatype Action =
    | AppWrite(data: seq<byte>)
    | AppEnd
    | FillAction
    | TickAction(ms: nat)
    | DeliverSegment(seg: TcpSegment)
    | SendAck
    | DeliverAck(ack: AckMessage)
    | AppRead(len: nat)

  predicate Valid(y: System) { y.sender.Valid() && y.receiver.Valid() }

  function Start(sendCapacity: nat, recvCapacity: nat, timeout: u16, isn: u32): System {
    System(FreshSender(sendCapacity, timeout, isn), Rx.FreshReceiver(recvCapacity), {}, {})
  }

  function Segments(segs: seq<TcpSegment>): set<TcpSegment> { set seg | seg in segs }

  /** The owner takes what the sender queued and sends it. */
  function Transmit(y: System, s: Sender): (y': System)
    requires Valid(y) && s.Valid()
    ensures Valid(y')
  {
    y.(sender := s.(out := []), wire := y.wire + Segments(s.out))
  }

  function CurrentAck(r: Rx.Receiver): AckMessage
    requires r.Valid()
  {
    AckMessage(r.AbsAckno(), Wrap(r.AbsAckno(), r.isn), r.WindowSize() % TWO16)
  }

  function Act(y: System, a: Action): (y': System)
    requires Valid(y)
    ensures Valid(y')
  {
    var s, r := y.sender, y.receiver;
    match a
    case AppWrite(data) => y.(sender := s.(stream := s.stream.Write(data)))
    case AppEnd => y.(sender := s.(stream := s.stream.(ended := true)))
    case FillAction => Transmit(y, FillWindow(s))
    case TickAction(ms) => Transmit(y, Tick(s, ms))
    case DeliverSegment(seg) => y.(receiver := Rx.SegmentReceived(r, seg))
    case SendAck => if r.synReceived then y.(acks := y.acks + {CurrentAck(r)}) else y
    case DeliverAck(ack) => Transmit(y, AckReceived(s, ack.ackno, ack.win))
    case AppRead(len) => y.(receiver := Rx.Take(r, len))
  }

  /** `seg` was sent at a number no more than 2^31 before the receiver's checkpoint. */
  ghost predicate RecentSegment(y: System, seg: TcpSegment) {
    exists lo: nat, hi: nat ::
      Occupies(y.sender.isn, y.sender.stream, seg, lo, hi) && hi <= y.sender.next &&
      y.receiver.checkpoint <= lo + TWO31
  }

  /** The ack was sent when the receiver wanted a number less than 2^31 before the sender's next. */
  predicate RecentAck(y: System, ack: AckMessage) {
    y.sender.next < ack.number + TWO31
  }

  /** The ack is one the receiver could have sent before. */
  predicate Acknowledges(y: System, ack: AckMessage) {
    && ack.ackno == Wrap(ack.number, y.sender.isn)
    && 1 <= ack.number <= y.receiver.AbsAckno() && y.receiver.synReceived
  }

  /** What the applications and the network do: no write after the end, streams below 2^62
      bytes, and only messages that were sent, none of them older than half the number space. */
  ghost predicate Possible(y: System, a: Action)
    requires Valid(y)
  {
    match a
    case AppWrite(data) => !y.sender.stream.ended && |y.sender.stream.Write(data).log| <= LONGEST
    case DeliverSegment(seg) => seg in y.wire && RecentSegment(y, seg)
    case DeliverAck(ack) => ack in y.acks && RecentAck(y, ack)
    case _ => true
  }

  /** Action number `i` was possible and led from state `i` to the next one. */
  ghost predicate StepAt(acts: seq<Action>, ys: seq<System>, i: nat) {
    && i < |acts| && i + 1 < |ys| && Valid(ys[i])
    && Possible(ys[i], acts[i])
    && ys[i + 1] == Act(ys[i], acts[i])
  }

  /** `ys` are the states of a run from `start` on the actions `acts`. */
  ghost predicate IsRun(start: System, acts: seq<Action>, ys: seq<System>) {
    && |ys| == |acts| + 1
    && ys[0] == start
    && (forall i: nat :: i < |acts| ==> StepAt(acts, ys, i))
    && (forall i :: 0 <= i < |ys| ==> Valid(ys[i]))
  }

  // ----- the invariant -----

  ghost predicate SenderOk(s: Sender) {
    Tiling(s) && WindowBounded(s) && s.out == [] && |s.stream.log| <= LONGEST
  }

  /** The receiver is consistent with what was sent, and has all that was acknowledged. */
  ghost predicate ReceiverOk(s: Sender, r: Rx.Receiver)
    requires s.Valid()
  {
    && ReceiverSafe(s, r)
    && AckedUpTo(s) <= if r.synReceived then r.AbsAckno() else 0
  }

  ghost predicate WireOk(s: Sender, wire: set<TcpSegment>) {
    forall seg :: seg in wire ==> WasSent(s, seg)
  }

  ghost predicate WasSent(s: Sender, seg: TcpSegment) {
    exists lo: nat, hi: nat :: Occupies(s.isn, s.stream, seg, lo, hi) && hi <= s.next
  }

  ghost predicate AcksOk(y: System) {
    forall ack :: ack in y.acks ==> Acknowledges(y, ack)
  }

  ghost predicate Inv(y: System) {
    && SenderOk(y.sender)
    && ReceiverOk(y.sender, y.receiver)
    && WireOk(y.sender, y.wire)
    && AcksOk(y)
  }

  lemma StartInv(sendCapacity: nat, recvCapacity: nat, timeout: u16, isn: u32)
    ensures Inv(Start(sendCapacity, recvCapacity, timeout, isn))
  {
    FreshIsTiled(sendCapacity, timeout, isn);
  }

  // ----- the sender's side -----

  lemma LaterKeepsWire(s: Sender, s': Sender, wire: set<TcpSegment>)
    requires WireOk(s, wire) && LaterSender(s, s')
    ensures WireOk(s', wire)
  {
    forall seg | seg in wire ensures WasSent(s', seg) {
      assert WasSent(s, seg);
      var lo: nat, hi: nat :| Occupies(s.isn, s.stream, seg, lo, hi) && hi <= s.next;
      OccupiesGrows(s.isn, s.stream, s'.stream, seg, lo, hi);
    }
  }

  lemma LaterKeepsReceiver(s: Sender, s': Sender, r: Rx.Receiver)
    requires LaterSender(s, s') && ReceiverOk(s, r)
    requires AckedUpTo(s') <= if r.synReceived then r.AbsAckno() else 0
    ensures ReceiverOk(s', r)
  {
    LaterKeepsSafe(s, s', r);
  }

  lemma {:induction false} SequenceWasSent(s: Sender, segs: seq<TcpSegment>, lo: nat, hi: nat)
    requires Sequence(s.isn, s.stream, segs, lo, hi) && hi <= s.next
    ensures forall seg :: seg in segs ==> WasSent(s, seg)
    decreases |segs|
  {
    if segs != [] {
      var last, front := segs[|segs| - 1], segs[..|segs| - 1];
      var n := last.LengthInSequenceSpace();
      SequenceWasSent(s, front, lo, hi - n);
      assert Occupies(s.isn, s.stream, last, hi - n, hi);
      assert segs == front + [last];
    }
  }

  /** Sending `news` from a later state of the sender. */
  lemma TransmitKeepsInv(y: System, e: Sender)
    requires Inv(y) && LaterSender(y.sender, e)
    requires Tiling(e) && WindowBounded(e) && |e.stream.log| <= LONGEST
    requires forall seg :: seg in e.out ==> WasSent(e, seg)
    requires AckedUpTo(e) <= if y.receiver.synReceived then y.receiver.AbsAckno() else 0
    ensures Inv(Transmit(y, e))
  {
    var y' := Transmit(y, e);
    SameTiling(e, y'.sender);
    LaterKeepsReceiver(y.sender, y'.sender, y.receiver);
    LaterKeepsWire(y.sender, e, y.wire);
    forall seg | seg in y'.wire ensures WasSent(y'.sender, seg) {
      assert WasSent(e, seg);
      var lo: nat, hi: nat :| Occupies(e.isn, e.stream, seg, lo, hi) && hi <= e.next;
      assert Occupies(y'.sender.isn, y'.sender.stream, seg, lo, hi);
    }
    forall ack | ack in y'.acks ensures Acknowledges(y', ack) {
      assert Acknowledges(y, ack);
    }
  }

  /** What a fill leaves to transmit. */
  lemma FillIsSent(s: Sender)
    requires Tiling(s) && WindowBounded(s) && s.out == []
    ensures var e := FillWindow(s);
            && LaterSender(s, e) && Tiling(e) && WindowBounded(e)
            && e.stream.log == s.stream.log && AckedUpTo(e) == AckedUpTo(s)
            && forall seg :: seg in e.out ==> WasSent(e, seg)
  {
    var e := FillWindow(s);
    var news := FillSends(s);
    assert e.out == news;
    SequenceWasSent(e, news, s.next, e.next);
  }

  lemma FillKeepsInv(y: System)
    requires Inv(y)
    ensures Inv(Act(y, FillAction)) && Act(y, FillAction).sender.isn == y.sender.isn
  {
    FillIsSent(y.sender);
    TransmitKeepsInv(y, FillWindow(y.sender));
  }

  lemma TickIsSent(s: Sender, ms: nat)
    requires Tiling(s) && s.out == []
    ensures var e := Tick(s, ms);
            && LaterSender(s, e) && Tiling(e) && AckedUpTo(e) == AckedUpTo(s)
            && e.stream == s.stream && e.bif == s.bif
            && forall seg :: seg in e.out ==> WasSent(e, seg)
  {
    var e := Tick(s, ms);
    SameTiling(s, e);
    if s.cache != map[] {
      var lo := SenderRuns.OldestOccupies(s);
      SenderRuns.TickSendsOldest(s, ms);
      var seg := s.cache[SenderRuns.Oldest(s)];
      assert Occupies(e.isn, e.stream, seg, lo, SenderRuns.Oldest(s));
      assert WasSent(e, seg);
    }
  }

  lemma TickKeepsInv(y: System, ms: nat)
    requires Inv(y)
    ensures Inv(Act(y, TickAction(ms))) && Act(y, TickAction(ms)).sender.isn == y.sender.isn
  {
    TickIsSent(y.sender, ms);
    TransmitKeepsInv(y, Tick(y.sender, ms));
  }

  lemma DeliverAckKeepsInv(y: System, ack: AckMessage)
    requires Inv(y) && Possible(y, DeliverAck(ack))
    ensures Inv(Act(y, DeliverAck(ack))) && Act(y, DeliverAck(ack)).sender.isn == y.sender.isn
  {
    var s := y.sender;
    AckIsSentBytes(y);
    OffsetOfWraps(s.next, ack.number, s.isn);
    var e := AckReceived(s, ack.ackno, ack.win);
    var news := AckKeepsTiling(s, ack.ackno, ack.win);
    assert e.out == news;
    SequenceWasSent(e, news, s.next, e.next);
    TransmitKeepsInv(y, e);
  }

  /** No ack exceeds the sender's next number. */
  lemma AckIsSentBytes(y: System)
    requires Inv(y)
    ensures y.receiver.synReceived ==> y.receiver.AbsAckno() <= y.sender.next
  {
  }

  lemma StreamKeepsInv(y: System, stream: Stream)
    requires Inv(y) && Grows(y.sender.stream, stream) && stream.Valid()
    requires stream.nread == y.sender.stream.nread && |stream.log| <= LONGEST
    ensures Inv(y.(sender := y.sender.(stream := stream)))
  {
    var s' := y.sender.(stream := stream);
    var y' := y.(sender := s');
    GrowthKeepsTiling(y.sender, stream);
    LaterKeepsReceiver(y.sender, s', y.receiver);
    LaterKeepsWire(y.sender, s', y.wire);
    forall ack | ack in y'.acks ensures Acknowledges(y', ack) {
      assert Acknowledges(y, ack);
    }
  }

  // ----- the receiver's side -----

  /** The receiver reads a delivered segment's sequence number as the number it was sent at:
      it is not too old by assumption, and not too far ahead by the window bound. */
  lemma DeliveredNumber(y: System, seg: TcpSegment, lo: nat, hi: nat)
    requires Inv(y) && Occupies(y.sender.isn, y.sender.stream, seg, lo, hi) && hi <= y.sender.next
    requires y.receiver.checkpoint <= lo + TWO31
    ensures Unwrap(seg.header.seqno, y.sender.isn, y.receiver.checkpoint) == lo
  {
    assert y.sender.next <= AckedUpTo(y.sender) + 0xffff;
    assert |SentBytes(y.sender)| <= LONGEST;
    UnwrapWrap(lo, y.sender.isn, y.receiver.checkpoint);
  }

  lemma DeliveryKeepsReceiver(y: System, seg: TcpSegment)
    requires Inv(y) && Possible(y, DeliverSegment(seg))
    ensures ReceiverOk(y.sender, Rx.SegmentReceived(y.receiver, seg))
    ensures var r' := Rx.SegmentReceived(y.receiver, seg);
            && y.receiver.AbsAckno() <= r'.AbsAckno()
            && (y.receiver.synReceived ==> r'.synReceived)
  {
    var s, r := y.sender, y.receiver;
    var lo, hi := RecentAt(y, seg);
    DeliveredNumber(y, seg, lo, hi);
    DeliveryKeepsSafe(s, r, seg, lo, hi);
    DeliveryIsLater(r, seg);
  }

  lemma DeliveryKeepsInv(y: System, seg: TcpSegment)
    requires Inv(y) && Possible(y, DeliverSegment(seg))
    ensures Inv(Act(y, DeliverSegment(seg))) && Act(y, DeliverSegment(seg)).sender.isn == y.sender.isn
  {
    var y' := Act(y, DeliverSegment(seg));
    DeliveryKeepsReceiver(y, seg);
    forall ack | ack in y'.acks ensures Acknowledges(y', ack) {
      assert Acknowledges(y, ack);
    }
  }

  lemma SendAckKeepsInv(y: System)
    requires Inv(y)
    ensures Inv(Act(y, SendAck)) && Act(y, SendAck).sender.isn == y.sender.isn
  {
    var y' := Act(y, SendAck);
    forall ack | ack in y'.acks ensures Acknowledges(y', ack) {
      assert ack in y.acks ==> Acknowledges(y, ack);
    }
  }

  lemma ReadKeepsInv(y: System, len: nat)
    requires Inv(y)
    ensures Inv(Act(y, AppRead(len))) && Act(y, AppRead(len)).sender.isn == y.sender.isn
  {
    var y' := Act(y, AppRead(len));
    forall ack | ack in y'.acks ensures Acknowledges(y', ack) {
      assert Acknowledges(y, ack);
    }
  }

  lemma ActKeepsInv(y: System, a: Action)
    requires Inv(y) && Possible(y, a)
    ensures Inv(Act(y, a)) && Act(y, a).sender.isn == y.sender.isn
  {
    match a
    case AppWrite(data) => StreamKeepsInv(y, y.sender.stream.Write(data));
    case AppEnd => StreamKeepsInv(y, y.sender.stream.(ended := true));
    case FillAction => FillKeepsInv(y);
    case TickAction(ms) => TickKeepsInv(y, ms);
    case DeliverSegment(seg) => DeliveryKeepsInv(y, seg);
    case SendAck => SendAckKeepsInv(y);
    case DeliverAck(ack) => DeliverAckKeepsInv(y, ack);
    case AppRead(len) => ReadKeepsInv(y, len);
  }

  lemma {:induction false} RunKeepsInv(start: System, acts: seq<Action>, ys: seq<System>, n: nat)
    requires IsRun(start, acts, ys) && Inv(start) && n <= |acts|
    ensures Inv(ys[n]) && ys[n].sender.isn == start.sender.isn
  {
    if n > 0 {
      RunKeepsInv(start, acts, ys, n - 1);
      assert StepAt(acts, ys, n - 1);
      ActKeepsInv(ys[n - 1], acts[n - 1]);
    }
  }

  /** End-to-end safety. In every run, whatever the network loses, duplicates or reorders: the
      receiver's stream is a prefix of what was written; it has ended only if the writer ended
      and everything written is there; no ack exceeds the sender's next number; and all that
      the sender takes for acknowledged was delivered. */
  lemma EndToEndSafety(sendCapacity: nat, recvCapacity: nat, timeout: u16, isn: u32, acts: seq<Action>, ys: seq<System>)
    requires IsRun(Start(sendCapacity, recvCapacity, timeout, isn), acts, ys)
    ensures var y := ys[|acts|];
            var written, received := y.sender.stream, y.receiver.Out();
            && received.log <= written.log
            && (received.ended ==> written.ended && received.log == written.log)
            && (y.receiver.synReceived ==> y.receiver.AbsAckno() <= y.sender.next)
            && (forall ack :: ack in y.acks ==>
                  ack.ackno == Wrap(ack.number, isn) && 1 <= ack.number <= y.sender.next)
            && AckedUpTo(y.sender) <= y.receiver.AbsAckno()
  {
    var y := ys[|acts|];
    StartInv(sendCapacity, recvCapacity, timeout, isn);
    RunKeepsInv(Start(sendCapacity, recvCapacity, timeout, isn), acts, ys, |acts|);
    AckIsSentBytes(y);
    forall ack | ack in y.acks ensures Acknowledges(y, ack) {
    }
  }

  // ----- progress -----

  /** A push that reaches the assembled index is in the output afterwards as far as it fits,
      and so is the end of the stream if the push had it and fits whole. */
  lemma PushAdvances(re: Reassembler, stream: seq<byte>, eofSeen: bool, data: seq<byte>, index: nat, eof: bool)
    requires |stream| < NO_EOF && Safe(re, stream, eofSeen) && Proper(PushOp(data, index, eof), stream)
    requires index <= re.assembleIdx <= index + |data|
    ensures var out := Push(re, data, index, eof).output;
            && |out.log| >= Min(index + |data|, WindowEnd(re))
            && (eof && index + |data| <= WindowEnd(re) ==> out.ended)
  {
    AssembleReaches(re, data, index, eof);
    PushKeepsWellFormed(re, data, index, eof);
    PushIsSafe(re, stream, eofSeen, data, index, eof);
    var log := Push(re, data, index, eof).output.log;
    assert log <= stream;
    assert eof && index + |data| <= WindowEnd(re) ==> log == stream;
  }

  /** A segment that starts at or before the ackno and reaches past it is taken as far as there
      is room. */
  lemma AcceptAdvances(s: Sender, r: Rx.Receiver, seg: TcpSegment, lo: nat, hi: nat)
    requires SenderGood(s) && ReceiverSafe(s, r) && r.synReceived && !r.Out().ended
    requires Occupies(s.isn, s.stream, seg, lo, hi) && hi <= s.next && 0 < lo <= r.AbsAckno() < hi
    requires Rx.StreamIndex(r, seg) == lo && r.WindowSize() > 0
    ensures Rx.Accept(r, seg).AbsAckno() > r.AbsAckno()
    ensures r.WindowSize() >= |seg.payload| ==> Rx.Accept(r, seg).AbsAckno() >= hi
  {
    DeliveredIsProper(s, seg, lo, hi);
    AcceptIsPush(r, seg, lo);
    assert hi == lo + |seg.payload| + (if seg.header.fin then 1 else 0);
    PushAdvancesAckno(r.reassembler, SentBytes(s), EofKnown(r), seg.payload, lo - 1, seg.header.fin);
  }

  lemma AcceptIsPush(r: Rx.Receiver, seg: TcpSegment, lo: nat)
    requires r.Valid() && Rx.StreamIndex(r, seg) == lo && 0 < lo < TWO64 && !seg.header.syn
    ensures Rx.Accept(r, seg).Out() == Push(r.reassembler, seg.payload, lo - 1, seg.header.fin).output
  {
    Rx.IndexOfPayload(r, seg, lo);
  }

  /** The ackno that goes with an output stream. */
  function AcknoOf(out: Stream): nat { |out.log| + 1 + (if out.ended then 1 else 0) }

  lemma PushAdvancesAckno(re: Reassembler, stream: seq<byte>, eofSeen: bool, data: seq<byte>, index: nat, eof: bool)
    requires |stream| < NO_EOF && Safe(re, stream, eofSeen) && Proper(PushOp(data, index, eof), stream)
    requires !re.output.ended && re.output.RemainingCapacity() > 0
    requires index <= |re.output.log| < index + |data| + (if eof then 1 else 0)
    ensures var out := Push(re, data, index, eof).output;
            && AcknoOf(out) > AcknoOf(re.output)
            && (re.output.RemainingCapacity() >= |data| ==> AcknoOf(out) >= index + |data| + 1 + (if eof then 1 else 0))
  {
    PushAdvances(re, stream, eofSeen, data, index, eof);
    assert WindowEnd(re) == |re.output.log| + re.output.RemainingCapacity();
  }

  /** Delivering the oldest outstanding segment to a receiver with any room raises the ackno,
      unless all of it was there; with room for it nothing of it is missing afterwards. */
  lemma OldestIsTaken(y: System, seg: TcpSegment, lo: nat)
    requires Inv(y) && y.sender.cache != map[] && seg == y.sender.cache[SenderRuns.Oldest(y.sender)]
    requires Occupies(y.sender.isn, y.sender.stream, seg, lo, SenderRuns.Oldest(y.sender))
    requires lo <= AckedUpTo(y.sender) && y.receiver.checkpoint <= lo + TWO31 && y.receiver.WindowSize() > 0
    ensures Taken(y.receiver, seg, SenderRuns.Oldest(y.sender))
  {
    var s, r, k := y.sender, y.receiver, SenderRuns.Oldest(y.sender);
    NothingInFlightIff(s);
    DeliveredNumber(y, seg, lo, k);
    DeliveryIsLater(r, seg);
    ReceiverSafeMeans(s, r);
    if lo == 0 {
      SynDelivered(s, r, seg, k);
    } else if r.AbsAckno() < k {
      assert !r.Out().ended;
      Rx.RecomputedAckno(r);
      assert Rx.Wanted(r, seg);
      AcceptAdvances(s, r, seg, lo, k);
    }
  }

  /** What delivering the segment that ends at `k` does to the receiver. */
  predicate Taken(r: Rx.Receiver, seg: TcpSegment, k: nat)
    requires r.Valid()
  {
    var r' := Rx.SegmentReceived(r, seg);
    && r'.synReceived
    && (!r.synReceived || r'.AbsAckno() > r.AbsAckno() || r.AbsAckno() >= k)
    && (r.WindowSize() >= |seg.payload| ==> r'.AbsAckno() >= k)
  }

  /** The next ack after that moves the sender on. */
  lemma AckAdvances(s: Sender, ack: AckMessage)
    requires Tiling(s) && WindowBounded(s) && Short(s) && s.cache != map[]
    requires ack.ackno == Wrap(ack.number, s.isn) && SenderRuns.Oldest(s) <= ack.number <= s.next
    ensures AckedUpTo(AckReceived(s, ack.ackno, ack.win)) == ack.number
  {
    var k := SenderRuns.Oldest(s);
    NothingInFlightIff(s);
    OffsetOfWraps(s.next, ack.number, s.isn);
    AckedUpToNumber(s, ack.ackno, k);
    AcknowledgeTiles(s, ack.ackno, ack.win);
    assert AckReceived(s, ack.ackno, ack.win) == FillWindow(Acknowledge(s, ack.ackno, ack.win));
    var news := FillSends(Acknowledge(s, ack.ackno, ack.win));
  }

  /** A retransmission that gets through makes progress. In every reachable state with something
      outstanding, delivering the oldest outstanding segment to a receiver with any room raises
      its ackno, unless it had all of it; and with room for the whole payload, once the ack sent
      then is delivered too, all of that segment is acknowledged, which it was not before. */
  lemma RetransmissionMakesProgress(start: System, acts: seq<Action>, ys: seq<System>)
    requires IsRun(start, acts, ys) && Inv(start) && ys[|acts|].sender.cache != map[]
    requires var y := ys[|acts|];
             var seg := y.sender.cache[SenderRuns.Oldest(y.sender)];
             Possible(y, DeliverSegment(seg)) && y.receiver.WindowSize() > 0
    ensures var y := ys[|acts|];
            var seg := y.sender.cache[SenderRuns.Oldest(y.sender)];
            var y1 := Act(Act(y, DeliverSegment(seg)), SendAck);
            var ack := CurrentAck(y1.receiver);
            && Taken(y.receiver, seg, SenderRuns.Oldest(y.sender))
            && (y.receiver.WindowSize() >= |seg.payload| ==>
                  && Possible(y1, DeliverAck(ack))
                  && AckedUpTo(y.sender) < SenderRuns.Oldest(y.sender) <= AckedUpTo(Act(y1, DeliverAck(ack)).sender))
  {
    var y := ys[|acts|];
    var seg := y.sender.cache[SenderRuns.Oldest(y.sender)];
    RunKeepsInv(start, acts, ys, |acts|);
    OldestGetsThrough(y, seg);
    DeliveryKeepsInv(y, seg);
    SendAckKeepsInv(Act(y, DeliverSegment(seg)));
    AckIsSentBytes(Act(y, DeliverSegment(seg)));
    if y.receiver.WindowSize() >= |seg.payload| {
      AckGetsThrough(Act(Act(y, DeliverSegment(seg)), SendAck));
    }
  }

  lemma AckGetsThrough(y: System)
    requires Inv(y) && y.sender.cache != map[] && y.receiver.synReceived
    requires SenderRuns.Oldest(y.sender) <= y.receiver.AbsAckno() <= y.sender.next && CurrentAck(y.receiver) in y.acks
    ensures var ack := CurrentAck(y.receiver);
            && Possible(y, DeliverAck(ack))
            && AckedUpTo(y.sender) < SenderRuns.Oldest(y.sender) <= AckedUpTo(Act(y, DeliverAck(ack)).sender)
  {
    NothingInFlightIff(y.sender);
    AckAdvances(y.sender, CurrentAck(y.receiver));
  }

  lemma SameNumber(x: nat, y: nat, isn: u32)
    requires Wrap(x, isn) == Wrap(y, isn) && -TWO31 <= x - y < TWO31
    ensures x == y
  {
    OffsetOfWraps(x, y, isn);
  }

  /** The number that makes the oldest segment recent is not past its own. */
  lemma OldestIsRecent(s: Sender, seg: TcpSegment, lo: nat, lo': nat, hi: nat)
    requires Tiling(s) && WindowBounded(s) && s.cache != map[] && lo <= AckedUpTo(s)
    requires Occupies(s.isn, s.stream, seg, lo, SenderRuns.Oldest(s)) && Occupies(s.isn, s.stream, seg, lo', hi) && hi <= s.next
    ensures lo' <= lo
  {
    NothingInFlightIff(s);
    if lo < lo' {
      assert hi - SenderRuns.Oldest(s) == lo' - lo;
      SameNumber(lo, lo', s.isn);
    }
  }

  lemma OldestGetsThrough(y: System, seg: TcpSegment)
    requires Inv(y) && y.sender.cache != map[] && seg == y.sender.cache[SenderRuns.Oldest(y.sender)]
    requires RecentSegment(y, seg) && y.receiver.WindowSize() > 0
    ensures Taken(y.receiver, seg, SenderRuns.Oldest(y.sender))
  {
    var lo := SenderRuns.OldestOccupies(y.sender);
    var lo', hi := RecentAt(y, seg);
    OldestIsRecent(y.sender, seg, lo, lo', hi);
    OldestIsTaken(y, seg, lo);
  }

  lemma RecentAt(y: System, seg: TcpSegment) returns (lo: nat, hi: nat)
    requires RecentSegment(y, seg)
    ensures Occupies(y.sender.isn, y.sender.stream, seg, lo, hi) && hi <= y.sender.next
    ensures y.receiver.checkpoint <= lo + TWO31
  {
    lo, hi :| Occupies(y.sender.isn, y.sender.stream, seg, lo, hi) && hi <= y.sender.next &&
      y.receiver.checkpoint <= lo + TWO31;
  }
}
