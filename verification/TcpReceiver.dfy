/** The receiving half of a TCP endpoint: from sequence numbers to stream indexes, and the
    acknowledgment number and window to advertise. */
module TcpReceivers {
  import opened Numbers
  import opened WrappingIntegers
  import opened ByteStreams
  import opened StreamReassemblers
  import opened ReassemblerProofs
  import opened ReassemblyMemory
  import ReassemblyRuns
  import opened TcpSegments

  datatype Receiver = Receiver(reassembler: Reassembler, isn: u32, synReceived: bool, checkpoint: nat) {
    predicate Valid() { reassembler.output.Valid() }
    function Out(): Stream { reassembler.output }
    function WindowSize(): nat requires Valid() { Out().RemainingCapacity() }

    /** The absolute number of the next byte wanted: the SYN, the bytes written, the FIN. */
    function AbsAckno(): nat { |Out().log| + 1 + (if Out().ended then 1 else 0) }

    function Ackno(): Option<u32> {
      if synReceived then Some(Wrap(AbsAckno(), isn)) else None
    }
  }

  function FreshReceiver(capacity: nat): Receiver {
    Receiver(Fresh(capacity), 0, false, 0)
  }

  function TakeSyn(r: Receiver, h: TcpHeader): Receiver {
    if h.syn && !r.synReceived then r.(synReceived := true, isn := h.seqno) else r
  }

  /** The absolute sequence number of a segment, as the receiver reads it. */
  function StreamIndex(r: Receiver, seg: TcpSegment): nat {
    Unwrap(seg.header.seqno, r.isn, r.checkpoint)
  }

  /** Some of the segment is new and it starts inside the window. */
  predicate Wanted(r: Receiver, seg: TcpSegment)
    requires r.Valid() && r.synReceived
  {
    var at := StreamIndex(r, seg);
    var absAckno := Unwrap(r.Ackno().value, r.isn, r.checkpoint);
    !(at + seg.LengthInSequenceSpace() <= absAckno || at >= absAckno + r.WindowSize())
  }

  /** Where the payload goes in the stream: the SYN takes no index there. The subtraction is
      on unsigned 64-bit numbers. */
  function PayloadIndex(r: Receiver, seg: TcpSegment): nat {
    var at := StreamIndex(r, seg);
    if seg.header.syn then at else (at - 1) % TWO64
  }

  /** After the SYN the index is one less than the sequence number. */
  lemma IndexOfPayload(r: Receiver, seg: TcpSegment, at: nat)
    requires StreamIndex(r, seg) == at && 0 < at < TWO64 && !seg.header.syn
    ensures PayloadIndex(r, seg) == at - 1
  {
  }

  /** Before it the unsigned subtraction wraps around. */
  lemma IndexWraps(r: Receiver, seg: TcpSegment)
    requires StreamIndex(r, seg) == 0 && !seg.header.syn
    ensures PayloadIndex(r, seg) == TWO64 - 1
  {
  }

  function Accept(r: Receiver, seg: TcpSegment): (r': Receiver)
    requires r.Valid()
    ensures r'.Valid()
  {
    var re := Push(r.reassembler, seg.payload, PayloadIndex(r, seg), seg.header.fin);
    r.(reassembler := re, checkpoint := |re.output.log|)
  }

  function SegmentReceived(r: Receiver, seg: TcpSegment): (r': Receiver)
    requires r.Valid()
    ensures r'.Valid()
  {
    var r1 := TakeSyn(r, seg.header);
    if r1.synReceived && !r1.Out().ended && Wanted(r1, seg) then Accept(r1, seg) else r1
  }

  function Take(r: Receiver, len: nat): (r': Receiver)
    requires r.Valid()
    ensures r'.Valid()
  {
    r.(reassembler := r.reassembler.(output := r.Out().Pop(len)))
  }

  // ----- what every receiver state keeps -----

  ghost predicate Inv(r: Receiver) {
    && WellFormed(r.reassembler)
    && r.checkpoint == |r.Out().log|
    && (!r.synReceived ==> r.Out().log == [] && r.reassembler.segments == map[] && !r.Out().ended)
  }

  /** The inbound stream is short enough for 64-bit sequence numbers. */
  predicate Short(r: Receiver) { |r.Out().log| + 2 < TWO63 }

  lemma ReceiveKeepsInv(r: Receiver, seg: TcpSegment)
    requires Inv(r)
    ensures Inv(SegmentReceived(r, seg))
    ensures Advances(SegmentReceived(r, seg).Out(), r.Out())
    ensures r.synReceived ==> SegmentReceived(r, seg).synReceived && SegmentReceived(r, seg).isn == r.isn
  {
    var r1 := TakeSyn(r, seg.header);
    if r1.synReceived && !r1.Out().ended && Wanted(r1, seg) {
      PushKeepsWellFormed(r1.reassembler, seg.payload, PayloadIndex(r1, seg), seg.header.fin);
    }
  }

  /** The acknowledgment number the receiver recomputes from its own 32-bit ackno is
      1 + bytes assembled, + 1 once the stream has ended. */
  lemma RecomputedAckno(r: Receiver)
    requires Inv(r) && Short(r) && r.synReceived
    ensures Unwrap(r.Ackno().value, r.isn, r.checkpoint) ==
              1 + |r.Out().log| + (if r.Out().ended then 1 else 0)
  {
    UnwrapWrap(r.AbsAckno(), r.isn, r.checkpoint);
  }

  /** Acknowledgments never go backwards. */
  lemma AcknoIsMonotone(r: Receiver, seg: TcpSegment)
    requires Inv(r)
    ensures r.AbsAckno() <= SegmentReceived(r, seg).AbsAckno()
  {
    ReceiveKeepsInv(r, seg);
  }

  // ----- the memory bound -----

  /** Nothing is cached more than `slack` bytes past the window. */
  ghost predicate Bounded(r: Receiver, slack: nat)
    requires r.Valid()
  {
    EndsBy(r.reassembler.segments, r.Out().nread + r.Out().capacity + slack)
  }

  /** A segment without SYN claims the SYN's own sequence number, with enough payload to
      reach past the ackno: its stream index wraps around below zero. */
  predicate Underflows(r: Receiver, seg: TcpSegment) {
    && r.synReceived && !r.Out().ended && !seg.header.syn
    && StreamIndex(r, seg) == 0
    && seg.LengthInSequenceSpace() > r.AbsAckno()
  }

  lemma BoundGivesSize(r: Receiver, slack: nat)
    requires Inv(r) && Bounded(r, slack)
    ensures UnassembledBytes(r.reassembler.segments) <= r.WindowSize() + slack
  {
    var m, hi := r.reassembler.segments, r.Out().nread + r.Out().capacity + slack;
    UnassembledIsCount(m, hi);
    forall i | Covered(m, i) ensures r.reassembler.assembleIdx <= i {
      var k :| Has(m, k, i);
    }
    CountBelow(m, r.reassembler.assembleIdx, hi);
  }

  lemma PushStaysBelow(r: Reassembler, data: seq<byte>, index: nat, eof: bool, hi: nat)
    requires WellFormed(r) && EndsBy(r.segments, hi)
    requires index > r.assembleIdx ==> index + |data| <= hi
    ensures EndsBy(Push(r, data, index, eof).segments, hi)
  {
    if index > r.assembleIdx {
      MergeStaysBelow(r.segments, index, data, hi);
    }
  }

  /** What the window test lets through starts within the window, unless its index wraps. */
  lemma WantedStartsInside(r: Receiver, seg: TcpSegment)
    requires Inv(r) && Short(r) && r.synReceived && !r.Out().ended
    requires Wanted(r, seg) && !Underflows(r, seg)
    ensures PayloadIndex(r, seg) <= r.Out().nread + r.Out().capacity
  {
    RecomputedAckno(r);
    if !seg.header.syn {
      IndexOfPayload(r, seg, StreamIndex(r, seg));
    }
  }

  lemma ReceiveStaysBounded(r: Receiver, seg: TcpSegment, slack: nat)
    requires Inv(r) && Short(r) && Bounded(r, slack) && |seg.payload| <= slack
    requires !Underflows(r, seg)
    ensures Bounded(SegmentReceived(r, seg), slack)
  {
    var r1 := TakeSyn(r, seg.header);
    ReceiveKeepsInv(r, seg);
    if r1.synReceived && !r1.Out().ended && Wanted(r1, seg) {
      WantedStartsInside(r1, seg);
      PushStaysBelow(r1.reassembler, seg.payload, PayloadIndex(r1, seg), seg.header.fin,
                     r.Out().nread + r.Out().capacity + slack);
    }
  }

  /** The window test bounds where the cache ends exactly when the segment's index does not wrap. */
  lemma BoundedIffNoUnderflow(r: Receiver, seg: TcpSegment, slack: nat)
    requires Inv(r) && Short(r) && Bounded(r, slack) && |seg.payload| <= slack
    requires r.Out().nread + r.Out().capacity + slack < TWO64
    ensures Bounded(SegmentReceived(r, seg), slack) <==> !Underflows(r, seg)
  {
    if Underflows(r, seg) {
      UnderflowCaches(r, seg);
      ReceiveKeepsInv(r, seg);
      var m := r.reassembler.segments;
      MergeIsExact(m, TWO64 - 1, seg.payload, TWO64 - 1);
      var k :| Has(MergeSegments(m, TWO64 - 1, seg.payload), k, TWO64 - 1);
      assert k in SegmentReceived(r, seg).reassembler.segments;
    } else {
      ReceiveStaysBounded(r, seg, slack);
    }
  }

  /** A segment whose index wraps is cached at the highest 64-bit index. */
  lemma UnderflowCaches(r: Receiver, seg: TcpSegment)
    requires Inv(r) && Short(r) && Underflows(r, seg)
    requires r.Out().nread + r.Out().capacity < TWO64
    ensures var r' := SegmentReceived(r, seg);
            && r'.reassembler.segments == MergeSegments(r.reassembler.segments, TWO64 - 1, seg.payload)
            && r'.Out() == r.Out() && seg.payload != []
  {
    RecomputedAckno(r);
    IndexWraps(r, seg);
    FarPush(r.reassembler, seg.payload, TWO64 - 1, seg.header.fin);
  }

  /** A push past the assembled index is merged into the cache. */
  lemma FarPush(r: Reassembler, data: seq<byte>, index: nat, eof: bool)
    requires r.output.Valid() && index > r.assembleIdx
    ensures Push(r, data, index, eof).segments == MergeSegments(r.segments, index, data)
    ensures Push(r, data, index, eof).output == r.output
  {
  }

  /** At most one payload more than the window is waiting. */
  ghost predicate WithinMemory(r: Receiver, slack: nat)
    requires r.Valid()
  {
    UnassembledBytes(r.reassembler.segments) <= r.WindowSize() + slack
  }

  /** The segment reaches the reassembler: it is not refused by the tests before the push. */
  predicate Accepted(r: Receiver, seg: TcpSegment)
    requires r.Valid()
  {
    var r1 := TakeSyn(r, seg.header);
    r1.synReceived && !r1.Out().ended && Wanted(r1, seg)
  }

  /** Everything assembled and cached after a segment, from what was there before. */
  ghost function SizeAfterSegment(r: Receiver, seg: TcpSegment): nat
    requires r.Valid()
  {
    if Accepted(r, seg) then SizeAfter(r.reassembler, seg.payload, PayloadIndex(TakeSyn(r, seg.header), seg))
    else Size(r.reassembler)
  }

  lemma WithinMemoryIsSize(r: Receiver, slack: nat)
    requires Inv(r)
    ensures WithinMemory(r, slack) <==> Size(r.reassembler) <= ReassemblyRuns.WindowEnd(r.reassembler) + slack
  {
  }

  lemma SegmentSize(r: Receiver, seg: TcpSegment)
    requires Inv(r)
    ensures Size(SegmentReceived(r, seg).reassembler) == SizeAfterSegment(r, seg)
  {
    var r1 := TakeSyn(r, seg.header);
    if Accepted(r, seg) {
      PushSize(r1.reassembler, seg.payload, PayloadIndex(r1, seg), seg.header.fin);
    }
  }

  /** In whatever state it comes: the memory bound holds after a segment exactly when what it
      adds, wrapped index or not, fits. */
  lemma WithinMemoryIff(r: Receiver, seg: TcpSegment, slack: nat)
    requires Inv(r)
    ensures WithinMemory(SegmentReceived(r, seg), slack) <==>
              SizeAfterSegment(r, seg) <= ReassemblyRuns.WindowEnd(r.reassembler) + slack
  {
    ReceiveKeepsInv(r, seg);
    SegmentSize(r, seg);
    WithinMemoryIsSize(SegmentReceived(r, seg), slack);
  }

  /** From a state whose cache ends within a payload of the window: the memory bound holds after
      a segment exactly when its index does not wrap, or its payload fits all the same. */
  lemma BoundedStaysWithinIff(r: Receiver, seg: TcpSegment, slack: nat)
    requires Inv(r) && Short(r) && Bounded(r, slack) && |seg.payload| <= slack
    requires r.Out().nread + r.Out().capacity + slack < TWO64
    ensures WithinMemory(SegmentReceived(r, seg), slack) <==>
              || !Underflows(r, seg)
              || UnassembledBytes(r.reassembler.segments) + |seg.payload| <= r.WindowSize() + slack
  {
    if Underflows(r, seg) {
      var m, at := r.reassembler.segments, TWO64 - 1;
      UnderflowCaches(r, seg);
      MergeAdds(m, at, seg.payload);
      AllMissing(m, at, at + |seg.payload|);
    } else {
      ReceiveKeepsInv(r, seg);
      ReceiveStaysBounded(r, seg, slack);
      BoundGivesSize(SegmentReceived(r, seg), slack);
    }
  }

  /** A receiver with room for two bytes that has the peer's SYN. */
  function Opened(isn: u32): Receiver {
    FreshReceiver(2).(synReceived := true, isn := isn)
  }

  function Carrying(seqno: u32, payload: seq<byte>): TcpSegment {
    TcpSegment(EMPTY_HEADER.(seqno := seqno), payload)
  }

  lemma GapIsAccepted(isn: u32, data: seq<byte>)
    requires |data| == 3
    ensures var r, seg := Opened(isn), Carrying(Wrap(2, isn), data);
            SegmentReceived(r, seg) == Accept(r, seg) && StreamIndex(r, seg) == 2 && PayloadIndex(r, seg) == 1
  {
    var r, seg := Opened(isn), Carrying(Wrap(2, isn), data);
    UnwrapWrap(2, isn, 0);
    RecomputedAckno(r);
    IndexOfPayload(r, seg, 2);
  }

  /** Three bytes from number 2 on, one missing before them, are cached whole. */
  lemma GapIsCached(isn: u32, data: seq<byte>)
    requires |data| == 3
    ensures var r := SegmentReceived(Opened(isn), Carrying(Wrap(2, isn), data));
            && Inv(r) && Bounded(r, 3) && r.Out() == FreshReceiver(2).Out()
            && r.synReceived && r.isn == isn && UnassembledBytes(r.reassembler.segments) == 3
  {
    var r0, seg := Opened(isn), Carrying(Wrap(2, isn), data);
    var m := r0.reassembler.segments;
    GapIsAccepted(isn, data);
    FarPush(r0.reassembler, data, 1, false);
    ReceiveKeepsInv(r0, seg);
    ReceiveStaysBounded(r0, seg, 3);
    NothingUnassembled(m);
    MergeAdds(m, 1, data);
    AllMissing(m, 1, 4);
  }

  /** The memory bound does fail: then three bytes that claim the SYN's number make six bytes
      wait where two and a payload of three were allowed. */
  lemma MemoryIsExceeded(isn: u32, data: seq<byte>)
    requires |data| == 3
    ensures var r := SegmentReceived(Opened(isn), Carrying(Wrap(2, isn), data));
            && WithinMemory(r, 3)
            && !WithinMemory(SegmentReceived(r, Carrying(Wrap(0, isn), data)), 3)
  {
    var r := SegmentReceived(Opened(isn), Carrying(Wrap(2, isn), data));
    GapIsCached(isn, data);
    UnwrapWrap(0, isn, 0);
    BoundedStaysWithinIff(r, Carrying(Wrap(0, isn), data), 3);
  }

  datatype ReceiverOp = Deliver(seg: TcpSegment) | TakeBytes(len: nat)

  function Step(r: Receiver, op: ReceiverOp): (r': Receiver)
    requires r.Valid()
    ensures r'.Valid()
  {
    match op
    case Deliver(seg) => SegmentReceived(r, seg)
    case TakeBytes(len) => Take(r, len)
  }

  /** The operation brings at most `slack` bytes, and the stream is short. */
  predicate Plausible(r: Receiver, op: ReceiverOp, slack: nat) {
    Short(r) && (op.Deliver? ==> |op.seg.payload| <= slack)
  }

  /** Operation number `i` was plausible and led from state `i` to the next one. */
  ghost predicate StepAt(ops: seq<ReceiverOp>, rs: seq<Receiver>, slack: nat, i: nat) {
    && i < |ops| && i + 1 < |rs| && rs[i].Valid()
    && Plausible(rs[i], ops[i], slack)
    && rs[i + 1] == Step(rs[i], ops[i])
  }

  /** `rs` are the states of a run on the operations `ops`. */
  ghost predicate IsRun(capacity: nat, ops: seq<ReceiverOp>, rs: seq<Receiver>, slack: nat) {
    && |rs| == |ops| + 1
    && rs[0] == FreshReceiver(capacity)
    && (forall i: nat :: i < |ops| ==> StepAt(ops, rs, slack, i))
    && (forall i :: 0 <= i < |rs| ==> rs[i].Valid())
  }

  /** Operation number `i` delivers a segment whose index wraps. */
  predicate UnderflowAt(ops: seq<ReceiverOp>, rs: seq<Receiver>, i: nat)
    requires i < |ops| < |rs|
  {
    ops[i].Deliver? && Underflows(rs[i], ops[i].seg)
  }

  lemma {:induction false} RunKeepsInv(capacity: nat, ops: seq<ReceiverOp>, rs: seq<Receiver>, slack: nat, n: nat)
    requires IsRun(capacity, ops, rs, slack) && n <= |ops|
    ensures Inv(rs[n]) && rs[n].Out().capacity == capacity
  {
    if n > 0 {
      RunKeepsInv(capacity, ops, rs, slack, n - 1);
      assert StepAt(ops, rs, slack, n - 1);
      if ops[n - 1].Deliver? {
        ReceiveKeepsInv(rs[n - 1], ops[n - 1].seg);
      }
    }
  }

  lemma StepStaysBounded(r: Receiver, op: ReceiverOp, slack: nat)
    requires Inv(r) && Plausible(r, op, slack) && Bounded(r, slack)
    requires op.Deliver? ==> !Underflows(r, op.seg)
    ensures Bounded(Step(r, op), slack)
  {
    if op.Deliver? {
      ReceiveStaysBounded(r, op.seg, slack);
    }
  }

  lemma {:induction false} RunStaysBounded(capacity: nat, ops: seq<ReceiverOp>, rs: seq<Receiver>, slack: nat, n: nat)
    requires IsRun(capacity, ops, rs, slack) && n <= |ops|
    requires forall i: nat :: i < n ==> !UnderflowAt(ops, rs, i)
    ensures Bounded(rs[n], slack)
  {
    if n > 0 {
      RunStaysBounded(capacity, ops, rs, slack, n - 1);
      RunKeepsInv(capacity, ops, rs, slack, n - 1);
      assert StepAt(ops, rs, slack, n - 1) && !UnderflowAt(ops, rs, n - 1);
      StepStaysBounded(rs[n - 1], ops[n - 1], slack);
    }
  }

  /** The window test bounds the memory of the reassembler, which itself enforces no limit:
      whatever arrives and whatever the application reads, as long as no index wraps at most
      one payload more than the window is waiting. */
  lemma MemoryIsBounded(capacity: nat, ops: seq<ReceiverOp>, rs: seq<Receiver>, slack: nat)
    requires IsRun(capacity, ops, rs, slack)
    requires forall i: nat :: i < |ops| ==> !UnderflowAt(ops, rs, i)
    ensures WithinMemory(rs[|ops|], slack)
  {
    RunStaysBounded(capacity, ops, rs, slack, |ops|);
    RunKeepsInv(capacity, ops, rs, slack, |ops|);
    BoundGivesSize(rs[|ops|], slack);
  }

  /** What operation number `i` adds fits; reading always does. */
  ghost predicate FitsAt(ops: seq<ReceiverOp>, rs: seq<Receiver>, slack: nat, i: nat)
    requires i < |ops| < |rs| && rs[i].Valid()
  {
    ops[i].Deliver? ==> SizeAfterSegment(rs[i], ops[i].seg) <= ReassemblyRuns.WindowEnd(rs[i].reassembler) + slack
  }

  lemma StepStaysWithinIff(capacity: nat, ops: seq<ReceiverOp>, rs: seq<Receiver>, slack: nat, i: nat)
    requires IsRun(capacity, ops, rs, slack) && i < |ops| && WithinMemory(rs[i], slack)
    ensures WithinMemory(rs[i + 1], slack) <==> FitsAt(ops, rs, slack, i)
  {
    RunKeepsInv(capacity, ops, rs, slack, i);
    assert StepAt(ops, rs, slack, i);
    if ops[i].Deliver? {
      WithinMemoryIff(rs[i], ops[i].seg, slack);
    }
  }

  lemma {:induction false} FittingStaysWithin(capacity: nat, ops: seq<ReceiverOp>, rs: seq<Receiver>, slack: nat, n: nat)
    requires IsRun(capacity, ops, rs, slack) && n <= |ops|
    requires forall i: nat :: i < n ==> FitsAt(ops, rs, slack, i)
    ensures WithinMemory(rs[n], slack)
  {
    if n == 0 {
      NothingUnassembled(map[]);
    } else {
      FittingStaysWithin(capacity, ops, rs, slack, n - 1);
      StepStaysWithinIff(capacity, ops, rs, slack, n - 1);
    }
  }

  /** In every run, the memory bound holds in all states exactly when what each segment adds
      fits where it arrives. */
  lemma RunIsWithinIff(capacity: nat, ops: seq<ReceiverOp>, rs: seq<Receiver>, slack: nat)
    requires IsRun(capacity, ops, rs, slack)
    ensures (forall n: nat :: n <= |ops| ==> WithinMemory(rs[n], slack)) <==>
              forall i: nat :: i < |ops| ==> FitsAt(ops, rs, slack, i)
  {
    if forall i: nat :: i < |ops| ==> FitsAt(ops, rs, slack, i) {
      forall n: nat | n <= |ops| ensures WithinMemory(rs[n], slack) {
        FittingStaysWithin(capacity, ops, rs, slack, n);
      }
    } else {
      var i: nat :| i < |ops| && !FitsAt(ops, rs, slack, i);
      if WithinMemory(rs[i], slack) {
        StepStaysWithinIff(capacity, ops, rs, slack, i);
        assert !WithinMemory(rs[i + 1], slack);
      }
    }
  }

  /** In every run, the cache ends within a payload of the window in all states exactly when no
      segment's index wraps. */
  lemma RunIsBoundedIff(capacity: nat, ops: seq<ReceiverOp>, rs: seq<Receiver>, slack: nat)
    requires IsRun(capacity, ops, rs, slack) && capacity + slack < TWO63
    ensures (forall n: nat :: n <= |ops| ==> Bounded(rs[n], slack)) <==>
              forall i: nat :: i < |ops| ==> !UnderflowAt(ops, rs, i)
  {
    if forall i: nat :: i < |ops| ==> !UnderflowAt(ops, rs, i) {
      forall n: nat | n <= |ops| ensures Bounded(rs[n], slack) {
        RunStaysBounded(capacity, ops, rs, slack, n);
      }
    } else {
      var i: nat :| i < |ops| && UnderflowAt(ops, rs, i);
      RunKeepsInv(capacity, ops, rs, slack, i);
      assert StepAt(ops, rs, slack, i);
      if Bounded(rs[i], slack) {
        BoundedIffNoUnderflow(rs[i], ops[i].seg, slack);
        assert !Bounded(rs[i + 1], slack);
      }
    }
  }
}
