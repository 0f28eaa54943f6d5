/** What the receiver lets in: every segment that holds a number between the ackno and the end
    of the window, all of it, and no other. */
module ReceiverWindows {
  import opened Numbers
  import opened WrappingIntegers
  import opened ByteStreams
  import opened StreamReassemblers
  import opened ReassemblerProofs
  import ReassemblyRuns
  import opened TcpSegments
  import opened TcpReceivers

  /** A receiver that can take data, and a segment that starts at number `lo`, near enough to
      what was received to be read right. */
  predicate StartsAt(r: Receiver, seg: TcpSegment, lo: nat) {
    && r.synReceived && !r.Out().ended
    && seg.header.seqno == Wrap(lo, r.isn) && lo < TWO63
    && -TWO31 <= lo - r.checkpoint < TWO31
  }

  /** Of the numbers from `lo` on that the segment holds, some are at or past the ackno, and
      they start within the window: as many numbers from the ackno on as the output has room. */
  predicate InWindow(r: Receiver, seg: TcpSegment, lo: nat) {
    var ackno := |r.Out().log| + 1;
    var room := r.Out().capacity - (|r.Out().log| - r.Out().nread);
    && ackno < lo + |seg.payload| + (if seg.header.syn then 1 else 0) + (if seg.header.fin then 1 else 0)
    && lo < ackno + room
  }

  lemma WantedIffInWindow(r: Receiver, seg: TcpSegment, lo: nat)
    requires Inv(r) && Short(r) && StartsAt(r, seg, lo)
    ensures StreamIndex(r, seg) == lo
    ensures Wanted(r, seg) <==> InWindow(r, seg, lo)
  {
    UnwrapWrap(lo, r.isn, r.checkpoint);
    RecomputedAckno(r);
  }

  /** The stream index of the segment's first byte: one less than its number, the SYN having
      none. For a segment without SYN that claims number 0 the 64-bit subtraction wraps. */
  function FirstIndex(seg: TcpSegment, lo: nat): nat {
    if seg.header.syn then lo else if lo == 0 then 0xffff_ffff_ffff_ffff else lo - 1
  }

  /** The window test is exact: a segment within the window is pushed into the reassembler at
      its own place, with the FIN as the mark of the end; one outside it changes nothing. */
  lemma WindowTestIsExact(r: Receiver, seg: TcpSegment, lo: nat)
    requires Inv(r) && Short(r) && StartsAt(r, seg, lo)
    ensures SegmentReceived(r, seg) ==
              if InWindow(r, seg, lo) then
                var pushed := Push(r.reassembler, seg.payload, FirstIndex(seg, lo), seg.header.fin);
                r.(reassembler := pushed, checkpoint := |pushed.output.log|)
              else r
  {
    WantedIffInWindow(r, seg, lo);
    AcceptsAsWanted(r, seg);
    PushedAtItsPlace(r, seg, lo);
  }

  lemma AcceptsAsWanted(r: Receiver, seg: TcpSegment)
    requires r.Valid() && r.synReceived && !r.Out().ended
    ensures SegmentReceived(r, seg) == if Wanted(r, seg) then Accept(r, seg) else r
  {
  }

  lemma PushedAtItsPlace(r: Receiver, seg: TcpSegment, lo: nat)
    requires StreamIndex(r, seg) == lo && lo < TWO63
    ensures PayloadIndex(r, seg) == FirstIndex(seg, lo)
  {
    if !seg.header.syn && lo > 0 {
      IndexOfPayload(r, seg, lo);
    }
  }

  /** So of a segment within the window every byte is kept: it is in the output afterwards or
      waits in the cache, unless it lies past what the output can hold in a segment that
      continues the output. */
  lemma WindowIsKept(r: Receiver, seg: TcpSegment, lo: nat, i: nat)
    requires Inv(r) && Short(r) && StartsAt(r, seg, lo) && 0 < lo && !seg.header.syn
    requires lo < r.AbsAckno() + r.WindowSize() && lo + seg.LengthInSequenceSpace() > r.AbsAckno()
    requires lo - 1 <= i < lo - 1 + |seg.payload|
    ensures var r' := SegmentReceived(r, seg);
            || i < |r'.Out().log| || Covered(r'.reassembler.segments, i)
            || (lo <= r.AbsAckno() && i >= |r.Out().log| + r.WindowSize())
  {
    WindowTestIsExact(r, seg, lo);
    var re, at := r.reassembler, lo - 1;
    if at > re.assembleIdx {
      FarPush(re, seg.payload, at, seg.header.fin);
      MergeIsExact(re.segments, at, seg.payload, i);
    } else {
      ReassemblyRuns.AssembleReaches(re, seg.payload, at, seg.header.fin);
      PushKeepsWellFormed(re, seg.payload, at, seg.header.fin);
    }
  }

  /** What goes straight to the output is the segment's own: the bytes from the ackno on. */
  lemma WindowIsDelivered(r: Receiver, seg: TcpSegment, lo: nat, i: nat)
    requires Inv(r) && Short(r) && StartsAt(r, seg, lo) && 0 < lo <= r.AbsAckno() && !seg.header.syn
    requires |r.Out().log| <= i < lo - 1 + |seg.payload| && i < |r.Out().log| + r.WindowSize()
    ensures var out := SegmentReceived(r, seg).Out(); i < |out.log| && out.log[i] == seg.payload[i - (lo - 1)]
  {
    WindowTestIsExact(r, seg, lo);
    PushDelivers(r.reassembler, seg.payload, lo - 1, seg.header.fin, i);
  }

  lemma PushDelivers(re: Reassembler, data: seq<byte>, at: nat, eof: bool, i: nat)
    requires WellFormed(re) && at <= re.assembleIdx <= i < at + |data| && i < ReassemblyRuns.WindowEnd(re)
    ensures var out := Push(re, data, at, eof).output; i < |out.log| && out.log[i] == data[i - at]
  {
    var out := ReassemblyRuns.Written(re, data, at);
    WrittenAt(re, data, at, i);
    ReassemblyRuns.AssembleIsFlush(re, data, at, eof);
    FlushAllKeeps(re.segments, out);
    assert out.log <= Push(re, data, at, eof).output.log;
  }

  lemma WrittenAt(re: Reassembler, data: seq<byte>, at: nat, i: nat)
    requires WellFormed(re) && at <= re.assembleIdx <= i < at + |data| && i < ReassemblyRuns.WindowEnd(re)
    ensures var out := ReassemblyRuns.Written(re, data, at); i < |out.log| && out.log[i] == data[i - at]
  {
    var rest := data[re.assembleIdx - at..];
    assert rest[i - re.assembleIdx] == data[i - at];
  }

  /** Before the SYN nothing is taken, and after the end nothing more. */
  lemma ClosedTakesNothing(r: Receiver, seg: TcpSegment)
    requires r.Valid()
    ensures !r.synReceived && !seg.header.syn ==> SegmentReceived(r, seg) == r
    ensures r.synReceived && r.Out().ended ==> SegmentReceived(r, seg) == r
  {
  }

  /** The first SYN gives the initial number, and the bytes that come with it start the stream. */
  lemma FirstSynStarts(r: Receiver, seg: TcpSegment)
    requires Inv(r) && !r.synReceived && seg.header.syn && r.Out().capacity > 0
    ensures var r' := SegmentReceived(r, seg);
            var pushed := Push(r.reassembler, seg.payload, 0, seg.header.fin);
            && r'.synReceived && r'.isn == seg.header.seqno
            && r'.reassembler == (if seg.payload != [] || seg.header.fin then pushed else r.reassembler)
            && r'.checkpoint == |r'.Out().log|
  {
    var r1 := TakeSyn(r, seg.header);
    var seqno: u32 := seg.header.seqno;
    assert Wrap(0, seqno) == seqno;
    WantedIffInWindow(r1, seg, 0);
  }
}
