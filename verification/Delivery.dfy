/** What one side's receiver makes of the segments the other side's sender sent: the bytes it
    has are a prefix of the bytes sent, whatever was lost, repeated or reordered on the way. */
module Deliveries {
  import opened Numbers
  import opened WrappingIntegers
  import opened ByteStreams
  import opened StreamReassemblers
  import opened ReassemblerProofs
  import opened ReassemblyRuns
  import opened TcpSegments
  import Rx = TcpReceivers
  import opened TcpSenders
  import opened SenderProofs

  /** The longest stream considered: its numbers stay clear of 2^63. */
  const LONGEST: nat := 0x4000_0000_0000_0000

  /** The bytes that left the sender's stream. */
  function SentBytes(s: Sender): seq<byte>
    requires s.Valid()
  {
    s.stream.log[..s.stream.nread]
  }

  predicate EofKnown(r: Rx.Receiver) { r.reassembler.eofIdx != NO_EOF }

  ghost predicate SenderGood(s: Sender) { Counted(s) && |s.stream.log| <= LONGEST }

  /** The receiver's stream is a prefix of what was sent, its cache holds pieces of it, and it
      knows of the end only if the FIN was sent. */
  ghost predicate ReceiverSafe(s: Sender, r: Rx.Receiver)
    requires s.Valid()
  {
    && Rx.Inv(r)
    && Safe(r.reassembler, SentBytes(s), EofKnown(r))
    && (EofKnown(r) ==> FinSent(s))
    && (r.synReceived ==> r.isn == s.isn && s.next > 0)
  }

  /** What the receiver has is part of what was written, and all of it once it has ended. */
  lemma ReceiverSafeMeans(s: Sender, r: Rx.Receiver)
    requires SenderGood(s) && ReceiverSafe(s, r)
    ensures r.Out().log <= s.stream.log
    ensures r.Out().ended ==> s.stream.ended && r.Out().log == s.stream.log
    ensures r.synReceived ==> r.AbsAckno() <= s.next
    ensures |r.Out().log| <= LONGEST
  {
  }

  // ----- later states of the sender -----

  /** `s'` is a later state of the sender `s`. */
  ghost predicate LaterSender(s: Sender, s': Sender) {
    && s.Valid() && s'.Valid() && Counted(s) && Counted(s')
    && s'.isn == s.isn && s.next <= s'.next && Grows(s.stream, s'.stream)
    && s.stream.nread <= s'.stream.nread
  }

  lemma SafeGrows(r: Reassembler, stream: seq<byte>, stream': seq<byte>, eofSeen: bool)
    requires Safe(r, stream, eofSeen) && stream <= stream' && (eofSeen ==> stream' == stream)
    ensures Safe(r, stream', eofSeen)
  {
    forall k | k in r.segments ensures Piece(stream', k, r.segments[k]) {
      assert Piece(stream, k, r.segments[k]);
    }
  }

  lemma LaterKeepsSafe(s: Sender, s': Sender, r: Rx.Receiver)
    requires LaterSender(s, s') && ReceiverSafe(s, r)
    ensures ReceiverSafe(s', r)
  {
    assert SentBytes(s) <= SentBytes(s');
    SafeGrows(r.reassembler, SentBytes(s), SentBytes(s'), EofKnown(r));
  }

  // ----- a segment arrives -----

  /** A segment after the SYN is a proper push of the bytes sent. */
  lemma DeliveredIsProper(s: Sender, seg: TcpSegment, lo: nat, hi: nat)
    requires Counted(s) && Occupies(s.isn, s.stream, seg, lo, hi) && hi <= s.next && lo > 0
    ensures Proper(PushOp(seg.payload, lo - 1, seg.header.fin), SentBytes(s))
    ensures seg.header.fin ==> FinSent(s)
  {
    var p := |seg.payload|;
    assert lo - 1 + p <= s.stream.nread;
    assert SentBytes(s)[lo - 1..lo - 1 + p] == s.stream.log[lo - 1..lo - 1 + p];
  }

  /** A push learns the end of the stream from its mark alone. */
  lemma PushLearnsEof(re: Reassembler, data: seq<byte>, index: nat, eof: bool)
    requires re.output.Valid()
    ensures Push(re, data, index, eof).eofIdx == if eof then index + |data| else re.eofIdx
  {
  }

  lemma PushedStaysSafe(s: Sender, r: Rx.Receiver, data: seq<byte>, index: nat, eof: bool)
    requires SenderGood(s) && ReceiverSafe(s, r) && Proper(PushOp(data, index, eof), SentBytes(s))
    ensures var re := Push(r.reassembler, data, index, eof);
            && Safe(re, SentBytes(s), EofKnown(r) || eof)
            && Advances(re.output, r.Out())
            && (re.eofIdx != NO_EOF <==> EofKnown(r) || eof)
  {
    PushIsSafe(r.reassembler, SentBytes(s), EofKnown(r), data, index, eof);
    PushKeepsWellFormed(r.reassembler, data, index, eof);
    PushLearnsEof(r.reassembler, data, index, eof);
  }

  lemma PushKeepsReceiver(s: Sender, r: Rx.Receiver, data: seq<byte>, index: nat, eof: bool)
    requires SenderGood(s) && ReceiverSafe(s, r) && r.synReceived
    requires Proper(PushOp(data, index, eof), SentBytes(s)) && (eof ==> FinSent(s))
    ensures var re := Push(r.reassembler, data, index, eof);
            ReceiverSafe(s, r.(reassembler := re, checkpoint := |re.output.log|))
  {
    PushedStaysSafe(s, r, data, index, eof);
  }

  lemma AcceptedKeeps(s: Sender, r: Rx.Receiver, seg: TcpSegment, lo: nat, hi: nat)
    requires SenderGood(s) && ReceiverSafe(s, r) && r.synReceived
    requires Occupies(s.isn, s.stream, seg, lo, hi) && hi <= s.next && lo > 0
    requires Rx.StreamIndex(r, seg) == lo
    ensures ReceiverSafe(s, Rx.Accept(r, seg))
  {
    DeliveredIsProper(s, seg, lo, hi);
    Rx.IndexOfPayload(r, seg, lo);
    PushKeepsReceiver(s, r, seg.payload, lo - 1, seg.header.fin);
  }

  /** The SYN, coming again after it was received, holds nothing wanted. */
  lemma SynNotWanted(r: Rx.Receiver, seg: TcpSegment)
    requires Rx.Inv(r) && Rx.Short(r) && r.synReceived
    requires Rx.StreamIndex(r, seg) == 0 && seg.LengthInSequenceSpace() == 1
    ensures !Rx.Wanted(r, seg)
  {
    Rx.RecomputedAckno(r);
  }

  /** Delivering the SYN, for the first time or again. */
  lemma SynDelivered(s: Sender, r: Rx.Receiver, seg: TcpSegment, hi: nat)
    requires SenderGood(s) && ReceiverSafe(s, r)
    requires Occupies(s.isn, s.stream, seg, 0, hi) && hi <= s.next
    requires Unwrap(seg.header.seqno, s.isn, r.checkpoint) == 0
    ensures ReceiverSafe(s, Rx.SegmentReceived(r, seg))
    ensures Rx.SegmentReceived(r, seg) == Rx.TakeSyn(r, seg.header)
  {
    var r1 := Rx.TakeSyn(r, seg.header);
    assert seg.header.seqno == Wrap(0, s.isn) == s.isn;
    assert |r.Out().log| <= LONGEST;
    SynNotWanted(r1, seg);
  }

  /** Whatever was sent at `lo`, and is read as sent at `lo`, keeps the receiver consistent with
      the sender, for the first time or again. */
  lemma DeliveryKeepsSafe(s: Sender, r: Rx.Receiver, seg: TcpSegment, lo: nat, hi: nat)
    requires SenderGood(s) && ReceiverSafe(s, r)
    requires Occupies(s.isn, s.stream, seg, lo, hi) && hi <= s.next
    requires Unwrap(seg.header.seqno, s.isn, r.checkpoint) == lo
    ensures ReceiverSafe(s, Rx.SegmentReceived(r, seg))
  {
    if lo == 0 {
      SynDelivered(s, r, seg, hi);
    } else if r.synReceived && !r.Out().ended && Rx.Wanted(r, seg) {
      AcceptedKeeps(s, r, seg, lo, hi);
    }
  }

  /** A segment that holds no sequence number may leave an empty substring in the cache, which
      stands for nothing. */
  lemma EmptyKeepsSafe(s: Sender, r: Rx.Receiver, seg: TcpSegment)
    requires SenderGood(s) && ReceiverSafe(s, r)
    requires seg.LengthInSequenceSpace() == 0
    ensures ReceiverSafe(s, Rx.SegmentReceived(r, seg))
  {
    assert Proper(PushOp([], Rx.PayloadIndex(r, seg), false), SentBytes(s));
    if r.synReceived && !r.Out().ended && Rx.Wanted(r, seg) {
      PushKeepsReceiver(s, r, [], Rx.PayloadIndex(r, seg), false);
    }
  }

  /** Receiving never lowers what is acknowledged, nor forgets the SYN. */
  lemma DeliveryIsLater(r: Rx.Receiver, seg: TcpSegment)
    requires Rx.Inv(r)
    ensures var r' := Rx.SegmentReceived(r, seg);
            && r.AbsAckno() <= r'.AbsAckno()
            && (r.synReceived ==> r'.synReceived && r'.isn == r.isn)
  {
    Rx.ReceiveKeepsInv(r, seg);
  }
}
