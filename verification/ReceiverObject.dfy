/** The receiver as an object: the part of its state that changes, and what is computed from it. */
module ReceiverObjects {
  import opened Numbers
  import opened WrappingIntegers
  import opened ByteStreams
  import opened ReassemblerObjects
  import opened TcpSegments
  import opened TcpReceivers
  import StreamReassemblers

  /** What an arriving segment keeps, in the form the method promises it. */
  lemma ReceiveKeeps(r: Receiver, seg: TcpSegment)
    requires r.Valid()
    ensures Inv(r) ==>
              var r' := TcpReceivers.SegmentReceived(r, seg);
              Inv(r') && r.AbsAckno() <= r'.AbsAckno()
  {
    if Inv(r) {
      ReceiveKeepsInv(r, seg);
      AcknoIsMonotone(r, seg);
    }
  }

  class TCPReceiver {
    const reassembler: StreamReassembler
    var isn: u32
    var synReceived: bool
    var checkpoint: nat

    ghost function Repr(): set<object> { {this} + reassembler.Repr() }

    ghost predicate Valid()
      reads Repr()
    {
      reassembler.Valid() && this !in reassembler.Repr()
    }

    ghost function State(): (r: Receiver)
      requires Valid()
      reads Repr()
      ensures r.Valid()
    {
      Receiver(reassembler.State(), isn, synReceived, checkpoint)
    }

    constructor (capacity: nat)
      ensures Valid() && fresh(Repr())
      ensures State() == FreshReceiver(capacity) && Inv(State())
    {
      reassembler := new StreamReassembler(capacity);
      isn, synReceived, checkpoint := 0, false, 0;
    }

    method Ackno() returns (ackno: Option<u32>)
      requires Valid()
      ensures ackno == State().Ackno()
    {
      var nextWrite := reassembler.output.writeCnt + 1;
      nextWrite := if reassembler.output.isEnd then nextWrite + 1 else nextWrite;
      ackno := if !synReceived then None else Some(Wrap(nextWrite, isn));
    }

    method WindowSize() returns (size: nat)
      requires Valid()
      ensures size == State().WindowSize()
    {
      size := reassembler.output.RemainingCapacity();
    }

    method SegmentReceived(seg: TcpSegment)
      requires Valid()
      modifies Repr()
      ensures Valid() && State() == TcpReceivers.SegmentReceived(old(State()), seg)
      ensures Inv(old(State())) ==> Inv(State()) && old(State()).AbsAckno() <= State().AbsAckno()
    {
      ReceiveKeeps(State(), seg);
      if seg.header.syn {
        if !synReceived {
          synReceived := true;
          isn := seg.header.seqno;
        }
      }
      assert State() == TakeSyn(old(State()), seg.header);
      var ackno := Ackno();
      if ackno.Some? && !reassembler.output.isEnd {
        var streamIndex := Unwrap(seg.header.seqno, isn, checkpoint);
        var wanted := IsWanted(seg, streamIndex, ackno.value);
        if !wanted {
          return;
        }
        if !seg.header.syn {
          streamIndex := (streamIndex - 1) % TWO64;
        }
        PushPayload(seg, streamIndex);
      }
    }

    method IsWanted(seg: TcpSegment, streamIndex: nat, ackno: u32) returns (wanted: bool)
      requires Valid() && synReceived
      requires streamIndex == StreamIndex(State(), seg) && Some(ackno) == State().Ackno()
      ensures wanted == Wanted(State(), seg)
    {
      var absAckno := Unwrap(ackno, isn, checkpoint);
      var size := WindowSize();
      wanted := !(streamIndex + seg.LengthInSequenceSpace() <= absAckno || streamIndex >= absAckno + size);
    }

    method PushPayload(seg: TcpSegment, index: nat)
      requires Valid()
      modifies Repr()
      ensures Valid()
      ensures var re := StreamReassemblers.Push(old(reassembler.State()), seg.payload, index, seg.header.fin);
              State() == old(State()).(reassembler := re, checkpoint := |re.output.log|)
    {
      reassembler.PushSubstring(seg.payload, index, seg.header.fin);
      checkpoint := reassembler.output.writeCnt;
    }

    method UnassembledBytes() returns (n: nat)
      requires Valid()
      ensures n == StreamReassemblers.UnassembledBytes(State().reassembler.segments)
    {
      n := reassembler.UnassembledBytes();
    }
  }
}
