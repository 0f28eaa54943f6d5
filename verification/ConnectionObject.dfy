/** The connection as an object: it drives its sender and receiver objects and moves what the
    sender queues to its own outbound queue. */
module ConnectionObjects {
  import opened Numbers
  import opened ByteStreams
  import opened TcpSegments
  import opened SenderObjects
  import opened ReceiverObjects
  import TcpSenders
  import opened TcpConnections
  import ConnectionProofs
  import ConnectionReplies

  /** `c` with the first `n` queued segments of its sender on the wire. */
  ghost function Forwarded(c: Connection, n: nat): (c': Connection)
    requires c.Valid() && n <= |c.sender.out|
    ensures c'.Valid()
  {
    c.(out := c.out + StampAll(c.receiver, c.sender.out[..n]), sender := c.sender.(out := c.sender.out[n..]))
  }

  lemma ForwardMore(c: Connection, n: nat)
    requires c.Valid() && n < |c.sender.out|
    ensures var c1 := Forwarded(c, n);
            Forwarded(c, n + 1) == c1.(out := c1.out + [TcpConnections.Stamp(c.receiver, c.sender.out[n])],
                                       sender := c1.sender.(out := c1.sender.out[1..]))
  {
    assert c.sender.out[..n + 1][..n] == c.sender.out[..n];
  }

  // What each operation keeps, in the form the methods promise it.

  lemma ArrivalKeeps(c: Connection, seg: TcpSegment)
    requires c.Valid()
    ensures ConnectionProofs.Inv(c) && ConnectionProofs.LegalSegment(c, seg) ==>
              ConnectionProofs.Inv(TcpConnections.SegmentReceived(c, seg))
    ensures Answerable(c, seg) ==> ConnectionReplies.Acknowledges(c, TcpConnections.SegmentReceived(c, seg))
  {
    if ConnectionProofs.Inv(c) && ConnectionProofs.LegalSegment(c, seg) {
      ConnectionProofs.SegmentKeepsInv(c, seg);
      if Answerable(c, seg) {
        ConnectionReplies.DueIsAcknowledged(c, seg);
      }
    }
  }

  /** A segment that is due an answer in the state it meets. */
  ghost predicate Answerable(c: Connection, seg: TcpSegment)
    requires c.Valid()
  {
    && ConnectionProofs.Inv(c) && c.active && ConnectionProofs.LegalSegment(c, seg)
    && !seg.header.rst && ConnectionReplies.Due(c, seg)
  }

  lemma WriteKeeps(c: Connection, data: seq<byte>)
    requires c.Valid()
    ensures ConnectionProofs.Inv(c) && !c.sender.stream.ended ==> ConnectionProofs.Inv(TcpConnections.Write(c, data))
  {
    if ConnectionProofs.Inv(c) && !c.sender.stream.ended {
      ConnectionProofs.WriteKeepsInv(c, data);
    }
  }

  lemma ElapseKeeps(c: Connection, ms: nat)
    requires c.Valid()
    ensures ConnectionProofs.Inv(c) ==> ConnectionProofs.Inv(TcpConnections.Tick(c, ms))
  {
    if ConnectionProofs.Inv(c) {
      ConnectionProofs.TickKeepsInv(c, ms);
    }
  }

  lemma EndKeeps(c: Connection)
    requires c.Valid()
    ensures ConnectionProofs.Inv(c) ==> ConnectionProofs.Inv(TcpConnections.EndInput(c))
  {
    if ConnectionProofs.Inv(c) {
      ConnectionProofs.EndInputKeepsInv(c);
    }
  }

  lemma ConnectKeeps(c: Connection)
    requires c.Valid()
    ensures ConnectionProofs.Inv(c) ==> ConnectionProofs.Inv(TcpConnections.Connect(c))
  {
    if ConnectionProofs.Inv(c) {
      ConnectionProofs.ConnectKeepsInv(c);
    }
  }

  class TCPConnection {
    const rtTimeout: u16
    const receiver: TCPReceiver
    const sender: TCPSender
    var segmentsOut: seq<TcpSegment>
    var lingerAfterStreamsFinish: bool
    var timeSinceLastSegmentReceived: nat
    var active: bool

    ghost function Repr(): set<object> { {this} + receiver.Repr() + sender.Repr() }

    ghost predicate Valid()
      reads Repr()
    {
      && receiver.Valid() && sender.Valid()
      && receiver.Repr() !! sender.Repr()
      && this !in receiver.Repr() && this !in sender.Repr()
    }

    ghost function State(): (c: Connection)
      requires Valid()
      reads Repr()
      ensures c.Valid()
    {
      Connection(rtTimeout, receiver.State(), sender.State(), segmentsOut, lingerAfterStreamsFinish,
                 timeSinceLastSegmentReceived, active)
    }

    constructor (rtTimeout: u16, recvCapacity: nat, sendCapacity: nat, isn: u32)
      ensures Valid() && fresh(Repr())
      ensures State() == FreshConnection(rtTimeout, recvCapacity, sendCapacity, isn)
      ensures ConnectionProofs.Inv(State())
    {
      this.rtTimeout := rtTimeout;
      receiver := new TCPReceiver(recvCapacity);
      sender := new TCPSender(sendCapacity, rtTimeout, isn);
      segmentsOut, lingerAfterStreamsFinish := [], true;
      timeSinceLastSegmentReceived, active := 0, true;
      ConnectionProofs.FreshInv(rtTimeout, recvCapacity, sendCapacity, isn);
    }

    // ----- steps shared by the operations -----

    method TakeAck(seg: TcpSegment)
      requires Valid()
      modifies sender.Repr()
      ensures Valid() && State() == TcpConnections.TakeAck(old(State()), seg)
    {
      sender.AckReceived(seg.header.ackno, seg.header.win);
    }

    method TakeSegment(seg: TcpSegment)
      requires Valid()
      modifies receiver.Repr()
      ensures Valid() && State() == TcpConnections.TakeSegment(old(State()), seg)
    {
      receiver.SegmentReceived(seg);
    }

    method TakeBoth(seg: TcpSegment)
      requires Valid()
      modifies Repr()
      ensures Valid() && State() == TcpConnections.TakeBoth(old(State()), seg)
    {
      TakeAck(seg);
      TakeSegment(seg);
    }

    method QueueEmpty()
      requires Valid()
      modifies sender.Repr()
      ensures Valid() && State() == TcpConnections.QueueEmpty(old(State()))
    {
      sender.SendEmptySegment();
    }

    method Fill()
      requires Valid()
      modifies sender.Repr()
      ensures Valid() && State() == TcpConnections.Fill(old(State()))
    {
      sender.FillWindow();
    }

    method Stamp(seg: TcpSegment) returns (stamped: TcpSegment)
      requires Valid()
      ensures stamped == TcpConnections.Stamp(receiver.State(), seg)
    {
      stamped := seg;
      var ackno := receiver.Ackno();
      if ackno.Some? {
        var size := receiver.WindowSize();
        stamped := seg.(header := seg.header.(ack := true, ackno := ackno.value, win := size % TWO16));
      }
    }

    method ForwardOne()
      requires Valid() && sender.segmentsOut != []
      modifies this`segmentsOut, sender`segmentsOut
      ensures Valid()
      ensures var c := old(State());
              State() == c.(out := c.out + [TcpConnections.Stamp(c.receiver, c.sender.out[0])],
                            sender := c.sender.(out := c.sender.out[1..]))
    {
      var stamped := Stamp(sender.segmentsOut[0]);
      sender.segmentsOut := sender.segmentsOut[1..];
      segmentsOut := segmentsOut + [stamped];
    }

    /** Move the sender's queue to the wire, one segment at a time. */
    method Drain()
      requires Valid()
      modifies this`segmentsOut, sender`segmentsOut
      ensures Valid() && State() == TcpConnections.Drain(old(State()))
    {
      ghost var c := State();
      ghost var n := 0;
      while sender.segmentsOut != []
        invariant Valid() && n <= |c.sender.out|
        invariant State() == Forwarded(c, n)
        decreases |sender.segmentsOut|
      {
        ForwardMore(c, n);
        ForwardOne();
        n := n + 1;
      }
      assert c.sender.out[..n] == c.sender.out;
    }

    method SendData()
      requires Valid()
      modifies Repr()
      ensures Valid() && State() == TcpConnections.SendData(old(State()))
    {
      Drain();
      CloseIfDone();
    }

    method CloseIfDone()
      requires Valid()
      modifies this`lingerAfterStreamsFinish, this`active
      ensures Valid() && State() == TcpConnections.CloseIfDone(old(State()))
    {
      if receiver.reassembler.output.isEnd {
        var eof := sender.stream.Eof();
        if !eof {
          lingerAfterStreamsFinish := false;
        } else if sender.bytesInFlight == 0 {
          if !lingerAfterStreamsFinish || timeSinceLastSegmentReceived >= 10 * rtTimeout {
            active := false;
          }
        }
      }
    }

    method SetErrors()
      requires Valid()
      modifies Repr()
      ensures Valid() && State() == TcpConnections.SetErrors(old(State()))
    {
      receiver.reassembler.output.SetError();
      sender.stream.SetError();
      active := false;
    }

    method ResetConnection()
      requires Valid()
      modifies Repr()
      ensures Valid() && State() == TcpConnections.ResetConnection(old(State()))
    {
      segmentsOut := segmentsOut + [RST_SEGMENT];
      SetErrors();
    }

    // ----- the operations -----

    /** `fill_window` and then `_send_data`: also how a connection is opened. */
    method Connect()
      requires Valid()
      modifies Repr()
      ensures Valid() && State() == TcpConnections.Connect(old(State()))
      ensures ConnectionProofs.Inv(old(State())) ==> ConnectionProofs.Inv(State())
    {
      ConnectKeeps(State());
      Fill();
      SendData();
    }

    method Write(data: seq<byte>) returns (size: nat)
      requires Valid()
      modifies Repr()
      ensures Valid() && State() == TcpConnections.Write(old(State()), data)
      ensures size == old(State()).sender.stream.Fit(data)
      ensures ConnectionProofs.Inv(old(State())) && !old(State()).sender.stream.ended ==> ConnectionProofs.Inv(State())
    {
      WriteKeeps(State(), data);
      if data == [] {
        return 0;
      }
      size := sender.stream.Write(data);
      Fill();
      SendData();
    }

    method EndInputStream()
      requires Valid()
      modifies Repr()
      ensures Valid() && State() == TcpConnections.EndInput(old(State()))
      ensures ConnectionProofs.Inv(old(State())) ==> ConnectionProofs.Inv(State())
    {
      EndKeeps(State());
      sender.stream.EndInput();
      Fill();
      SendData();
    }

    /** The clock and the sender move on. */
    method Elapse(ms: nat)
      requires Valid()
      modifies Repr()
      ensures Valid() && State() == ConnectionProofs.Elapse(old(State()), ms)
    {
      timeSinceLastSegmentReceived := timeSinceLastSegmentReceived + ms;
      sender.Tick(ms);
    }

    method Tick(ms: nat)
      requires Valid()
      modifies Repr()
      ensures Valid() && State() == TcpConnections.Tick(old(State()), ms)
      ensures ConnectionProofs.Inv(old(State())) ==> ConnectionProofs.Inv(State())
    {
      ElapseKeeps(State(), ms);
      if !active {
        return;
      }
      Elapse(ms);
      if sender.retxTimes > TcpSenders.MAX_RETX_ATTEMPTS {
        ResetConnection();
        return;
      }
      SendData();
    }

    method SegmentReceived(seg: TcpSegment)
      requires Valid()
      modifies Repr()
      ensures Valid() && State() == TcpConnections.SegmentReceived(old(State()), seg)
      ensures ConnectionProofs.Inv(old(State())) && ConnectionProofs.LegalSegment(old(State()), seg) ==>
                ConnectionProofs.Inv(State())
      ensures Answerable(old(State()), seg) ==> ConnectionReplies.Acknowledges(old(State()), State())
    {
      ArrivalKeeps(State(), seg);
      if !active {
        return;
      }
      timeSinceLastSegmentReceived := 0;
      if seg.header.rst {
        SetErrors();
      } else {
        Handle(seg);
      }
    }

    /** Take the segment and acknowledge it at once with an empty one. */
    method TakeAndAnswer(seg: TcpSegment)
      requires Valid()
      modifies Repr()
      ensures Valid()
      ensures State() == TcpConnections.SendData(TcpConnections.QueueEmpty(TcpConnections.TakeBoth(old(State()), seg)))
    {
      TakeBoth(seg);
      QueueEmpty();
      SendData();
    }

    /** The chain of tests on sender and receiver counters, while a handshake may be going on. */
    method Handle(seg: TcpSegment)
      requires Valid()
      modifies Repr()
      ensures Valid() && State() == TcpConnections.Handle(old(State()), seg)
    {
      var ackno := receiver.Ackno();
      if sender.nextSeqno == 0 {
        if seg.header.syn {
          TakeSegment(seg);
          Connect();
        }
      } else if sender.nextSeqno == sender.bytesInFlight && ackno.None? {
        if seg.header.syn && seg.header.ack {
          TakeAndAnswer(seg);
        } else if seg.header.syn && !seg.header.ack {
          TakeSegment(seg);
          QueueEmpty();
          SendData();
        }
      } else if sender.nextSeqno == sender.bytesInFlight && ackno.Some? && !receiver.reassembler.output.isEnd {
        TakeBoth(seg);
      } else {
        HandleOpened(seg);
      }
    }

    /** The rest of the chain, from ESTABLISHED on. */
    method HandleOpened(seg: TcpSegment)
      requires Valid()
      requires Dispatch(State()) !in {InListen, InSynSent, InSynRcvd}
      modifies Repr()
      ensures Valid() && State() == TcpConnections.Handle(old(State()), seg)
    {
      var eof := sender.stream.Eof();
      if sender.nextSeqno > sender.bytesInFlight && !eof {
        TakeBoth(seg);
        if seg.LengthInSequenceSpace() > 0 {
          QueueEmpty();
        }
        Connect();
      } else {
        HandleClosing(seg);
      }
    }

    /** The rest of the chain, once the own stream is over. */
    method HandleClosing(seg: TcpSegment)
      requires Valid()
      requires Dispatch(State()) !in {InListen, InSynSent, InSynRcvd, InEstablished}
      modifies Repr()
      ensures Valid() && State() == TcpConnections.Handle(old(State()), seg)
    {
      var eof := sender.stream.Eof();
      var inboundEnded := receiver.reassembler.output.isEnd;
      if sender.nextSeqno == sender.stream.writeCnt + 2 && sender.bytesInFlight > 0 && eof && !inboundEnded {
        if seg.header.fin {
          TakeAndAnswer(seg);
        } else if seg.header.ack {
          TakeBoth(seg);
          SendData();
        }
      } else {
        HandleFinished(seg);
      }
    }

    /** The rest of the chain, once the own FIN is acknowledged. */
    method HandleFinished(seg: TcpSegment)
      requires Valid()
      requires Dispatch(State()) !in {InListen, InSynSent, InSynRcvd, InEstablished, InFinWait1}
      modifies Repr()
      ensures Valid() && State() == TcpConnections.Handle(old(State()), seg)
    {
      var eof := sender.stream.Eof();
      var inboundEnded := receiver.reassembler.output.isEnd;
      var finNext := sender.stream.writeCnt + 2;
      if sender.nextSeqno == finNext && sender.bytesInFlight == 0 && eof && !inboundEnded {
        TakeAndAnswer(seg);
      } else if sender.nextSeqno == finNext && sender.bytesInFlight == 0 && eof && inboundEnded {
        if seg.header.fin {
          TakeAndAnswer(seg);
        }
      } else {
        TakeBoth(seg);
        Connect();
      }
    }
  }
}
