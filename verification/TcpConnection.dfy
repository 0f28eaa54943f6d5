/** A TCP endpoint: the sender, the receiver and the handful of bits that belong to neither. */
module TcpConnections {
  import opened Numbers
  import opened ByteStreams
  import opened StreamReassemblers
  import opened TcpSegments
  import opened TcpReceivers
  import opened TcpSenders

  datatype Connection = Connection(
    rtTimeout: u16, receiver: Receiver, sender: Sender, out: seq<TcpSegment>,
    linger: bool, sinceReceived: nat, active: bool)
  {
    predicate Valid() { receiver.Valid() && sender.Valid() }
    predicate InboundEnded() { receiver.Out().ended }
    predicate Eof() requires Valid() { sender.stream.Eof() }
    predicate Failed() { receiver.Out().error && sender.stream.error }
  }

  function FreshConnection(rtTimeout: u16, recvCapacity: nat, sendCapacity: nat, isn: u32): Connection {
    Connection(rtTimeout, FreshReceiver(recvCapacity), FreshSender(sendCapacity, rtTimeout, isn), [], true, 0, true)
  }

  /** Put the receiver's ackno and window on an outgoing segment; the window field has 16 bits. */
  function Stamp(r: Receiver, seg: TcpSegment): TcpSegment
    requires r.Valid()
  {
    if r.Ackno().Some? then
      seg.(header := seg.header.(ack := true, ackno := r.Ackno().value, win := r.WindowSize() % TWO16))
    else seg
  }

  function StampAll(r: Receiver, segs: seq<TcpSegment>): seq<TcpSegment>
    requires r.Valid()
  {
    if segs == [] then [] else StampAll(r, segs[..|segs| - 1]) + [Stamp(r, segs[|segs| - 1])]
  }

  /** Move the sender's queue to the wire. */
  function Drain(c: Connection): (c': Connection)
    requires c.Valid()
    ensures c'.Valid()
    ensures c'.receiver == c.receiver
  {
    c.(out := c.out + StampAll(c.receiver, c.sender.out), sender := c.sender.(out := []))
  }

  /** Once the inbound stream has ended: no lingering for the side that ends last, and the end
      of the connection when everything sent was acknowledged. */
  function CloseIfDone(c: Connection): (c': Connection)
    requires c.Valid()
    ensures c'.Valid()
    ensures c'.receiver == c.receiver
  {
    if !c.InboundEnded() then c
    else if !c.Eof() then c.(linger := false)
    else if c.sender.bif == 0 && (!c.linger || c.sinceReceived >= 10 * c.rtTimeout) then c.(active := false)
    else c
  }

  function SendData(c: Connection): (c': Connection)
    requires c.Valid()
    ensures c'.Valid()
    ensures c'.receiver == c.receiver
  {
    CloseIfDone(Drain(c))
  }

  function SetErrors(c: Connection): (c': Connection)
    requires c.Valid()
    ensures c'.Valid()
  {
    var out := c.receiver.Out().(error := true);
    c.(receiver := c.receiver.(reassembler := c.receiver.reassembler.(output := out)),
       sender := c.sender.(stream := c.sender.stream.(error := true)),
       active := false)
  }

  const RST_SEGMENT := TcpSegment(EMPTY_HEADER.(rst := true), [])

  function ResetConnection(c: Connection): (c': Connection)
    requires c.Valid()
    ensures c'.Valid()
  {
    SetErrors(c.(out := c.out + [RST_SEGMENT]))
  }

  function Fill(c: Connection): (c': Connection)
    requires c.Valid()
    ensures c'.Valid()
    ensures c'.receiver == c.receiver
  {
    c.(sender := FillWindow(c.sender))
  }

  function Connect(c: Connection): (c': Connection)
    requires c.Valid()
    ensures c'.Valid()
    ensures c'.receiver == c.receiver
  {
    SendData(Fill(c))
  }

  function Write(c: Connection, data: seq<byte>): (c': Connection)
    requires c.Valid()
    ensures c'.Valid()
    ensures c'.receiver == c.receiver
  {
    if data == [] then c
    else SendData(Fill(c.(sender := c.sender.(stream := c.sender.stream.Write(data)))))
  }

  function EndInput(c: Connection): (c': Connection)
    requires c.Valid()
    ensures c'.Valid()
    ensures c'.receiver == c.receiver
  {
    SendData(Fill(c.(sender := c.sender.(stream := c.sender.stream.(ended := true)))))
  }

  function Tick(c: Connection, ms: nat): (c': Connection)
    requires c.Valid()
    ensures c'.Valid()
  {
    if !c.active then c
    else
      var c1 := c.(sinceReceived := c.sinceReceived + ms, sender := TcpSenders.Tick(c.sender, ms));
      if c1.sender.retx > MAX_RETX_ATTEMPTS then ResetConnection(c1) else SendData(c1)
  }

  // ----- an arriving segment -----

  /** The branches of the chain of tests that decides what to do with a segment. */
  datatype Branch = InListen | InSynSent | InSynRcvd | InEstablished | InFinWait1 | InFinWait2 | InTimeWait | Otherwise

  function Dispatch(c: Connection): Branch
    requires c.Valid()
  {
    var s := c.sender;
    if s.next == 0 then InListen
    else if s.next == s.bif && c.receiver.Ackno().None? then InSynSent
    else if s.next == s.bif && c.receiver.Ackno().Some? && !c.InboundEnded() then InSynRcvd
    else if s.next > s.bif && !c.Eof() then InEstablished
    else if s.next == |s.stream.log| + 2 && s.bif > 0 && c.Eof() && !c.InboundEnded() then InFinWait1
    else if s.next == |s.stream.log| + 2 && s.bif == 0 && c.Eof() && !c.InboundEnded() then InFinWait2
    else if s.next == |s.stream.log| + 2 && s.bif == 0 && c.Eof() && c.InboundEnded() then InTimeWait
    else Otherwise
  }

  function TakeAck(c: Connection, seg: TcpSegment): (c': Connection)
    requires c.Valid()
    ensures c'.Valid()
    ensures c'.receiver == c.receiver
  {
    c.(sender := AckReceived(c.sender, seg.header.ackno, seg.header.win))
  }

  function TakeSegment(c: Connection, seg: TcpSegment): (c': Connection)
    requires c.Valid()
    ensures c'.Valid()
  {
    c.(receiver := TcpReceivers.SegmentReceived(c.receiver, seg))
  }

  /** Hand the segment to the sender and then to the receiver. */
  function TakeBoth(c: Connection, seg: TcpSegment): (c': Connection)
    requires c.Valid()
    ensures c'.Valid()
  {
    TakeSegment(TakeAck(c, seg), seg)
  }

  function QueueEmpty(c: Connection): (c': Connection)
    requires c.Valid()
    ensures c'.Valid()
    ensures c'.receiver == c.receiver
  {
    c.(sender := SendEmpty(c.sender))
  }

  function Handle(c: Connection, seg: TcpSegment): (c': Connection)
    requires c.Valid()
    ensures c'.Valid()
  {
    var h := seg.header;
    match Dispatch(c)
    case InListen => if h.syn then Connect(TakeSegment(c, seg)) else c
    case InSynSent =>
      if h.syn && h.ack then SendData(QueueEmpty(TakeBoth(c, seg)))
      else if h.syn then SendData(QueueEmpty(TakeSegment(c, seg)))
      else c
    case InSynRcvd => TakeBoth(c, seg)
    case InEstablished =>
      var c1 := TakeBoth(c, seg);
      SendData(Fill(if seg.LengthInSequenceSpace() > 0 then QueueEmpty(c1) else c1))
    case InFinWait1 =>
      if h.fin then SendData(QueueEmpty(TakeBoth(c, seg)))
      else if h.ack then SendData(TakeBoth(c, seg))
      else c
    case InFinWait2 => SendData(QueueEmpty(TakeBoth(c, seg)))
    case InTimeWait => if h.fin then SendData(QueueEmpty(TakeBoth(c, seg))) else c
    case Otherwise => SendData(Fill(TakeBoth(c, seg)))
  }

  function SegmentReceived(c: Connection, seg: TcpSegment): (c': Connection)
    requires c.Valid()
    ensures c'.Valid()
  {
    if !c.active then c
    else
      var c1 := c.(sinceReceived := 0);
      if seg.header.rst then SetErrors(c1) else Handle(c1, seg)
  }

  /** The application takes bytes off the inbound stream. */
  function ReadInbound(c: Connection, len: nat): (c': Connection)
    requires c.Valid()
    ensures c'.Valid()
  {
    c.(receiver := Take(c.receiver, len))
  }
}
