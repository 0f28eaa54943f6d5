/** The sending half of a TCP endpoint: cutting the outbound stream into segments, keeping
    track of what is in flight, retransmitting and backing off. */
module TcpSenders {
  import opened Numbers
  import opened WrappingIntegers
  import opened ByteStreams
  import opened OrderedMaps
  import opened TcpSegments

  const MAX_PAYLOAD_SIZE: nat := 1452
  const MAX_RETX_ATTEMPTS: nat := 8

  /** Segments not yet acknowledged, each under the absolute number just after it. */
  type Outstanding = map<nat, TcpSegment>

  datatype Sender = Sender(
    isn: u32, out: seq<TcpSegment>, rto: u32, stream: Stream, next: nat, cache: Outstanding,
    defaultRto: u32, peerWin: u16, bif: nat, time: nat, retx: byte)
  {
    predicate Valid() { stream.Valid() }

    /** The peer's window, a closed one being probed as if it were open by one. */
    function Window(): nat { if peerWin != 0 then peerWin else 1 }

    /** The end of the stream is known and reached, but its FIN was not sent yet. */
    predicate FinPending() requires Valid() { stream.Eof() && next < |stream.log| + 2 }

    function NextSeqno(): u32 { Wrap(next, isn) }
  }

  function FreshSender(capacity: nat, retxTimeout: u16, isn: u32): Sender {
    Sender(isn, [], retxTimeout, Stream(capacity, [], 0, false, false), 0, map[], retxTimeout, 1, 0, 0, 0)
  }

  /** Send `seg`, which holds the next sequence numbers, and remember it. */
  function Emit(s: Sender, seg: TcpSegment): (s': Sender)
    requires s.Valid()
    ensures s'.Valid()
  {
    var n := seg.LengthInSequenceSpace();
    s.(out := s.out + [seg], next := s.next + n, bif := s.bif + n, cache := s.cache[s.next + n := seg])
  }

  function SendSyn(s: Sender): (s': Sender)
    requires s.Valid()
    ensures s'.Valid()
  {
    Emit(s, TcpSegment(EMPTY_HEADER.(syn := true, seqno := s.isn), []))
  }

  /** One chunk read for a window with `w` numbers left; the FIN rides along when the chunk is
      the last one and the window has room for it. */
  function ChunkSegment(s: Sender, w: nat): (seg: TcpSegment)
    requires s.Valid()
    ensures seg.LengthInSequenceSpace() <= w
  {
    var chunk := s.stream.Peek(Min(MAX_PAYLOAD_SIZE, w));
    var rest := s.(stream := s.stream.Pop(Min(MAX_PAYLOAD_SIZE, w)));
    var fin := rest.FinPending() && w - |chunk| >= 1;
    TcpSegment(EMPTY_HEADER.(seqno := s.NextSeqno(), fin := fin), chunk)
  }

  function SendChunk(s: Sender, w: nat): (s': Sender)
    requires s.Valid()
    ensures s'.Valid()
  {
    Emit(s.(stream := s.stream.Pop(Min(MAX_PAYLOAD_SIZE, w))), ChunkSegment(s, w))
  }

  function SendLoop(s: Sender, w: nat): (s': Sender)
    requires s.Valid()
    ensures s'.Valid()
    decreases s.stream.BufferSize()
  {
    if s.stream.Peek(Min(MAX_PAYLOAD_SIZE, w)) == [] then s
    else SendLoop(SendChunk(s, w), w - ChunkSegment(s, w).LengthInSequenceSpace())
  }

  function SendFin(s: Sender): (s': Sender)
    requires s.Valid()
    ensures s'.Valid()
  {
    if s.FinPending() && s.Window() > s.bif then
      Emit(s, TcpSegment(EMPTY_HEADER.(seqno := s.NextSeqno(), fin := true), []))
    else s
  }

  /** `fill_window` once the stream has started. */
  function FillStarted(s: Sender): (s': Sender)
    requires s.Valid()
    ensures s'.Valid()
  {
    if !s.stream.Eof() && s.next > s.bif then
      if s.Window() < s.bif then s else SendFin(SendLoop(s, s.Window() - s.bif))
    else SendFin(s)
  }

  function FillWindow(s: Sender): (s': Sender)
    requires s.Valid()
    ensures s'.Valid()
  {
    FillStarted(if s.next == 0 then SendSyn(s) else s)
  }

  /** How many numbers an acknowledgment leaves in flight, as the signed 32-bit difference. */
  function LeftInFlight(s: Sender, ackno: u32): int {
    Offset(s.NextSeqno(), ackno)
  }

  /** The cached segments an acknowledgment covers. */
  function Acked(s: Sender, ackno: u32): set<nat> {
    set k | k in s.cache && Unwrap(ackno, s.isn, k) >= k
  }

  /** Forget what the ack covers; if that is anything, restart the timer and refill. */
  function Cover(s: Sender, acked: set<nat>, win: u16, n: nat): (s': Sender)
    requires s.Valid()
    ensures s'.Valid()
  {
    var s1 := s.(cache := s.cache - acked, peerWin := win);
    if acked == {} then s1
    else FillWindow(s1.(bif := n, time := 0, retx := 0, rto := s.defaultRto))
  }

  function AckReceived(s: Sender, ackno: u32, win: u16): (s': Sender)
    requires s.Valid()
    ensures s'.Valid()
  {
    var n := LeftInFlight(s, ackno);
    if n < 0 then s else Cover(s, Acked(s, ackno), win, n)
  }

  function Tick(s: Sender, ms: nat): (s': Sender)
    requires s.Valid()
    ensures s'.Valid()
  {
    if s.cache == map[] then s
    else
      var time := s.time + ms;
      if time >= s.rto && s.retx <= MAX_RETX_ATTEMPTS then
        var s1 := s.(out := s.out + [s.cache[Least(s.cache.Keys)]], time := 0);
        if s.peerWin != 0 then s1.(rto := (s.rto * 2) % TWO32, retx := (s.retx + 1) % 0x100) else s1
      else s.(time := time)
  }

  function SendEmpty(s: Sender): (s': Sender)
    requires s.Valid()
    ensures s'.Valid()
  {
    s.(out := s.out + [TcpSegment(EMPTY_HEADER.(seqno := s.NextSeqno()), [])])
  }
}
