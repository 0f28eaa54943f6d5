/** The flow-controlled in-memory byte stream: a ring buffer that behaves as a FIFO queue. */
module ByteStreams {
  import opened Numbers

  /** The value of a stream. `log` is every byte accepted since construction, of which the
      first `nread` were taken out; the others are buffered. */
  datatype Stream = Stream(capacity: nat, log: seq<byte>, nread: nat, ended: bool, error: bool) {
    predicate Valid() {
      nread <= |log| <= nread + capacity
    }

    function BufferSize(): nat requires Valid() { |log| - nread }
    function RemainingCapacity(): nat requires Valid() { capacity - BufferSize() }
    function Buffered(): seq<byte> requires Valid() { log[nread..] }
    predicate Eof() requires Valid() { ended && BufferSize() == 0 }

    /** How many bytes of `data` a write accepts. */
    function Fit(data: seq<byte>): nat requires Valid() { Min(|data|, RemainingCapacity()) }

    /** The part of `data` that still fits is appended. */
    function Write(data: seq<byte>): (s: Stream)
      requires Valid()
      ensures s.Valid()
    {
      this.(log := log + data[..Fit(data)])
    }

    function Peek(len: nat): seq<byte>
      requires Valid()
    {
      log[nread..nread + Min(BufferSize(), len)]
    }

    function Pop(len: nat): (s: Stream)
      requires Valid()
      ensures s.Valid()
    {
      this.(nread := nread + Min(BufferSize(), len))
    }
  }

  lemma ProductAtLeast(d: int, c: nat)
    requires d >= 1
    ensures d * c >= c
  {
    if d > 1 {
      ProductAtLeast(d - 1, c);
      assert d * c == (d - 1) * c + c;
    }
  }

  lemma SmallMultiple(d: int, c: nat)
    requires 0 < d * c + c < 2 * c
    ensures d == 0
  {
    if d >= 1 {
      ProductAtLeast(d, c);
    } else if d <= -1 {
      assert (-d) * c == -(d * c);
      ProductAtLeast(-d, c);
    }
  }

  /** A remainder is determined by the equation that defines it. */
  lemma RemainderIs(k: nat, q: int, r: nat, c: nat)
    requires r < c && k == q * c + r
    ensures k % c == r
  {
    var d := k / c - q;
    assert d * c == r - k % c by {
      assert k == (k / c) * c + k % c;
      assert d * c == (k / c) * c - q * c;
    }
    SmallMultiple(d, c);
  }

  lemma SlotShift(i: nat, c: nat)
    requires c > 0
    ensures (i + c) % c == i % c
  {
    var q := i / c;
    assert i == q * c + i % c;
    assert (q + 1) * c == q * c + c;
    RemainderIs(i + c, q + 1, i % c, c);
  }

  /** Positions closer than the capacity land on different slots of the ring. */
  lemma SlotsDiffer(i: nat, j: nat, c: nat)
    requires i < j < i + c
    ensures i % c != j % c
  {
    if i % c == j % c {
      var d := j / c - i / c;
      assert d * c == j - i by {
        assert j == (j / c) * c + j % c;
        assert i == (i / c) * c + i % c;
        assert d * c == (j / c) * c - (i / c) * c;
      }
      SmallMultiple(d, c);
    }
  }

  class ByteStream {
    const data: array<byte>
    const capacity: nat
    var isEnd: bool
    var begin: nat     // where the writer puts its next byte
    var end: nat       // where the reader takes its next byte, ahead by one capacity
    var writeCnt: nat
    var readCnt: nat
    var error: bool
    ghost var log: seq<byte>

    ghost predicate Valid()
      reads this, data
    {
      && data.Length == capacity
      && begin == writeCnt == |log|
      && end == readCnt + capacity
      && readCnt <= writeCnt <= readCnt + capacity
      && forall i :: readCnt <= i < writeCnt ==> data[i % capacity] == log[i]
    }

    ghost function Repr(): set<object> { {this, data} }

    /** The abstract value of the ring. */
    ghost function State(): (s: Stream)
      requires Valid()
      reads this, data
      ensures s.Valid()
    {
      Stream(capacity, log, readCnt, isEnd, error)
    }

    lemma ByteAt(i: nat)
      requires Valid() && readCnt <= i < writeCnt
      ensures data[(i + capacity) % capacity] == log[i]
    {
      SlotShift(i, capacity);
    }

    /** The array read from `end` on, modulo the capacity, for as many bytes as are buffered. */
    ghost function Ring(): (bytes: seq<byte>)
      requires Valid()
      reads this, data
      ensures |bytes| == State().BufferSize() <= capacity
    {
      seq(writeCnt - readCnt, i requires Valid() && 0 <= i < writeCnt - readCnt reads this, data =>
        data[(end + i) % capacity])
    }

    lemma RingIsBuffered()
      requires Valid()
      ensures Ring() == State().Buffered()
    {
      forall i | 0 <= i < |Ring()| ensures Ring()[i] == State().Buffered()[i] {
        ByteAt(readCnt + i);
      }
    }

    constructor (capacity: nat)
      ensures Valid() && fresh(Repr())
      ensures State() == Stream(capacity, [], 0, false, false)
    {
      data := new byte[capacity];
      this.capacity := capacity;
      isEnd, error := false, false;
      begin, end := 0, capacity;
      writeCnt, readCnt := 0, 0;
      log := [];
    }

    method BufferSize() returns (n: nat)
      requires Valid()
      ensures n == State().BufferSize()
    {
      n := begin - (end - capacity);
    }

    method RemainingCapacity() returns (n: nat)
      requires Valid()
      ensures n == State().RemainingCapacity()
    {
      var size := BufferSize();
      n := capacity - size;
    }

    method Eof() returns (b: bool)
      requires Valid()
      ensures b == State().Eof()
    {
      var size := BufferSize();
      b := isEnd && size == 0;
    }

    /** The loop that stores the first `n` bytes, wrapping around the end of the array. */
    method Store(bytes: seq<byte>, n: nat)
      requires Valid() && n <= |bytes| && n <= State().RemainingCapacity()
      modifies data
      ensures forall k :: readCnt <= k < begin ==> data[k % capacity] == log[k]
      ensures forall k :: begin <= k < begin + n ==> data[k % capacity] == bytes[k - begin]
    {
      var i, j := begin, 0;
      while i < begin + n
        invariant i == begin + j <= begin + n
        invariant forall k :: readCnt <= k < begin ==> data[k % capacity] == log[k]
        invariant forall k :: begin <= k < i ==> data[k % capacity] == bytes[k - begin]
      {
        var realIndex := i % capacity;
        forall k | readCnt <= k < i ensures k % capacity != realIndex {
          SlotsDiffer(k, i, capacity);
        }
        data[realIndex] := bytes[j];
        i, j := i + 1, j + 1;
      }
    }

    method Write(bytes: seq<byte>) returns (writeSize: nat)
      requires Valid()
      modifies Repr()
      ensures Valid() && State() == old(State()).Write(bytes)
      ensures writeSize == old(State()).Fit(bytes)
    {
      var room := RemainingCapacity();
      writeSize := Min(|bytes|, room);
      Store(bytes, writeSize);
      log := log + bytes[..writeSize];
      begin := begin + writeSize;
      writeCnt := writeCnt + writeSize;
    }

    method PeekOutput(len: nat) returns (peekRes: seq<byte>)
      requires Valid()
      ensures peekRes == State().Peek(len)
    {
      var size := BufferSize();
      var peekSize := Min(size, len);
      peekRes := [];
      var i := end;
      while i < end + peekSize
        invariant end <= i <= end + peekSize
        invariant peekRes == log[readCnt..readCnt + (i - end)]
      {
        ByteAt(i - capacity);
        peekRes := peekRes + [data[i % capacity]];
        i := i + 1;
      }
    }

    method PopOutput(len: nat)
      requires Valid()
      modifies this`end, this`readCnt
      ensures Valid() && State() == old(State()).Pop(len)
    {
      var size := BufferSize();
      var popSize := Min(size, len);
      end := end + popSize;
      readCnt := readCnt + popSize;
    }

    method Read(len: nat) returns (readRes: seq<byte>)
      requires Valid()
      modifies this`end, this`readCnt
      ensures Valid() && State() == old(State()).Pop(len)
      ensures readRes == old(State()).Peek(len)
    {
      var size := BufferSize();
      var readSize := Min(size, len);
      readRes := [];
      var i := end;
      while i < end + readSize
        invariant unchanged(this)
        invariant end <= i <= end + readSize
        invariant readRes == log[readCnt..readCnt + (i - end)]
      {
        ByteAt(i - capacity);
        readRes := readRes + [data[i % capacity]];
        i := i + 1;
      }
      readCnt := readCnt + readSize;
      end := end + readSize;
    }

    method EndInput()
      requires Valid()
      modifies this`isEnd
      ensures Valid() && State() == old(State()).(ended := true)
    {
      isEnd := true;
    }

    method SetError()
      requires Valid()
      modifies this`error
      ensures Valid() && State() == old(State()).(error := true)
    {
      error := true;
    }
  }

  // ----- runs of a stream -----

  datatype StreamOp = WriteOp(data: seq<byte>) | PeekOp(len: nat) | ReadOp(len: nat) | PopOp(len: nat) | EndOp

  /** What a peek returned, and how many bytes had been removed before it. */
  datatype Glimpse = Glimpse(at: nat, bytes: seq<byte>)

  /** What a run did: the final stream, the bytes its writes had accepted, the bytes its reads
      and pops removed, both in order, and what its peeks saw. */
  datatype StreamHistory = StreamHistory(stream: Stream, accepted: seq<byte>, removed: seq<byte>, peeks: seq<Glimpse>)

  function Apply(h: StreamHistory, op: StreamOp): (h': StreamHistory)
    requires h.stream.Valid()
    ensures h'.stream.Valid()
  {
    var s := h.stream;
    match op
    case WriteOp(data) => h.(stream := s.Write(data), accepted := h.accepted + data[..s.Fit(data)])
    case PeekOp(len) => h.(peeks := h.peeks + [Glimpse(|h.removed|, s.Peek(len))])
    case ReadOp(len) => h.(stream := s.Pop(len), removed := h.removed + s.Peek(len))
    case PopOp(len) => h.(stream := s.Pop(len), removed := h.removed + s.Buffered()[..Min(|s.Buffered()|, len)])
    case EndOp => h.(stream := s.(ended := true))
  }

  function RunStream(h: StreamHistory, ops: seq<StreamOp>): (h': StreamHistory)
    requires h.stream.Valid()
    ensures h'.stream.Valid()
    decreases |ops|
  {
    if ops == [] then h else RunStream(Apply(h, ops[0]), ops[1..])
  }

  /** The history of a stream that starts in state `s`. */
  function HistoryFrom(s: Stream): StreamHistory { StreamHistory(s, [], [], []) }

  /** A peek saw the bytes of `all` that come after those removed before it. */
  predicate Faithful(g: Glimpse, all: seq<byte>) {
    g.at + |g.bytes| <= |all| && g.bytes == all[g.at..g.at + |g.bytes|]
  }

  /** Nothing is lost or reordered: removed bytes then buffered bytes are those buffered at the
      start and then the accepted ones, and peeks saw what was next among them. */
  predicate Conserved(start: seq<byte>, h: StreamHistory)
    requires h.stream.Valid()
  {
    && h.removed + h.stream.Buffered() == start + h.accepted
    && forall i :: 0 <= i < |h.peeks| ==> Faithful(h.peeks[i], start + h.accepted)
  }

  lemma WriteAppends(s: Stream, data: seq<byte>)
    requires s.Valid()
    ensures s.Write(data).Buffered() == s.Buffered() + data[..s.Fit(data)]
  {
  }

  /** A write accepts the longest prefix there is room for: all of it, or enough to fill the
      buffer. */
  lemma WriteIsGreedy(s: Stream, data: seq<byte>)
    requires s.Valid()
    ensures var s' := s.Write(data);
            && |s'.Buffered()| - |s.Buffered()| == s.Fit(data) <= |data|
            && (s.Fit(data) == |data| || |s'.Buffered()| == s.capacity)
            && s'.Buffered() == s.Buffered() + data[..s.Fit(data)]
  {
    WriteAppends(s, data);
  }

  lemma TakeSplits(s: Stream, len: nat)
    requires s.Valid()
    ensures s.Buffered() == s.Peek(len) + s.Pop(len).Buffered()
    ensures s.Peek(len) == s.Buffered()[..Min(|s.Buffered()|, len)]
  {
  }

  lemma WriteConserves(start: seq<byte>, h: StreamHistory, data: seq<byte>)
    requires h.stream.Valid() && Conserved(start, h)
    ensures Conserved(start, Apply(h, WriteOp(data)))
  {
    var s, h1 := h.stream, Apply(h, WriteOp(data));
    var fits := data[..s.Fit(data)];
    WriteAppends(s, data);
    assert h.removed + (s.Buffered() + fits) == (h.removed + s.Buffered()) + fits;
    assert start + (h.accepted + fits) == (start + h.accepted) + fits;
    forall i | 0 <= i < |h1.peeks| ensures Faithful(h1.peeks[i], start + h1.accepted) {
      assert Faithful(h.peeks[i], start + h.accepted);
    }
  }

  lemma TakeConserves(start: seq<byte>, h: StreamHistory, len: nat)
    requires h.stream.Valid() && Conserved(start, h)
    ensures var s := h.stream;
            && s.Peek(len) == s.Buffered()[..Min(|s.Buffered()|, len)]
            && (h.removed + s.Peek(len)) + s.Pop(len).Buffered() == start + h.accepted
            && Faithful(Glimpse(|h.removed|, s.Peek(len)), start + h.accepted)
  {
    var s := h.stream;
    TakeSplits(s, len);
    assert (h.removed + s.Peek(len)) + s.Pop(len).Buffered() == h.removed + s.Buffered();
  }

  lemma ApplyConserves(start: seq<byte>, h: StreamHistory, op: StreamOp)
    requires h.stream.Valid() && Conserved(start, h)
    ensures Conserved(start, Apply(h, op))
  {
    match op
    case WriteOp(data) => WriteConserves(start, h, data);
    case PeekOp(len) => TakeConserves(start, h, len);
    case ReadOp(len) => TakeConserves(start, h, len);
    case PopOp(len) => TakeConserves(start, h, len);
    case EndOp =>
  }

  lemma {:induction false} FifoFrom(start: seq<byte>, h: StreamHistory, ops: seq<StreamOp>)
    requires h.stream.Valid() && Conserved(start, h)
    ensures Conserved(start, RunStream(h, ops))
    ensures RunStream(h, ops).stream.capacity == h.stream.capacity
    decreases |ops|
  {
    if ops != [] {
      ApplyConserves(start, h, ops[0]);
      FifoFrom(start, Apply(h, ops[0]), ops[1..]);
    }
  }

  /** First in, first out: after any run from any state, the removed bytes followed by the
      buffered ones are exactly those buffered at first followed by the accepted ones; never
      more than the capacity is buffered; and every peek saw the bytes next in that order. */
  lemma StreamIsFifo(s: Stream, ops: seq<StreamOp>)
    requires s.Valid()
    ensures var r := RunStream(HistoryFrom(s), ops);
            && r.removed + r.stream.Buffered() == s.Buffered() + r.accepted
            && r.stream.BufferSize() <= s.capacity
            && forall i :: 0 <= i < |r.peeks| ==> Faithful(r.peeks[i], s.Buffered() + r.accepted)
  {
    assert [] + s.Buffered() == s.Buffered() + [];
    FifoFrom(s.Buffered(), HistoryFrom(s), ops);
  }

  /** One operation on the ring itself: what it accepted, removed and saw. `removed` counts the
      bytes removed before. */
  method Perform(ring: ByteStream, op: StreamOp, removed: nat, ghost h: StreamHistory)
    returns (a: seq<byte>, r: seq<byte>, p: seq<Glimpse>)
    requires ring.Valid() && h.stream == ring.State() && removed == |h.removed|
    modifies ring.Repr()
    ensures ring.Valid()
    ensures Apply(h, op) == StreamHistory(ring.State(), h.accepted + a, h.removed + r, h.peeks + p)
  {
    a, r, p := [], [], [];
    match op {
      case WriteOp(data) =>
        var size := ring.Write(data);
        a := data[..size];
      case PeekOp(len) =>
        var seen := ring.PeekOutput(len);
        p := [Glimpse(removed, seen)];
      case ReadOp(len) =>
        r := ring.Read(len);
      case PopOp(len) =>
        r := ring.PeekOutput(len);
        TakeSplits(h.stream, len);
        ring.PopOutput(len);
      case EndOp =>
        ring.EndInput();
    }
  }

  /** A run on the ring is the run of the model. */
  method PerformAll(ring: ByteStream, ops: seq<StreamOp>)
    returns (accepted: seq<byte>, removed: seq<byte>, peeks: seq<Glimpse>)
    requires ring.Valid()
    modifies ring.Repr()
    ensures ring.Valid()
    ensures RunStream(HistoryFrom(old(ring.State())), ops) == StreamHistory(ring.State(), accepted, removed, peeks)
  {
    accepted, removed, peeks := [], [], [];
    ghost var h0 := HistoryFrom(ring.State());
    for i := 0 to |ops|
      invariant ring.Valid()
      invariant RunStream(h0, ops) == RunStream(StreamHistory(ring.State(), accepted, removed, peeks), ops[i..])
    {
      assert ops[i..][0] == ops[i] && ops[i..][1..] == ops[i + 1..];
      var a, r, p := Perform(ring, ops[i], |removed|, StreamHistory(ring.State(), accepted, removed, peeks));
      accepted, removed, peeks := accepted + a, removed + r, peeks + p;
    }
  }

  /** Any run on the ring, from any state, is first in, first out on its array: it accepts,
      removes and sees what the model's run does; and what the array holds at first, read from
      `end` on, and then what was accepted is, byte by byte, what was removed and then what the
      array holds at last. */
  method RingIsFifo(ring: ByteStream, ops: seq<StreamOp>)
    returns (accepted: seq<byte>, removed: seq<byte>, peeks: seq<Glimpse>)
    requires ring.Valid()
    modifies ring.Repr()
    ensures ring.Valid()
    ensures RunStream(HistoryFrom(old(ring.State())), ops) == StreamHistory(ring.State(), accepted, removed, peeks)
    ensures ring.Ring() == ring.State().Buffered()
    ensures removed + ring.Ring() == old(ring.Ring()) + accepted
    ensures forall i :: 0 <= i < |peeks| ==> Faithful(peeks[i], old(ring.Ring()) + accepted)
  {
    ring.RingIsBuffered();
    StreamIsFifo(ring.State(), ops);
    accepted, removed, peeks := PerformAll(ring, ops);
    ring.RingIsBuffered();
  }
}
