/** How the sender's segments tile the sequence space, and what its window and its
    retransmission timer keep. */
module SenderProofs {
  import opened Numbers
  import opened WrappingIntegers
  import opened ByteStreams
  import opened OrderedMaps
  import opened TcpSegments
  import opened TcpSenders

  // ----- tiling of the sequence space -----

  /** `seg` holds exactly the sequence numbers from `lo` up to `hi`: the SYN is number 0, byte
      `i` of the stream is number `i + 1`, and the FIN follows the last byte. */
  ghost predicate Occupies(isn: u32, s: Stream, seg: TcpSegment, lo: nat, hi: nat) {
    && hi == lo + seg.LengthInSequenceSpace() && lo < hi
    && seg.header == EMPTY_HEADER.(seqno := Wrap(lo, isn), syn := lo == 0, fin := seg.header.fin)
    && (lo == 0 ==> seg.payload == [] && !seg.header.fin)
    && (lo > 0 ==> lo - 1 + |seg.payload| <= |s.log| && seg.payload == s.log[lo - 1..lo - 1 + |seg.payload|])
    && (seg.header.fin ==> s.ended && hi == |s.log| + 2)
  }

  /** The stream only grows, and not after its end. */
  ghost predicate Grows(s: Stream, s': Stream) {
    && s.log <= s'.log
    && (s.ended ==> s'.ended && s'.log == s.log)
  }

  lemma OccupiesGrows(isn: u32, s: Stream, s': Stream, seg: TcpSegment, lo: nat, hi: nat)
    requires Occupies(isn, s, seg, lo, hi) && Grows(s, s')
    ensures Occupies(isn, s', seg, lo, hi)
  {
  }

  /** The first number not acknowledged, as far as the sender has accepted acks. */
  function AckedUpTo(s: Sender): int { s.next - s.bif }

  /** The keys are the numbers of `bs` after the first one. */
  ghost predicate Cut(keys: set<nat>, bs: seq<nat>) {
    && bs != [] && Sorted(bs)
    && forall k :: k in keys <==> k in bs && bs[0] < k
  }

  /** Each cached segment holds the numbers that end at its key. */
  ghost predicate Filled(isn: u32, s: Stream, cache: Outstanding) {
    forall k :: k in cache ==> Fills(isn, s, cache[k], k)
  }

  ghost predicate Fills(isn: u32, s: Stream, seg: TcpSegment, hi: nat) {
    var n := seg.LengthInSequenceSpace();
    n <= hi && Occupies(isn, s, seg, hi - n, hi)
  }

  /** The segment cached at the `i`th cut starts at the cut before it. */
  ghost predicate Linked(cache: Outstanding, bs: seq<nat>, i: int) {
    1 <= i < |bs| && bs[i] in cache && bs[i - 1] + cache[bs[i]].LengthInSequenceSpace() == bs[i]
  }

  ghost predicate Adjacent(cache: Outstanding, bs: seq<nat>) {
    forall i :: 1 <= i < |bs| ==> Linked(cache, bs, i)
  }

  /** What counts as in flight starts inside the first cached segment, and is nothing when
      none is cached. */
  ghost predicate FlightFits(bs: seq<nat>, next: nat, bif: nat) {
    && bs != [] && bs[|bs| - 1] == next
    && (if |bs| == 1 then bif == 0 else bs[0] <= next - bif < bs[1])
  }

  /** The cached segments tile the numbers from `bs[0]` up to `next`, cut at `bs`. */
  ghost predicate Tiled(s: Sender, bs: seq<nat>) {
    && Cut(s.cache.Keys, bs)
    && Adjacent(s.cache, bs)
    && Filled(s.isn, s.stream, s.cache)
    && FlightFits(bs, s.next, s.bif)
  }

  /** The next number follows the SYN, the bytes read from the stream and the FIN, if sent. */
  ghost predicate Counted(s: Sender) {
    && s.stream.Valid()
    && (s.next == 0 ==> s.stream.nread == 0)
    && (s.next > 0 ==> s.next == s.stream.nread + 1 || (s.next == s.stream.nread + 2 && s.stream.Eof()))
  }

  ghost predicate Tiling(s: Sender) {
    Counted(s) && exists bs :: Tiled(s, bs)
  }

  predicate FinSent(s: Sender) { s.next == s.stream.nread + 2 }

  lemma CutBounds(keys: set<nat>, bs: seq<nat>, next: nat, bif: nat)
    requires Cut(keys, bs) && FlightFits(bs, next, bif)
    ensures bif == 0 <==> keys == {}
    ensures bif <= next
    ensures forall k :: k in keys ==> next - bif < k <= next
  {
    if |bs| > 1 {
      assert bs[1] in keys;
    }
  }

  lemma NothingInFlightIff(s: Sender)
    requires Tiling(s)
    ensures s.bif == 0 <==> s.cache == map[]
    ensures s.bif <= s.next
    ensures forall k :: k in s.cache ==> AckedUpTo(s) < k <= s.next
  {
    var bs :| Tiled(s, bs);
    CutBounds(s.cache.Keys, bs, s.next, s.bif);
  }

  lemma FreshIsTiled(capacity: nat, retxTimeout: u16, isn: u32)
    ensures Tiling(FreshSender(capacity, retxTimeout, isn))
  {
    assert Tiled(FreshSender(capacity, retxTimeout, isn), [0]);
  }

  // ----- emitting -----

  lemma CutAppend(keys: set<nat>, bs: seq<nat>, hi: nat)
    requires Cut(keys, bs) && bs[|bs| - 1] < hi
    ensures Cut(keys + {hi}, bs + [hi])
  {
  }

  lemma AdjacentAppend(cache: Outstanding, bs: seq<nat>, seg: TcpSegment, hi: nat)
    requires bs != [] && Sorted(bs) && bs[|bs| - 1] < hi
    requires Adjacent(cache, bs) && bs[|bs| - 1] + seg.LengthInSequenceSpace() == hi
    ensures Adjacent(cache[hi := seg], bs + [hi])
  {
    var cache', bs' := cache[hi := seg], bs + [hi];
    forall i | 1 <= i < |bs'| ensures Linked(cache', bs', i) {
      assert i < |bs| ==> Linked(cache, bs, i);
    }
  }

  lemma EmitTiles(s: Sender, bs: seq<nat>, seg: TcpSegment)
    requires s.stream.Valid() && Tiled(s, bs)
    requires Occupies(s.isn, s.stream, seg, s.next, s.next + seg.LengthInSequenceSpace())
    ensures Tiled(Emit(s, seg), bs + [s.next + seg.LengthInSequenceSpace()])
  {
    var hi := s.next + seg.LengthInSequenceSpace();
    CutAppend(s.cache.Keys, bs, hi);
    assert s.cache[hi := seg].Keys == s.cache.Keys + {hi};
    AdjacentAppend(s.cache, bs, seg, hi);
    FilledAppend(s.isn, s.stream, s.cache, seg, hi);
    FlightAppend(bs, s.next, s.bif, hi);
  }

  lemma FilledAppend(isn: u32, s: Stream, cache: Outstanding, seg: TcpSegment, hi: nat)
    requires Filled(isn, s, cache) && Fills(isn, s, seg, hi)
    ensures Filled(isn, s, cache[hi := seg])
  {
    var cache' := cache[hi := seg];
    forall k | k in cache' ensures Fills(isn, s, cache'[k], k) {
      assert k != hi ==> Fills(isn, s, cache[k], k);
    }
  }

  lemma FlightAppend(bs: seq<nat>, next: nat, bif: nat, hi: nat)
    requires FlightFits(bs, next, bif) && Sorted(bs) && next < hi
    ensures FlightFits(bs + [hi], hi, bif + (hi - next))
  {
  }

  /** What one or more emissions do to a sender. */
  ghost predicate Progress(s: Sender, s': Sender) {
    && s'.isn == s.isn && s'.rto == s.rto && s'.defaultRto == s.defaultRto && s'.peerWin == s.peerWin
    && s'.time == s.time && s'.retx == s.retx
    && s'.stream == s.stream.(nread := s'.stream.nread) && s.stream.nread <= s'.stream.nread
    && s.next <= s'.next && AckedUpTo(s') == AckedUpTo(s)
    && s.out <= s'.out
    && s.cache.Keys <= s'.cache.Keys
    && (s'.next > s.next ==> s'.bif <= s'.Window())
    && (s'.next == s.next ==> s' == s)
  }

  /** The segments `segs`, in order, hold exactly the numbers from `lo` up to `hi`. */
  ghost predicate Sequence(isn: u32, s: Stream, segs: seq<TcpSegment>, lo: nat, hi: nat) {
    if segs == [] then lo == hi
    else
      var seg := segs[|segs| - 1];
      var n := seg.LengthInSequenceSpace();
      Fills(isn, s, seg, hi) && Sequence(isn, s, segs[..|segs| - 1], lo, hi - n)
  }

  lemma SequenceAppend(isn: u32, s: Stream, segs: seq<TcpSegment>, lo: nat, mid: nat, seg: TcpSegment, hi: nat)
    requires Sequence(isn, s, segs, lo, mid) && Occupies(isn, s, seg, mid, hi)
    ensures Sequence(isn, s, segs + [seg], lo, hi)
  {
    assert (segs + [seg])[..|segs|] == segs;
  }

  lemma {:induction false} SequenceConcat(isn: u32, s: Stream, a: seq<TcpSegment>, b: seq<TcpSegment>, lo: nat, mid: nat, hi: nat)
    requires Sequence(isn, s, a, lo, mid) && Sequence(isn, s, b, mid, hi)
    ensures Sequence(isn, s, a + b, lo, hi)
    decreases |b|
  {
    if b == [] {
      assert a + b == a;
    } else {
      var seg, front := b[|b| - 1], b[..|b| - 1];
      SequenceConcat(isn, s, a, front, lo, mid, hi - seg.LengthInSequenceSpace());
      assert (a + b)[..|a + b| - 1] == a + front && (a + b)[|a + b| - 1] == seg;
    }
  }

  lemma {:induction false} SequenceGrows(isn: u32, s: Stream, s': Stream, segs: seq<TcpSegment>, lo: nat, hi: nat)
    requires Sequence(isn, s, segs, lo, hi) && Grows(s, s')
    ensures Sequence(isn, s', segs, lo, hi)
    decreases |segs|
  {
    if segs != [] {
      var n := segs[|segs| - 1].LengthInSequenceSpace();
      SequenceGrows(isn, s, s', segs[..|segs| - 1], lo, hi - n);
      OccupiesGrows(isn, s, s', segs[|segs| - 1], hi - n, hi);
    }
  }

  /** As the sender queues it: the receiver's part of the header is not filled in. */
  predicate PlainSegment(seg: TcpSegment) { !seg.header.ack && !seg.header.rst }

  ghost predicate Plain(segs: seq<TcpSegment>) {
    forall seg :: seg in segs ==> PlainSegment(seg)
  }

  lemma {:induction false} SequencePlain(isn: u32, s: Stream, segs: seq<TcpSegment>, lo: nat, hi: nat)
    requires Sequence(isn, s, segs, lo, hi)
    ensures Plain(segs)
    decreases |segs|
  {
    if segs != [] {
      var seg, front := segs[|segs| - 1], segs[..|segs| - 1];
      SequencePlain(isn, s, front, lo, hi - seg.LengthInSequenceSpace());
      assert segs == front + [seg];
    }
  }

  /** From `s` to `s'` only new segments were queued; they hold the numbers between the two
      `next`s in order, and the cache still tiles. */
  ghost predicate Sends(s: Sender, s': Sender, news: seq<TcpSegment>) {
    && Progress(s, s') && Tiling(s')
    && s'.out == s.out + news
    && Sequence(s'.isn, s'.stream, news, s.next, s'.next)
    && CacheFrom(s, s', news)
  }

  /** Everything cached afterwards was cached before, or is new and among `news`. */
  ghost predicate CacheFrom(s: Sender, s': Sender, news: seq<TcpSegment>) {
    forall k :: k in s'.cache ==>
      (k in s.cache && s'.cache[k] == s.cache[k]) || (k > s.next && s'.cache[k] in news)
  }

  lemma CacheFromAppend(s: Sender, s': Sender, news: seq<TcpSegment>, s1: Sender, seg: TcpSegment)
    requires CacheFrom(s, s', news) && s1.cache == s'.cache && s1.stream.Valid()
    requires s1.next + seg.LengthInSequenceSpace() > s.next
    ensures CacheFrom(s, Emit(s1, seg), news + [seg])
  {
  }

  /** One emission after some others; `s1` is `s'` after reading from the stream. */
  lemma SendsOneMore(s: Sender, s': Sender, news: seq<TcpSegment>, s1: Sender, seg: TcpSegment)
    requires Sends(s, s', news)
    requires s1 == s'.(stream := s'.stream.(nread := s1.stream.nread)) && s'.stream.nread <= s1.stream.nread
    requires s1.stream.Valid() && Counted(Emit(s1, seg))
    requires Occupies(s.isn, s1.stream, seg, s1.next, s1.next + seg.LengthInSequenceSpace())
    requires Emit(s1, seg).bif <= s1.Window()
    ensures Sends(s, Emit(s1, seg), news + [seg])
  {
    EmitKeepsTiling(s', s1, seg);
    CacheFromAppend(s, s', news, s1, seg);
    SequenceGrows(s.isn, s'.stream, s1.stream, news, s.next, s'.next);
    SequenceAppend(s.isn, s1.stream, news, s.next, s'.next, seg, s'.next + seg.LengthInSequenceSpace());
    assert s'.out + [seg] == s.out + (news + [seg]);
  }

  lemma EmitKeepsTiling(s: Sender, s1: Sender, seg: TcpSegment)
    requires Tiling(s) && s1 == s.(stream := s1.stream) && Grows(s.stream, s1.stream)
    requires s1.stream.Valid() && Counted(Emit(s1, seg))
    requires Occupies(s.isn, s1.stream, seg, s1.next, s1.next + seg.LengthInSequenceSpace())
    ensures Tiling(Emit(s1, seg))
  {
    var bs :| Tiled(s, bs);
    GrowingKeepsTiles(s, s1, bs);
    EmitTiles(s1, bs, seg);
  }

  lemma GrowingKeepsTiles(s: Sender, s': Sender, bs: seq<nat>)
    requires Tiled(s, bs) && s' == s.(stream := s'.stream) && Grows(s.stream, s'.stream)
    ensures Tiled(s', bs)
  {
    forall k | k in s.cache ensures Fills(s.isn, s'.stream, s.cache[k], k) {
      var seg := s.cache[k];
      assert Fills(s.isn, s.stream, seg, k);
      OccupiesGrows(s.isn, s.stream, s'.stream, seg, k - seg.LengthInSequenceSpace(), k);
    }
  }

  /** Writing to the stream, or ending it, keeps the tiling. */
  lemma GrowthKeepsTiling(s: Sender, stream: Stream)
    requires Tiling(s) && Grows(s.stream, stream) && stream.Valid() && stream.nread == s.stream.nread
    ensures Tiling(s.(stream := stream))
  {
    var bs :| Tiled(s, bs);
    GrowingKeepsTiles(s, s.(stream := stream), bs);
  }

  /** The timer and the queue play no part in the tiling. */
  lemma SameTiling(s: Sender, s': Sender)
    requires Tiling(s)
    requires s'.isn == s.isn && s'.stream == s.stream && s'.next == s.next && s'.cache == s.cache && s'.bif == s.bif
    ensures Tiling(s')
  {
    var bs :| Tiled(s, bs);
    assert Tiled(s', bs);
  }

  lemma SendsNothing(s: Sender)
    requires Tiling(s)
    ensures Sends(s, s, [])
  {
    assert s.out + [] == s.out;
  }

  lemma SynSends(s: Sender)
    requires Tiling(s) && s.next == 0
    ensures SendSyn(s).next == SendSyn(s).bif == 1
    ensures Sends(s, SendSyn(s), [TcpSegment(EMPTY_HEADER.(syn := true, seqno := s.isn), [])])
  {
    NothingInFlightIff(s);
    SendsNothing(s);
    var seg := TcpSegment(EMPTY_HEADER.(syn := true, seqno := s.isn), []);
    SendsOneMore(s, s, [], s, seg);
    assert [] + [seg] == [seg];
  }

  lemma ChunkOccupies(s: Sender, w: nat)
    requires Counted(s) && s.next > 0 && s.stream.Peek(Min(MAX_PAYLOAD_SIZE, w)) != []
    ensures var s1 := s.(stream := s.stream.Pop(Min(MAX_PAYLOAD_SIZE, w)));
            var seg := ChunkSegment(s, w);
            Counted(Emit(s1, seg)) &&
            Occupies(s.isn, s1.stream, seg, s.next, s.next + seg.LengthInSequenceSpace())
  {
  }

  lemma ChunkSends(s: Sender, s': Sender, news: seq<TcpSegment>, w: nat)
    requires Sends(s, s', news) && s'.next > 0 && s'.bif + w <= s'.Window()
    requires s'.stream.Peek(Min(MAX_PAYLOAD_SIZE, w)) != []
    ensures Sends(s, SendChunk(s', w), news + [ChunkSegment(s', w)])
    ensures var e := SendChunk(s', w);
            && e.next > 0 && e.bif + (w - ChunkSegment(s', w).LengthInSequenceSpace()) <= e.Window()
            && e.stream.BufferSize() < s'.stream.BufferSize()
  {
    ChunkOccupies(s', w);
    SendsOneMore(s, s', news, s'.(stream := s'.stream.Pop(Min(MAX_PAYLOAD_SIZE, w))), ChunkSegment(s', w));
  }

  lemma {:induction false} LoopSends(s: Sender, s': Sender, news: seq<TcpSegment>, w: nat) returns (all: seq<TcpSegment>)
    requires Sends(s, s', news) && s'.next > 0 && s'.bif + w <= s'.Window()
    ensures Sends(s, SendLoop(s', w), all)
    ensures SendLoop(s', w).next > 0
    decreases s'.stream.BufferSize()
  {
    if s'.stream.Peek(Min(MAX_PAYLOAD_SIZE, w)) == [] {
      all := news;
    } else {
      var seg := ChunkSegment(s', w);
      ChunkSends(s, s', news, w);
      all := LoopSends(s, SendChunk(s', w), news + [seg], w - seg.LengthInSequenceSpace());
    }
  }

  lemma FinSends(s: Sender, s': Sender, news: seq<TcpSegment>) returns (all: seq<TcpSegment>)
    requires Sends(s, s', news) && s'.next > 0
    ensures Sends(s, SendFin(s'), all)
    ensures var e := SendFin(s'); e.stream.Eof() && e.bif == 0 ==> FinSent(e)
  {
    if s'.FinPending() && s'.Window() > s'.bif {
      var seg := TcpSegment(EMPTY_HEADER.(seqno := s'.NextSeqno(), fin := true), []);
      SendsOneMore(s, s', news, s', seg);
      all := news + [seg];
    } else {
      all := news;
    }
  }

  lemma StartedSends(s: Sender, s': Sender, news: seq<TcpSegment>) returns (all: seq<TcpSegment>)
    requires Sends(s, s', news) && s'.next > 0
    ensures Sends(s, FillStarted(s'), all)
    ensures var e := FillStarted(s'); e.next > 0 && (e.stream.Eof() && e.bif == 0 ==> FinSent(e))
  {
    if !s'.stream.Eof() && s'.next > s'.bif {
      if s'.Window() < s'.bif {
        all := news;
        assert FillStarted(s') == s';
      } else {
        var w := s'.Window() - s'.bif;
        var sent := SendLoop(s', w);
        assert FillStarted(s') == SendFin(sent);
        var data := LoopSends(s, s', news, w);
        all := FinSends(s, sent, data);
      }
    } else {
      assert FillStarted(s') == SendFin(s');
      all := FinSends(s, s', news);
    }
  }

  /** `fill_window` sends only numbers never sent before, in order, each once; it keeps the
      tiling, stays within the window it is allowed, and never leaves the FIN unsent while
      nothing is in flight. */
  lemma FillSends(s: Sender) returns (news: seq<TcpSegment>)
    requires Tiling(s)
    ensures Sends(s, FillWindow(s), news)
    ensures var e := FillWindow(s);
            e.next > 0 && (e.stream.Eof() && e.bif == 0 ==> FinSent(e))
    ensures Plain(news)
  {
    if s.next == 0 {
      SynSends(s);
      news := StartedSends(s, SendSyn(s), [TcpSegment(EMPTY_HEADER.(syn := true, seqno := s.isn), [])]);
    } else {
      SendsNothing(s);
      news := StartedSends(s, s, []);
    }
    SequencePlain(s.isn, FillWindow(s).stream, news, s.next, FillWindow(s).next);
  }

  // ----- acknowledgments -----

  /** The acknowledged number is not before the initial sequence number: what the ack would
      leave in flight is no more than was ever sent. */
  predicate Acceptable(s: Sender, ackno: u32) {
    LeftInFlight(s, ackno) <= s.next
  }

  /** An ack that cannot do harm: an acceptable one, or any one while nothing is cached. */
  predicate Harmless(s: Sender, ackno: u32) {
    Acceptable(s, ackno) || s.cache == map[]
  }

  /** The sequence numbers sent so far fit 64-bit arithmetic. */
  predicate Short(s: Sender) { s.next < TWO63 }

  /** An ack that leaves `n` numbers in flight acknowledges the number `next - n`. */
  lemma OffsetBack(next: nat, isn: u32, ackno: u32, n: nat)
    requires n <= next && Offset(Wrap(next, isn), ackno) == n
    ensures ackno == Wrap(next - n, isn)
  {
    var w := Wrap(next, isn);
    var k := FormOf(next, w, isn);
    var q := (w - ackno) / TWO32;
    assert w - ackno == q * TWO32 + n;
    HasForm(next - n, k + q, ackno, isn);
  }

  ghost predicate WindowBounded(s: Sender) { s.bif <= 0xffff }

  /** An acceptable ack covers exactly the cached segments that end at or before its number. */
  lemma AckedUpToNumber(s: Sender, ackno: u32, k: nat)
    requires Tiling(s) && Short(s) && WindowBounded(s)
    requires 0 <= LeftInFlight(s, ackno) <= s.next
    ensures k in Acked(s, ackno) <==> k in s.cache && k <= s.next - LeftInFlight(s, ackno)
  {
    NothingInFlightIff(s);
    if k in s.cache {
      var a := s.next - LeftInFlight(s, ackno);
      OffsetBack(s.next, s.isn, ackno, LeftInFlight(s, ackno));
      UnwrapWrap(a, s.isn, k);
    }
  }

  /** The last cut at or before `a`. */
  lemma {:induction false} LastCut(bs: seq<nat>, a: nat, n: nat) returns (j: nat)
    requires Sorted(bs) && 0 < n <= |bs| && bs[0] <= a && (n < |bs| ==> a < bs[n])
    ensures j < n && bs[j] <= a && (j + 1 < |bs| ==> a < bs[j + 1])
    decreases n
  {
    if bs[n - 1] <= a {
      j := n - 1;
    } else {
      j := LastCut(bs, a, n - 1);
    }
  }

  lemma CutDrop(keys: set<nat>, bs: seq<nat>, keys': set<nat>, a: nat, j: nat)
    requires Cut(keys, bs) && j < |bs| && bs[j] <= a && (j + 1 < |bs| ==> a < bs[j + 1])
    requires forall k :: k in keys' <==> k in keys && a < k
    ensures Cut(keys', bs[j..])
  {
    var bs' := bs[j..];
    forall k ensures k in keys' <==> k in bs' && bs'[0] < k {
      if k in keys' {
        var i :| 0 <= i < |bs| && bs[i] == k;
        assert i > j;
        assert bs'[i - j] == k;
      }
    }
  }

  lemma AdjacentDrop(cache: Outstanding, bs: seq<nat>, cache': Outstanding, j: nat)
    requires Adjacent(cache, bs) && j < |bs|
    requires forall i :: j < i < |bs| ==> bs[i] in cache'
    requires forall k :: k in cache' ==> k in cache && cache'[k] == cache[k]
    ensures Adjacent(cache', bs[j..])
  {
    var bs' := bs[j..];
    forall i | 1 <= i < |bs'| ensures Linked(cache', bs', i) {
      assert Linked(cache, bs, i + j);
    }
  }

  /** Dropping what lies at or before an acknowledged number `a` keeps the tiling, with `a` the
      new start of what is in flight. */
  lemma AckTiles(s: Sender, bs: seq<nat>, acked: set<nat>, a: nat) returns (bs': seq<nat>)
    requires Tiled(s, bs) && acked != {} && a <= s.next
    requires forall k :: k in acked <==> k in s.cache && k <= a
    ensures Tiled(s.(cache := s.cache - acked, bif := s.next - a), bs')
  {
    var k :| k in acked;
    var j := LastCut(bs, a, |bs|);
    bs' := bs[j..];
    var cache' := s.cache - acked;
    CutDrop(s.cache.Keys, bs, cache'.Keys, a, j);
    forall i | j < i < |bs| ensures bs[i] in cache' {
      assert bs[i] in s.cache.Keys;
    }
    AdjacentDrop(s.cache, bs, cache', j);
  }

  /** The sender just before it refills the window after an ack that covered something. */
  function Acknowledge(s: Sender, ackno: u32, win: u16): (s': Sender)
    requires LeftInFlight(s, ackno) >= 0
  {
    s.(cache := s.cache - Acked(s, ackno), peerWin := win, bif := LeftInFlight(s, ackno),
       time := 0, retx := 0, rto := s.defaultRto)
  }

  lemma AcknowledgeTiles(s: Sender, ackno: u32, win: u16)
    requires Tiling(s) && Short(s) && WindowBounded(s)
    requires 0 <= LeftInFlight(s, ackno) <= s.next && Acked(s, ackno) != {}
    ensures Tiling(Acknowledge(s, ackno, win))
    ensures Acknowledge(s, ackno, win).bif < s.bif
  {
    var n := LeftInFlight(s, ackno);
    forall k ensures k in Acked(s, ackno) <==> k in s.cache && k <= s.next - n {
      if k in s.cache { AckedUpToNumber(s, ackno, k); }
    }
    var bs :| Tiled(s, bs);
    var bs' := AckTiles(s, bs, Acked(s, ackno), s.next - n);
    assert Tiled(Acknowledge(s, ackno, win), bs');
    var k :| k in Acked(s, ackno);
    NothingInFlightIff(s);
  }

  /** A sender that has started and does not forget its FIN: once everything is read and
      acknowledged, the FIN was sent. */
  ghost predicate FinDue(s: Sender) {
    s.stream.Valid() && s.next > 0 && (s.stream.Eof() && s.bif == 0 ==> FinSent(s))
  }

  /** Every harmless ack keeps the tiling; what it queues is new, in order and each once. */
  lemma AckKeepsTiling(s: Sender, ackno: u32, win: u16) returns (news: seq<TcpSegment>)
    requires Tiling(s) && Short(s) && WindowBounded(s) && Harmless(s, ackno)
    ensures var e := AckReceived(s, ackno, win);
            && Tiling(e) && WindowBounded(e)
            && e.out == s.out + news && s.next <= e.next
            && e.isn == s.isn && e.defaultRto == s.defaultRto
            && e.stream == s.stream.(nread := e.stream.nread) && s.stream.nread <= e.stream.nread
            && AckedUpTo(s) <= AckedUpTo(e)
            && (AckedUpTo(e) == AckedUpTo(s) || AckedUpTo(e) == s.next - LeftInFlight(s, ackno))
            && Sequence(e.isn, e.stream, news, s.next, e.next) && Plain(news)
    ensures FinDue(s) ==> FinDue(AckReceived(s, ackno, win))
  {
    if LeftInFlight(s, ackno) >= 0 && Acked(s, ackno) != {} {
      AcknowledgeTiles(s, ackno, win);
      AckIsFill(s, ackno, win);
      news := FillSends(Acknowledge(s, ackno, win));
    } else {
      news := [];
      assert s.out + [] == s.out;
      IdleAck(s, ackno, win);
      SameTiling(s, AckReceived(s, ackno, win));
    }
  }

  lemma AckIsFill(s: Sender, ackno: u32, win: u16)
    requires s.Valid() && LeftInFlight(s, ackno) >= 0 && Acked(s, ackno) != {}
    ensures AckReceived(s, ackno, win) == FillWindow(Acknowledge(s, ackno, win))
  {
  }

  /** An ack that covers nothing changes at most the window. */
  lemma IdleAck(s: Sender, ackno: u32, win: u16)
    requires s.Valid() && (LeftInFlight(s, ackno) < 0 || Acked(s, ackno) == {})
    ensures AckReceived(s, ackno, win) == s.(peerWin := AckReceived(s, ackno, win).peerWin)
  {
    assert s.cache - {} == s.cache;
  }

  // ----- an ack from before the initial sequence number -----

  /** Such an ack is unwrapped to a number beyond everything in flight. */
  lemma UnacceptableCoversAll(s: Sender, ackno: u32, k: nat)
    requires Tiling(s) && WindowBounded(s) && s.next < LeftInFlight(s, ackno) && k in s.cache
    ensures k in Acked(s, ackno)
  {
    var n := LeftInFlight(s, ackno);
    NothingInFlightIff(s);
    OffsetFromKey(s.next, s.isn, ackno, n, k);
    UnwrapLandsAbove(ackno, s.isn, k, s.next - n);
  }

  lemma OffsetFromKey(next: nat, isn: u32, ackno: u32, n: nat, k: nat)
    requires Offset(Wrap(next, isn), ackno) == n && k <= next < n && next - k <= 0xffff
    ensures Offset(ackno, Wrap(k, isn)) == next - n - k
  {
    var w, v := Wrap(next, isn), Wrap(k, isn);
    var p := FormOf(next, w, isn);
    var r := FormOf(k, v, isn);
    var q := (w - ackno) / TWO32;
    assert w - ackno == q * TWO32 + n;
    assert next - k == w - v + (p - r) * TWO32;
    assert ackno - v == (r - p - q - 1) * TWO32 + (next - n - k + TWO32);
    ModIs(ackno - v, r - p - q - 1, next - n - k + TWO32);
  }

  lemma UnwrapLandsAbove(ackno: u32, isn: u32, k: nat, a: int)
    requires k < TWO31 && Offset(ackno, Wrap(k, isn)) == a - k && -TWO31 < a < 0
    ensures Unwrap(ackno, isn, k) == a + TWO32 > k
  {
    UnwrapLands(ackno, isn, k);
  }

  /** `fill_window` never lowers what is in flight below the excess it was given. */
  lemma FillKeepsExcess(s: Sender)
    requires s.Valid() && s.next > 0 && s.bif > s.next
    ensures FillWindow(s).bif > FillWindow(s).next
  {
  }

  /** An ack keeps the tiling exactly when it is harmless. */
  lemma AckKeepsTilingIff(s: Sender, ackno: u32, win: u16)
    requires Tiling(s) && Short(s) && WindowBounded(s)
    ensures Tiling(AckReceived(s, ackno, win)) <==> Harmless(s, ackno)
  {
    if Harmless(s, ackno) {
      var news := AckKeepsTiling(s, ackno, win);
    } else {
      var k :| k in s.cache;
      UnacceptableCoversAll(s, ackno, k);
      NothingInFlightIff(s);
      FillKeepsExcess(Acknowledge(s, ackno, win));
      var e := AckReceived(s, ackno, win);
      if Tiling(e) {
        NothingInFlightIff(e);
      }
    }
  }
}
