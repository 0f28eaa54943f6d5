/** Whole runs of the reassembler: what comes out is always a prefix of the stream pushed in,
    and which prefix does not depend on the order, overlap or repetition of the pushes. */
module ReassemblyRuns {
  import opened Numbers
  import opened ByteStreams
  import opened OrderedMaps
  import opened StreamReassemblers
  import opened ReassemblerProofs

  datatype Op = PushOp(data: seq<byte>, index: nat, eof: bool) | TakeOp(len: nat)

  function Step(r: Reassembler, op: Op): (r': Reassembler)
    requires r.output.Valid()
    ensures r'.output.Valid()
  {
    match op
    case PushOp(data, index, eof) => Push(r, data, index, eof)
    case TakeOp(len) => r.(output := r.output.Pop(len))
  }

  function Run(capacity: nat, ops: seq<Op>): (r: Reassembler)
    ensures r.output.Valid()
  {
    if ops == [] then Fresh(capacity) else Step(Run(capacity, ops[..|ops| - 1]), ops[|ops| - 1])
  }

  /** `op` pushes a piece of `stream`, marked as its end only if it is. */
  ghost predicate Proper(op: Op, stream: seq<byte>) {
    op.PushOp? ==> Piece(stream, op.index, op.data) && (op.eof ==> op.index + |op.data| == |stream|)
  }

  ghost predicate AllProper(ops: seq<Op>, stream: seq<byte>) {
    forall op :: op in ops ==> Proper(op, stream)
  }

  /** Some push of `ops` had the byte at index `i`. */
  ghost predicate Pushed(ops: seq<Op>, i: nat) {
    exists j :: 0 <= j < |ops| && ops[j].PushOp? && ops[j].index <= i < ops[j].index + |ops[j].data|
  }

  ghost predicate EofPushed(ops: seq<Op>) {
    exists j :: 0 <= j < |ops| && ops[j].PushOp? && ops[j].eof
  }

  // ----- safety, whatever the capacity -----

  ghost predicate Safe(r: Reassembler, stream: seq<byte>, eofSeen: bool) {
    && WellFormed(r)
    && r.output.log <= stream
    && CacheOf(stream, r.segments)
    && r.eofIdx == (if eofSeen then |stream| else NO_EOF)
    && (r.output.ended <==> eofSeen && r.output.log == stream)
  }

  lemma WriteOfStream(stream: seq<byte>, s: Stream, k: nat, d: seq<byte>)
    requires s.Valid() && s.log <= stream && Piece(stream, k, d) && k <= |s.log| <= k + |d|
    ensures s.Write(d[|s.log| - k..]).log <= stream
  {
    var rest := d[|s.log| - k..];
    if rest == [] {
      assert s.log + rest[..0] == s.log;
    } else {
      assert rest == stream[|s.log|..k + |d|];
      assert s.log + rest[..s.Fit(rest)] == stream[..|s.log| + s.Fit(rest)];
    }
  }

  lemma FlushStepOfStream(stream: seq<byte>, f: Flush, k: nat, d: seq<byte>)
    requires f.output.Valid() && f.idx == |f.output.log| && f.output.log <= stream && Piece(stream, k, d)
    ensures FlushStep(f, k, d).output.log <= stream
  {
    if k <= f.idx < k + |d| {
      WriteOfStream(stream, f.output, k, d);
    }
  }

  lemma {:induction false} FlushOfStream(stream: seq<byte>, m: Cache, ks: seq<nat>, n: nat, output: Stream)
    requires n <= |ks| && Enumerates(ks, m) && output.Valid()
    requires CacheOf(stream, m) && output.log <= stream
    ensures FlushUpTo(m, ks, n, |output.log|, output).output.log <= stream
  {
    if n > 0 {
      var f, k := FlushUpTo(m, ks, n - 1, |output.log|, output), ks[n - 1];
      assert k in ks;
      FlushOfStream(stream, m, ks, n - 1, output);
      FlushInvariant(m, ks, n - 1, output);
      FlushStepOfStream(stream, f, k, m[k]);
    }
  }

  lemma LessOfStream(stream: seq<byte>, m: Cache, keys: set<nat>)
    requires CacheOf(stream, m)
    ensures CacheOf(stream, m - keys)
  {
    forall k | k in m - keys ensures Piece(stream, k, (m - keys)[k]) {
      assert Piece(stream, k, m[k]);
    }
  }

  lemma FlushAllOfStream(stream: seq<byte>, m: Cache, output: Stream)
    requires output.Valid() && CacheOf(stream, m) && output.log <= stream
    ensures FlushAll(m, |output.log|, output).output.log <= stream
  {
    var ks := SortedKeys(m.Keys);
    KeysEnumerate(m);
    FlushOfStream(stream, m, ks, |ks|, output);
  }

  /** The output just after the pushed bytes were written, before the flush. */
  function Written(r: Reassembler, data: seq<byte>, index: nat): (out: Stream)
    requires r.output.Valid() && index <= r.assembleIdx <= index + |data|
    ensures out.Valid()
  {
    r.output.Write(data[r.assembleIdx - index..])
  }

  /** A push that continues the output, in terms of the flush that follows the write. */
  lemma AssembleIsFlush(r: Reassembler, data: seq<byte>, index: nat, eof: bool)
    requires WellFormed(r) && index <= r.assembleIdx <= index + |data|
    ensures var out := Written(r, data, index);
            var f := FlushAll(r.segments, |out.log|, out);
            var r' := Push(r, data, index, eof);
            && r'.assembleIdx == f.idx && r'.output.log == f.output.log && r'.segments == r.segments - f.popped
            && r'.eofIdx == (if eof then index + |data| else r.eofIdx)
            && r'.output.ended == (f.output.ended || (UnassembledBytes(r'.segments) == 0 && f.idx == r'.eofIdx))
  {
  }

  lemma AssembleOfStream(r: Reassembler, stream: seq<byte>, data: seq<byte>, index: nat, eof: bool)
    requires WellFormed(r) && r.output.log <= stream && CacheOf(stream, r.segments) && Piece(stream, index, data)
    requires index <= r.assembleIdx <= index + |data|
    ensures Push(r, data, index, eof).output.log <= stream
    ensures CacheOf(stream, Push(r, data, index, eof).segments)
  {
    AssembleIsFlush(r, data, index, eof);
    WrittenAndFlushed(r, stream, data, index);
  }

  lemma WrittenOfStream(r: Reassembler, stream: seq<byte>, data: seq<byte>, index: nat)
    requires WellFormed(r) && r.output.log <= stream && Piece(stream, index, data)
    requires index <= r.assembleIdx <= index + |data|
    ensures Written(r, data, index).log <= stream
  {
    WriteOfStream(stream, r.output, index, data);
  }

  lemma FlushedOfStream(stream: seq<byte>, m: Cache, out: Stream)
    requires out.Valid() && CacheOf(stream, m) && out.log <= stream
    ensures var f := FlushAll(m, |out.log|, out);
            f.output.log <= stream && CacheOf(stream, m - f.popped)
  {
    FlushAllOfStream(stream, m, out);
    LessOfStream(stream, m, FlushAll(m, |out.log|, out).popped);
  }

  lemma WrittenAndFlushed(r: Reassembler, stream: seq<byte>, data: seq<byte>, index: nat)
    requires WellFormed(r) && r.output.log <= stream && CacheOf(stream, r.segments) && Piece(stream, index, data)
    requires index <= r.assembleIdx <= index + |data|
    ensures var out := Written(r, data, index);
            var f := FlushAll(r.segments, |out.log|, out);
            f.output.log <= stream && CacheOf(stream, r.segments - f.popped)
  {
    WrittenOfStream(r, stream, data, index);
    FlushedOfStream(stream, r.segments, Written(r, data, index));
  }

  /** With the whole stream out, nothing of it can be waiting. */
  lemma NothingBeyondTheEnd(r: Reassembler, stream: seq<byte>)
    requires WellFormed(r) && r.output.log == stream && CacheOf(stream, r.segments)
    ensures UnassembledBytes(r.segments) == 0
  {
    forall i: nat ensures !Covered(r.segments, i) {
      forall k ensures !Has(r.segments, k, i) {
      }
    }
    NothingUnassembled(r.segments);
  }

  lemma AssembleIsSafe(r: Reassembler, stream: seq<byte>, eofSeen: bool, data: seq<byte>, index: nat, eof: bool)
    requires |stream| < NO_EOF && Safe(r, stream, eofSeen) && Proper(PushOp(data, index, eof), stream)
    requires index <= r.assembleIdx <= index + |data|
    ensures Safe(Push(r, data, index, eof), stream, eofSeen || eof)
  {
    var r', out := Push(r, data, index, eof), Written(r, data, index);
    PushKeepsWellFormed(r, data, index, eof);
    AssembleOfStream(r, stream, data, index, eof);
    AssembleIsFlush(r, data, index, eof);
    FlushAllKeeps(r.segments, out);
    if r'.output.log == stream {
      NothingBeyondTheEnd(r', stream);
    } else {
      assert |r'.output.log| < |stream|;
      assert r.output.ended ==> r.output.log == stream && r.output.log <= r'.output.log;
    }
  }

  lemma PushIsSafe(r: Reassembler, stream: seq<byte>, eofSeen: bool, data: seq<byte>, index: nat, eof: bool)
    requires |stream| < NO_EOF && Safe(r, stream, eofSeen) && Proper(PushOp(data, index, eof), stream)
    ensures Safe(Push(r, data, index, eof), stream, eofSeen || eof)
  {
    if index > r.assembleIdx {
      PushKeepsWellFormed(r, data, index, eof);
      MergeOfStream(stream, r.segments, index, data);
    } else if index + |data| >= r.assembleIdx {
      AssembleIsSafe(r, stream, eofSeen, data, index, eof);
    }
  }

  /** Prefix safety, for any capacity and any interleaving of pushes and reads: the output is
      always a prefix of the stream, and it is marked ended exactly when an end-of-stream push
      was seen and the whole stream came out. */
  lemma {:induction false} RunIsSafe(capacity: nat, ops: seq<Op>, stream: seq<byte>)
    requires |stream| < NO_EOF && AllProper(ops, stream)
    ensures Safe(Run(capacity, ops), stream, EofPushed(ops))
  {
    if ops != [] {
      var before, op := ops[..|ops| - 1], ops[|ops| - 1];
      RunIsSafe(capacity, before, stream);
      assert Proper(op, stream);
      assert EofPushed(ops) <==> EofPushed(before) || (op.PushOp? && op.eof);
      if op.PushOp? {
        PushIsSafe(Run(capacity, before), stream, EofPushed(before), op.data, op.index, op.eof);
      }
    }
  }

  // ----- completeness: nothing is lost -----

  /** The first index that the output cannot hold until the application reads. */
  function WindowEnd(r: Reassembler): nat { r.output.nread + r.output.capacity }

  /** Index `i` was assembled or is cached. */
  ghost predicate Held(r: Reassembler, i: nat) {
    i < r.assembleIdx || Covered(r.segments, i)
  }

  /** The push continues the output past what it can hold: from the assembled index up to and
      including the first one that no longer fits, every byte is in the push or cached. */
  ghost predicate Overruns(r: Reassembler, data: seq<byte>, index: nat) {
    && index <= r.assembleIdx <= index + |data|
    && forall i: nat :: r.assembleIdx <= i <= WindowEnd(r) ==> index <= i < index + |data| || Covered(r.segments, i)
  }

  /** What the flush has done with the first `n` keys. A substring leaves the cache only when
      every byte of it is in the output, or the output is full and reaches it. */
  ghost predicate Flushed(m: Cache, ks: seq<nat>, n: nat, output: Stream, f: Flush)
    requires n <= |ks| && forall k :: k in ks ==> k in m
  {
    && |output.log| <= f.idx <= output.nread + output.capacity
    && (forall i: nat :: |output.log| <= i < f.idx ==> Covered(m, i))
    && (forall j :: 0 <= j < n && ks[j] in f.popped ==>
          || ks[j] + |m[ks[j]]| <= f.idx || |m[ks[j]]| == 0
          || ks[j] <= f.idx == output.nread + output.capacity)
  }

  lemma {:induction false} FlushIsExact(m: Cache, ks: seq<nat>, n: nat, output: Stream)
    requires n <= |ks| && Enumerates(ks, m) && output.Valid()
    ensures Flushed(m, ks, n, output, FlushUpTo(m, ks, n, |output.log|, output))
  {
    if n > 0 {
      var f := FlushUpTo(m, ks, n - 1, |output.log|, output);
      FlushIsExact(m, ks, n - 1, output);
      FlushInvariant(m, ks, n - 1, output);
      assert ks[n - 1] in ks;
      FlushStepIsExact(m, ks, n - 1, output, f);
    }
  }

  lemma FlushStepIsExact(m: Cache, ks: seq<nat>, n: nat, output: Stream, f: Flush)
    requires n < |ks| && Enumerates(ks, m) && ks[n] in m
    requires Flushing(m, ks, n, output, f) && Flushed(m, ks, n, output, f)
    ensures Flushed(m, ks, n + 1, output, FlushStep(f, ks[n], m[ks[n]]))
  {
    var k, g := ks[n], FlushStep(f, ks[n], m[ks[n]]);
    forall i: nat | f.idx <= i < g.idx ensures Covered(m, i) {
      assert Has(m, k, i);
    }
  }

  /** The flush of a whole cache, with its keys forgotten. */
  lemma FlushAllIsExact(m: Cache, out: Stream)
    requires out.Valid()
    ensures var f := FlushAll(m, |out.log|, out);
            && |out.log| <= f.idx <= out.nread + out.capacity
            && (forall i: nat :: |out.log| <= i < f.idx ==> Covered(m, i))
            && (forall k :: k in m && k in f.popped ==>
                  || k + |m[k]| <= f.idx || |m[k]| == 0
                  || k <= f.idx == out.nread + out.capacity)
  {
    var ks := SortedKeys(m.Keys);
    KeysEnumerate(m);
    FlushIsExact(m, ks, |ks|, out);
    forall k | k in m ensures k in ks {
    }
  }

  /** Where a push that continues the output leaves the assembled index, what it covered on
      the way there, and what can have left the cache. */
  lemma AssembleReaches(r: Reassembler, data: seq<byte>, index: nat, eof: bool)
    requires WellFormed(r) && index <= r.assembleIdx <= index + |data|
    ensures var r' := Push(r, data, index, eof);
            && |Written(r, data, index).log| == Min(index + |data|, WindowEnd(r)) <= r'.assembleIdx <= WindowEnd(r)
            && (forall i: nat :: |Written(r, data, index).log| <= i < r'.assembleIdx ==> Covered(r.segments, i))
            && r'.segments.Keys <= r.segments.Keys
            && (forall k :: k in r'.segments ==> r'.segments[k] == r.segments[k])
            && (forall k :: k in r.segments && k !in r'.segments ==>
                  || k + |r.segments[k]| <= r'.assembleIdx || |r.segments[k]| == 0
                  || k <= r'.assembleIdx == WindowEnd(r))
  {
    AssembleIsFlush(r, data, index, eof);
    FlushAllIsExact(r.segments, Written(r, data, index));
  }

  lemma KeptIsCovered(m: Cache, m': Cache, idx: nat, i: nat)
    requires forall k :: k in m' ==> k in m && m'[k] == m[k]
    requires forall k :: k in m && k !in m' ==> k + |m[k]| <= idx || |m[k]| == 0
    requires i >= idx
    ensures Covered(m', i) <==> Covered(m, i)
  {
    forall k ensures Has(m', k, i) <==> Has(m, k, i) {
    }
  }

  lemma AssembleHolds(r: Reassembler, data: seq<byte>, index: nat, eof: bool, i: nat)
    requires WellFormed(r) && index <= r.assembleIdx <= index + |data| && !Overruns(r, data, index)
    ensures Held(Push(r, data, index, eof), i) <==> Held(r, i) || index <= i < index + |data|
  {
    var m, r', end := r.segments, Push(r, data, index, eof), WindowEnd(r);
    AssembleReaches(r, data, index, eof);
    if r'.assembleIdx == end {
      forall j: nat | r.assembleIdx <= j < end ensures index <= j < index + |data| || Covered(m, j) {
      }
      assert !(index <= end < index + |data|) && !Covered(m, end);
      forall k | k in m && k !in r'.segments ensures k + |m[k]| <= end || |m[k]| == 0 {
        assert !Has(m, k, end);
      }
    }
    if i >= r'.assembleIdx {
      KeptIsCovered(m, r'.segments, r'.assembleIdx, i);
    } else {
      assert i < r.assembleIdx || index <= i < index + |data| || Covered(m, i);
    }
  }

  /** A push that does not overrun the output loses nothing: afterwards exactly the indexes
      held before and the pushed ones are held. */
  lemma PushHolds(r: Reassembler, data: seq<byte>, index: nat, eof: bool, i: nat)
    requires WellFormed(r) && !Overruns(r, data, index)
    ensures Held(Push(r, data, index, eof), i) <==> Held(r, i) || index <= i < index + |data|
  {
    if index > r.assembleIdx {
      MergeIsExact(r.segments, index, data, i);
    } else if index + |data| >= r.assembleIdx {
      AssembleHolds(r, data, index, eof, i);
    }
  }

  /** A push that overruns the output fills it and loses at least the first index that no
      longer fits. */
  lemma OverrunLoses(r: Reassembler, data: seq<byte>, index: nat, eof: bool)
    requires WellFormed(r) && Overruns(r, data, index)
    ensures var end := WindowEnd(r);
            && (Held(r, end) || index <= end < index + |data|)
            && Push(r, data, index, eof).assembleIdx == end
            && !Held(Push(r, data, index, eof), end)
  {
    var m, r', end := r.segments, Push(r, data, index, eof), WindowEnd(r);
    AssembleReaches(r, data, index, eof);
    if r'.assembleIdx < end {
      KeptIsCovered(m, r'.segments, r'.assembleIdx, r'.assembleIdx);
    }
    PushKeepsWellFormed(r, data, index, eof);
  }

  /** A push loses a byte, its own or a cached one, exactly when it overruns the output. */
  lemma PushLosesIff(r: Reassembler, data: seq<byte>, index: nat, eof: bool)
    requires WellFormed(r)
    ensures Overruns(r, data, index) <==>
              exists i: nat :: (Held(r, i) || index <= i < index + |data|) && !Held(Push(r, data, index, eof), i)
  {
    if Overruns(r, data, index) {
      OverrunLoses(r, data, index, eof);
    } else {
      forall i: nat | Held(r, i) || index <= i < index + |data| ensures Held(Push(r, data, index, eof), i) {
        PushHolds(r, data, index, eof, i);
      }
    }
  }

  // ----- when the end is reached -----

  /** A stream that ends at `end` fits: the output can hold it, and no byte past its end is
      cached, except in a substring that a full output makes the flush drop. */
  ghost predicate EndFits(r: Reassembler, end: nat) {
    && end <= WindowEnd(r)
    && forall k :: k in r.segments ==>
         r.segments[k] == [] || k + |r.segments[k]| <= end || k <= end == WindowEnd(r)
  }

  lemma NothingAtFittingEnd(r: Reassembler, end: nat)
    requires EndFits(r, end) && end < WindowEnd(r)
    ensures !Covered(r.segments, end)
  {
    forall k ensures !Has(r.segments, k, end) {
    }
  }

  lemma FittingEndIsReached(r: Reassembler, data: seq<byte>, index: nat)
    requires WellFormed(r) && index <= r.assembleIdx <= index + |data| && EndFits(r, index + |data|)
    ensures Push(r, data, index, true).output.ended
  {
    var r', end := Push(r, data, index, true), index + |data|;
    AssembleReaches(r, data, index, true);
    PushKeepsWellFormed(r, data, index, true);
    AssembleIsFlush(r, data, index, true);
    if end < WindowEnd(r) {
      NothingAtFittingEnd(r, end);
    }
    assert r'.assembleIdx == end;
    forall i: nat ensures !Covered(r'.segments, i) {
      forall k ensures !Has(r'.segments, k, i) {
        assert k in r'.segments ==> k in r.segments && r'.segments[k] == r.segments[k] && end < k;
      }
    }
    NothingUnassembled(r'.segments);
  }

  lemma ReachedEndFits(r: Reassembler, data: seq<byte>, index: nat)
    requires WellFormed(r) && index <= r.assembleIdx <= index + |data| && !r.output.ended
    requires Push(r, data, index, true).output.ended
    ensures EndFits(r, index + |data|)
  {
    var r', end := Push(r, data, index, true), index + |data|;
    AssembleReaches(r, data, index, true);
    PushKeepsWellFormed(r, data, index, true);
    AssembleIsFlush(r, data, index, true);
    FlushAllKeeps(r.segments, Written(r, data, index));
    assert r'.assembleIdx == end && UnassembledBytes(r'.segments) == 0;
    forall k | k in r.segments
      ensures r.segments[k] == [] || k + |r.segments[k]| <= end || k <= end == WindowEnd(r)
    {
      if k in r'.segments {
        NothingInside(r'.segments, k);
      }
    }
  }

  lemma NothingInside(m: Cache, k: nat)
    requires Separated(m) && UnassembledBytes(m) == 0 && k in m
    ensures m[k] == []
  {
    if m[k] != [] {
      var end := CacheEnds(m);
      UnassembledIsCount(m, end);
      CountSubstring(m, k, k + |m[k]|);
      CountMonotone(m, k + |m[k]|, end);
    }
  }

  lemma {:induction false} CountMonotone(m: Cache, lo: nat, hi: nat)
    requires lo <= hi
    ensures CoveredCount(m, lo) <= CoveredCount(m, hi)
    decreases hi
  {
    if lo < hi {
      CountMonotone(m, lo, hi - 1);
    }
  }

  /** The last substring, reaching the assembled index, ends the output exactly when the end
      fits. */
  lemma EndReachedIff(r: Reassembler, data: seq<byte>, index: nat)
    requires WellFormed(r) && index <= r.assembleIdx <= index + |data| && !r.output.ended
    ensures Push(r, data, index, true).output.ended <==> EndFits(r, index + |data|)
  {
    if EndFits(r, index + |data|) {
      FittingEndIsReached(r, data, index);
    } else if Push(r, data, index, true).output.ended {
      ReachedEndFits(r, data, index);
    }
  }

  /** No push of the run overran the output it met. */
  ghost predicate Lossless(capacity: nat, ops: seq<Op>) {
    ops != [] ==>
      var before, op := ops[..|ops| - 1], ops[|ops| - 1];
      Lossless(capacity, before) && (op.PushOp? ==> !Overruns(Run(capacity, before), op.data, op.index))
  }

  lemma {:induction false} RunIsWellFormed(capacity: nat, ops: seq<Op>)
    ensures WellFormed(Run(capacity, ops))
  {
    if ops != [] {
      var before, op := ops[..|ops| - 1], ops[|ops| - 1];
      RunIsWellFormed(capacity, before);
      if op.PushOp? {
        PushKeepsWellFormed(Run(capacity, before), op.data, op.index, op.eof);
      }
    }
  }

  lemma {:induction false} RunHolds(capacity: nat, ops: seq<Op>, i: nat)
    requires Lossless(capacity, ops)
    ensures Held(Run(capacity, ops), i) <==> Pushed(ops, i)
  {
    if ops != [] {
      var before, op := ops[..|ops| - 1], ops[|ops| - 1];
      RunHolds(capacity, before, i);
      RunIsWellFormed(capacity, before);
      assert Pushed(ops, i) <==> Pushed(before, i) || (op.PushOp? && op.index <= i < op.index + |op.data|);
      if op.PushOp? {
        PushHolds(Run(capacity, before), op.data, op.index, op.eof, i);
      }
    }
  }

  /** `n` is the first index that no push covered. */
  ghost predicate FirstMissing(ops: seq<Op>, n: nat) {
    !Pushed(ops, n) && forall i :: 0 <= i < n ==> Pushed(ops, i)
  }

  /** What came out is everything up to the first index that no push covered. */
  ghost predicate Complete(capacity: nat, ops: seq<Op>) {
    FirstMissing(ops, |Run(capacity, ops).output.log|)
  }

  lemma LosslessIsComplete(capacity: nat, ops: seq<Op>)
    requires Lossless(capacity, ops)
    ensures Complete(capacity, ops)
  {
    var r := Run(capacity, ops);
    RunIsWellFormed(capacity, ops);
    forall i: nat ensures Held(r, i) <==> Pushed(ops, i) {
      RunHolds(capacity, ops, i);
    }
    assert !Held(r, r.assembleIdx);
    forall i | 0 <= i < r.assembleIdx ensures Pushed(ops, i) {
      assert Held(r, i);
    }
  }

  /** Reassembly is complete and order-independent: when no push overruns the output, what
      comes out is the stream up to the first index no push has covered, and it is ended
      exactly when an end-of-stream push was seen and every index was covered. */
  lemma ReassemblyIsOrderIndependent(capacity: nat, ops: seq<Op>, stream: seq<byte>)
    requires |stream| < NO_EOF && AllProper(ops, stream) && Lossless(capacity, ops)
    ensures var out := Run(capacity, ops).output;
            && FirstMissing(ops, |out.log|)
            && out.log <= stream
            && (out.ended <==> EofPushed(ops) && forall i :: 0 <= i < |stream| ==> Pushed(ops, i))
  {
    RunIsSafe(capacity, ops, stream);
    LosslessIsComplete(capacity, ops);
    if |Run(capacity, ops).output.log| < |stream| {
      assert !Pushed(ops, |Run(capacity, ops).output.log|);
    }
  }

  /** The output is complete after every operation of a run exactly when no push of it overran
      the output. */
  lemma {:induction false} CompleteIffLossless(capacity: nat, ops: seq<Op>)
    ensures Lossless(capacity, ops) <==> forall n: nat :: n <= |ops| ==> Complete(capacity, ops[..n])
    decreases |ops|
  {
    assert ops[..|ops|] == ops;
    if ops == [] {
      LosslessIsComplete(capacity, ops);
    } else {
      var before, op := ops[..|ops| - 1], ops[|ops| - 1];
      CompleteIffLossless(capacity, before);
      forall n: nat | n <= |before| ensures ops[..n] == before[..n] {
      }
      if Lossless(capacity, ops) {
        LosslessIsComplete(capacity, ops);
      } else if Lossless(capacity, before) {
        var r := Run(capacity, before);
        RunIsWellFormed(capacity, before);
        OverrunLoses(r, op.data, op.index, op.eof);
        RunHolds(capacity, before, WindowEnd(r));
        OverrunIsPushed(capacity, ops);
      }
    }
  }

  lemma OverrunIsPushed(capacity: nat, ops: seq<Op>)
    requires ops != [] && ops[|ops| - 1].PushOp? && Lossless(capacity, ops[..|ops| - 1])
    requires Overruns(Run(capacity, ops[..|ops| - 1]), ops[|ops| - 1].data, ops[|ops| - 1].index)
    ensures Run(capacity, ops).assembleIdx == |Run(capacity, ops).output.log|
    ensures Pushed(ops, |Run(capacity, ops).output.log|)
  {
    var before, op := ops[..|ops| - 1], ops[|ops| - 1];
    var r := Run(capacity, before);
    RunIsWellFormed(capacity, before);
    RunIsWellFormed(capacity, ops);
    OverrunLoses(r, op.data, op.index, op.eof);
    if Held(r, WindowEnd(r)) {
      RunHolds(capacity, before, WindowEnd(r));
      var j :| 0 <= j < |before| && before[j].PushOp? && before[j].index <= WindowEnd(r) < before[j].index + |before[j].data|;
      assert ops[j] == before[j];
    } else {
      assert ops[|ops| - 1] == op;
    }
  }

  /** Two runs over the same bytes give the same output, however they were cut and ordered. */
  lemma SameBytesSameOutput(capacity: nat, ops: seq<Op>, capacity': nat, ops': seq<Op>, stream: seq<byte>)
    requires |stream| < NO_EOF && AllProper(ops, stream) && AllProper(ops', stream)
    requires Lossless(capacity, ops) && Lossless(capacity', ops')
    requires forall i :: Pushed(ops, i) <==> Pushed(ops', i)
    requires EofPushed(ops) <==> EofPushed(ops')
    ensures Run(capacity, ops).output.log == Run(capacity', ops').output.log
    ensures Run(capacity, ops).output.ended == Run(capacity', ops').output.ended
  {
    ReassemblyIsOrderIndependent(capacity, ops, stream);
    ReassemblyIsOrderIndependent(capacity', ops', stream);
    var n, n' := |Run(capacity, ops).output.log|, |Run(capacity', ops').output.log|;
    assert !(n < n') && !(n' < n);
  }
}
