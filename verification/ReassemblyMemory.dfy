/** How much a reassembler holds: its header file promises a limit that the code does not
    enforce. This says how much every push leaves it with, and exactly when the limit is kept. */
module ReassemblyMemory {
  import opened Numbers
  import opened ByteStreams
  import opened StreamReassemblers
  import opened ReassemblerProofs
  import opened ReassemblyRuns

  // ----- the indexes held, counted -----

  /** The number of indexes below `n` that were assembled or are cached. */
  ghost function HeldCount(r: Reassembler, n: nat): nat {
    if n == 0 then 0 else HeldCount(r, n - 1) + (if Held(r, n - 1) then 1 else 0)
  }

  lemma CachedIsAhead(r: Reassembler, i: nat)
    requires WellFormed(r) && Covered(r.segments, i)
    ensures r.assembleIdx < i
  {
    var k :| Has(r.segments, k, i);
  }

  lemma {:induction false} HeldIsSum(r: Reassembler, n: nat)
    requires WellFormed(r)
    ensures HeldCount(r, n) == Min(r.assembleIdx, n) + CoveredCount(r.segments, n)
  {
    if n > 0 {
      HeldIsSum(r, n - 1);
      if Covered(r.segments, n - 1) {
        CachedIsAhead(r, n - 1);
      }
    }
  }

  function Max(a: nat, b: nat): nat { if a <= b then b else a }

  lemma {:induction false} HeldCountGrows(r: Reassembler, r': Reassembler, lo: nat, hi: nat, n: nat)
    requires forall i: nat :: Held(r', i) <==> Held(r, i) || lo <= i < hi
    ensures HeldCount(r', n) == HeldCount(r, n) + MissingCount(r.segments, Max(lo, r.assembleIdx), Min(n, hi))
  {
    if n > 0 {
      HeldCountGrows(r, r', lo, hi, n - 1);
      assert Held(r', n - 1) <==> Held(r, n - 1) || lo <= n - 1 < hi;
    }
  }

  /** Everything assembled and everything cached, in bytes. */
  function Size(r: Reassembler): nat { r.assembleIdx + UnassembledBytes(r.segments) }

  lemma SizeIsHeld(r: Reassembler, n: nat)
    requires WellFormed(r) && EndsBy(r.segments, n) && r.assembleIdx <= n
    ensures Size(r) == HeldCount(r, n)
  {
    HeldIsSum(r, n);
    UnassembledIsCount(r.segments, n);
  }

  // ----- what a push leaves -----

  /** The cached substrings that start past `at`. */
  function Beyond(m: Cache, at: nat): Cache { map k | k in m && k > at :: m[k] }

  /** How much is assembled and cached after a push, from what was there before: an overrun
      leaves a full output and what starts past it, any other push adds the indexes of its own
      that were not held. */
  ghost function SizeAfter(r: Reassembler, data: seq<byte>, index: nat): nat {
    if Overruns(r, data, index) then WindowEnd(r) + UnassembledBytes(Beyond(r.segments, WindowEnd(r)))
    else Size(r) + MissingCount(r.segments, Max(index, r.assembleIdx), index + |data|)
  }

  lemma KeptSize(r: Reassembler, data: seq<byte>, index: nat, eof: bool)
    requires WellFormed(r) && !Overruns(r, data, index)
    ensures Size(Push(r, data, index, eof)) == SizeAfter(r, data, index)
  {
    var r', hi := Push(r, data, index, eof), index + |data|;
    PushKeepsWellFormed(r, data, index, eof);
    forall i: nat ensures Held(r', i) <==> Held(r, i) || index <= i < hi {
      PushHolds(r, data, index, eof, i);
    }
    GrownSize(r, r', index, hi);
  }

  lemma GrownSize(r: Reassembler, r': Reassembler, lo: nat, hi: nat)
    requires WellFormed(r) && WellFormed(r')
    requires forall i: nat :: Held(r', i) <==> Held(r, i) || lo <= i < hi
    ensures Size(r') == Size(r) + MissingCount(r.segments, Max(lo, r.assembleIdx), hi)
  {
    var end := CacheEnds(r.segments);
    var end' := CacheEnds(r'.segments);
    var n := end + end' + hi + r.assembleIdx + r'.assembleIdx;
    SizeIsHeld(r, n);
    SizeIsHeld(r', n);
    HeldCountGrows(r, r', lo, hi, n);
  }

  lemma BeyondSeparates(m: Cache, at: nat)
    requires Separated(m)
    ensures Separated(Beyond(m, at))
  {
  }

  lemma {:induction false} SameCoverSameCount(m: Cache, m': Cache, n: nat)
    requires forall i: nat :: Covered(m, i) <==> Covered(m', i)
    ensures CoveredCount(m, n) == CoveredCount(m', n)
  {
    if n > 0 {
      SameCoverSameCount(m, m', n - 1);
    }
  }

  lemma SameCoverSameSize(m: Cache, m': Cache)
    requires Separated(m) && Separated(m') && forall i: nat :: Covered(m, i) <==> Covered(m', i)
    ensures UnassembledBytes(m) == UnassembledBytes(m')
  {
    var end := CacheEnds(m);
    var end' := CacheEnds(m');
    UnassembledIsCount(m, end + end');
    UnassembledIsCount(m', end + end');
    SameCoverSameCount(m, m', end + end');
  }

  /** After an overrun exactly what starts past the window is still cached. */
  lemma OverrunKeeps(r: Reassembler, data: seq<byte>, index: nat, eof: bool, i: nat)
    requires WellFormed(r) && Overruns(r, data, index)
    ensures Covered(Push(r, data, index, eof).segments, i) <==> Covered(Beyond(r.segments, WindowEnd(r)), i)
  {
    var m, m', at := r.segments, Push(r, data, index, eof).segments, WindowEnd(r);
    AssembleReaches(r, data, index, eof);
    OverrunLoses(r, data, index, eof);
    PushKeepsWellFormed(r, data, index, eof);
    forall k ensures Has(m', k, i) <==> Has(Beyond(m, at), k, i) {
    }
  }

  lemma OverrunSize(r: Reassembler, data: seq<byte>, index: nat, eof: bool)
    requires WellFormed(r) && Overruns(r, data, index)
    ensures Size(Push(r, data, index, eof)) == SizeAfter(r, data, index)
  {
    var m', b := Push(r, data, index, eof).segments, Beyond(r.segments, WindowEnd(r));
    PushKeepsWellFormed(r, data, index, eof);
    OverrunLoses(r, data, index, eof);
    BeyondSeparates(r.segments, WindowEnd(r));
    forall i: nat ensures Covered(m', i) <==> Covered(b, i) {
      OverrunKeeps(r, data, index, eof, i);
    }
    SameCoverSameSize(m', b);
  }

  /** Every push, in every well-formed state, leaves exactly that much. */
  lemma PushSize(r: Reassembler, data: seq<byte>, index: nat, eof: bool)
    requires WellFormed(r)
    ensures Size(Push(r, data, index, eof)) == SizeAfter(r, data, index)
  {
    if Overruns(r, data, index) {
      OverrunSize(r, data, index, eof);
    } else {
      KeptSize(r, data, index, eof);
    }
  }

  // ----- the documented limit -----

  /** The limit the header file promises: the bytes in the output and in the cache together. */
  ghost predicate WithinCapacity(r: Reassembler)
    requires r.output.Valid()
  {
    r.output.BufferSize() + UnassembledBytes(r.segments) <= r.output.capacity
  }

  lemma WithinIsSize(r: Reassembler)
    requires WellFormed(r)
    ensures WithinCapacity(r) <==> Size(r) <= WindowEnd(r)
  {
  }

  lemma {:induction false} NothingCounted(m: Cache, i: nat, n: nat)
    requires Covered(m, i) && i < n
    ensures CoveredCount(m, n) > 0
  {
    if i < n - 1 {
      NothingCounted(m, i, n - 1);
    }
  }

  /** No byte is cached in a substring that starts past `at`. */
  ghost predicate NoneBeyond(m: Cache, at: nat) {
    forall k :: k in m && m[k] != [] ==> k <= at
  }

  lemma NoneBeyondIff(m: Cache, at: nat)
    requires Separated(m)
    ensures UnassembledBytes(Beyond(m, at)) == 0 <==> NoneBeyond(m, at)
  {
    var b := Beyond(m, at);
    BeyondSeparates(m, at);
    if NoneBeyond(m, at) {
      forall i: nat ensures !Covered(b, i) {
        forall k ensures !Has(b, k, i) {
        }
      }
      NothingUnassembled(b);
    } else {
      var k :| k in m && m[k] != [] && k > at;
      SomethingCached(b, k);
    }
  }

  lemma SomethingCached(m: Cache, k: nat)
    requires Separated(m) && k in m && m[k] != []
    ensures UnassembledBytes(m) > 0
  {
    var end := CacheEnds(m);
    assert Has(m, k, k);
    UnassembledIsCount(m, end);
    NothingCounted(m, k, end);
  }

  /** The documented limit is respected by a push, in whatever state it comes, exactly when: for
      a push that overruns the output, no byte is cached that starts past the window; for any
      other, the indexes it adds fit beside what is there. */
  lemma PushStaysWithinIff(r: Reassembler, data: seq<byte>, index: nat, eof: bool)
    requires WellFormed(r)
    ensures WithinCapacity(Push(r, data, index, eof)) <==>
              if Overruns(r, data, index) then NoneBeyond(r.segments, WindowEnd(r))
              else
                r.output.BufferSize() + UnassembledBytes(r.segments) +
                  MissingCount(r.segments, Max(index, r.assembleIdx), index + |data|) <= r.output.capacity
  {
    var r' := Push(r, data, index, eof);
    PushKeepsWellFormed(r, data, index, eof);
    PushSize(r, data, index, eof);
    WithinIsSize(r');
    NoneBeyondIff(r.segments, WindowEnd(r));
    assert WindowEnd(r') == WindowEnd(r);
  }

  /** The condition of `PushStaysWithinIff`, for an operation of a run; reading is always fine. */
  ghost predicate Fits(r: Reassembler, op: Op) {
    op.PushOp? ==> SizeAfter(r, op.data, op.index) <= WindowEnd(r)
  }

  ghost predicate FittingRun(capacity: nat, ops: seq<Op>) {
    ops != [] ==>
      var before := ops[..|ops| - 1];
      FittingRun(capacity, before) && Fits(Run(capacity, before), ops[|ops| - 1])
  }

  lemma StepStaysWithinIff(r: Reassembler, op: Op)
    requires WellFormed(r) && WithinCapacity(r)
    ensures WithinCapacity(Step(r, op)) <==> Fits(r, op)
  {
    if op.PushOp? {
      PushKeepsWellFormed(r, op.data, op.index, op.eof);
      PushSize(r, op.data, op.index, op.eof);
      WithinIsSize(Push(r, op.data, op.index, op.eof));
    }
  }

  lemma LastFits(capacity: nat, ops: seq<Op>)
    requires ops != [] && FittingRun(capacity, ops[..|ops| - 1]) && WithinCapacity(Run(capacity, ops[..|ops| - 1]))
    ensures FittingRun(capacity, ops) <==> WithinCapacity(Run(capacity, ops))
  {
    RunIsWellFormed(capacity, ops[..|ops| - 1]);
    StepStaysWithinIff(Run(capacity, ops[..|ops| - 1]), ops[|ops| - 1]);
  }

  ghost predicate AlwaysWithin(capacity: nat, ops: seq<Op>) {
    forall n: nat :: n <= |ops| ==> WithinCapacity(Run(capacity, ops[..n]))
  }

  lemma AlwaysIsLast(capacity: nat, ops: seq<Op>)
    requires ops != []
    ensures AlwaysWithin(capacity, ops) <==>
              AlwaysWithin(capacity, ops[..|ops| - 1]) && WithinCapacity(Run(capacity, ops))
  {
    var before := ops[..|ops| - 1];
    assert ops[..|ops|] == ops;
    forall n: nat | n <= |before| ensures ops[..n] == before[..n] {
    }
  }

  /** The documented limit holds in every state of a run exactly when each push fits. */
  lemma {:induction false} WithinIffFittingRun(capacity: nat, ops: seq<Op>)
    ensures FittingRun(capacity, ops) <==> AlwaysWithin(capacity, ops)
    decreases |ops|
  {
    if ops == [] {
      NothingUnassembled(map[]);
    } else {
      var before := ops[..|ops| - 1];
      WithinIffFittingRun(capacity, before);
      AlwaysIsLast(capacity, ops);
      if FittingRun(capacity, before) {
        assert before[..|before|] == before && WithinCapacity(Run(capacity, before));
        LastFits(capacity, ops);
      }
    }
  }

  /** One out-of-order push of more than the capacity is cached whole. */
  lemma CapacityIsExceeded(capacity: nat, data: seq<byte>, index: nat)
    requires index > 0 && |data| > capacity
    ensures !WithinCapacity(Run(capacity, [PushOp(data, index, false)]))
  {
    var r := Fresh(capacity);
    assert Run(capacity, [PushOp(data, index, false)]) == Push(r, data, index, false) by {
      assert [PushOp(data, index, false)][..0] == [];
    }
    AllMissing(r.segments, index, index + |data|);
    PushStaysWithinIff(r, data, index, false);
  }

  // ----- the window -----

  /** Nothing cached lies past the window. */
  ghost predicate Roomy(r: Reassembler) {
    EndsBy(r.segments, WindowEnd(r))
  }

  lemma RoomyIsWithinCapacity(r: Reassembler)
    requires WellFormed(r) && Roomy(r)
    ensures WithinCapacity(r)
  {
    UnassembledIsCount(r.segments, WindowEnd(r));
    forall i | Covered(r.segments, i) ensures r.assembleIdx <= i {
      var k :| Has(r.segments, k, i);
    }
    CountBelow(r.segments, r.assembleIdx, WindowEnd(r));
  }

  /** A push that starts at or before the assembled index caches nothing. */
  lemma AssembleStaysRoomy(r: Reassembler, data: seq<byte>, index: nat, eof: bool)
    requires WellFormed(r) && Roomy(r) && index <= r.assembleIdx
    ensures Roomy(Push(r, data, index, eof))
  {
    PushKeepsWellFormed(r, data, index, eof);
  }

  lemma OutsideIsNotRoomy(m: Cache, index: nat, data: seq<byte>, hi: nat)
    requires Separated(m) && EndsBy(m, hi) && index + |data| > hi
    ensures !EndsBy(MergeSegments(m, index, data), hi)
  {
    var ks, a := MergeEnds(m, index, data);
    if a.cached {
      assert a.lft in Store(m, a);
    }
  }

  /** The window is respected by a push exactly when what it may cache lies within it. */
  lemma PushStaysRoomyIff(r: Reassembler, data: seq<byte>, index: nat, eof: bool)
    requires WellFormed(r) && Roomy(r)
    ensures Roomy(Push(r, data, index, eof)) <==> index <= r.assembleIdx || index + |data| <= WindowEnd(r)
  {
    if index <= r.assembleIdx {
      AssembleStaysRoomy(r, data, index, eof);
    } else if index + |data| <= WindowEnd(r) {
      MergeStaysBelow(r.segments, index, data, WindowEnd(r));
    } else {
      OutsideIsNotRoomy(r.segments, index, data, WindowEnd(r));
    }
  }

  /** The push does not reach past the window, unless it starts where the output stands. */
  ghost predicate InWindow(r: Reassembler, op: Op) {
    op.PushOp? ==> op.index <= r.assembleIdx || op.index + |op.data| <= WindowEnd(r)
  }

  ghost predicate WindowRun(capacity: nat, ops: seq<Op>) {
    ops != [] ==>
      var before := ops[..|ops| - 1];
      WindowRun(capacity, before) && InWindow(Run(capacity, before), ops[|ops| - 1])
  }

  /** The cache respects the window in every state of a run exactly when each push does. */
  lemma {:induction false} RoomyIffWindowRun(capacity: nat, ops: seq<Op>)
    ensures WindowRun(capacity, ops) <==> forall n: nat :: n <= |ops| ==> Roomy(Run(capacity, ops[..n]))
    decreases |ops|
  {
    assert ops[..|ops|] == ops;
    if ops != [] {
      var before, op := ops[..|ops| - 1], ops[|ops| - 1];
      RoomyIffWindowRun(capacity, before);
      RunIsWellFormed(capacity, before);
      forall n: nat | n <= |before| ensures ops[..n] == before[..n] {
      }
      if WindowRun(capacity, before) {
        assert before[..|before|] == before && Roomy(Run(capacity, before));
        if op.PushOp? {
          PushStaysRoomyIff(Run(capacity, before), op.data, op.index, op.eof);
        }
      }
    }
  }

  /** So a run whose pushes stay in the window keeps the documented limit throughout. */
  lemma WindowRunStaysWithin(capacity: nat, ops: seq<Op>)
    requires WindowRun(capacity, ops)
    ensures AlwaysWithin(capacity, ops) && FittingRun(capacity, ops)
  {
    RoomyIffWindowRun(capacity, ops);
    forall n: nat | n <= |ops| ensures WithinCapacity(Run(capacity, ops[..n])) {
      RunIsWellFormed(capacity, ops[..n]);
      RoomyIsWithinCapacity(Run(capacity, ops[..n]));
    }
    WithinIffFittingRun(capacity, ops);
  }
}
