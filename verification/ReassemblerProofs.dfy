/** What the reassembler keeps true of its cache and its output, over every run. */
module ReassemblerProofs {
  import opened Numbers
  import opened ByteStreams
  import opened OrderedMaps
  import opened StreamReassemblers

  // ----- the cache -----

  /** Between two cached substrings at least one index is missing. */
  ghost predicate Separated(m: Cache) {
    forall j, k :: j in m && k in m && j < k ==> j + |m[j]| < k
  }

  ghost predicate Enumerates(ks: seq<nat>, m: Cache) {
    Sorted(ks) && forall k :: k in ks <==> k in m
  }

  /** The substring cached at `k` has the byte at index `i`. */
  ghost predicate Has(m: Cache, k: nat, i: nat) {
    k in m && k <= i < k + |m[k]|
  }

  ghost predicate CoveredBy(m: Cache, keys: set<nat>, i: nat) {
    exists k :: k in keys && Has(m, k, i)
  }

  /** The byte at index `i` is cached. */
  ghost predicate Covered(m: Cache, i: nat) {
    exists k :: Has(m, k, i)
  }

  lemma KeysEnumerate(m: Cache)
    ensures Enumerates(SortedKeys(m.Keys), m)
  {
    SortedKeysAreKeys(m.Keys);
    SortedKeysSorted(m.Keys);
  }

  /** `d` is what `stream` has from index `k` on. */
  ghost predicate SliceAt(stream: seq<byte>, k: nat, d: seq<byte>) {
    k + |d| <= |stream| && d == stream[k..k + |d|]
  }

  /** The bytes of `d`, if any, are `stream`'s from index `k` on. */
  ghost predicate Piece(stream: seq<byte>, k: nat, d: seq<byte>) {
    d == [] || SliceAt(stream, k, d)
  }

  ghost predicate CacheOf(stream: seq<byte>, m: Cache) {
    forall k :: k in m ==> Piece(stream, k, m[k])
  }

  // ----- merging -----

  predicate Inside(a: Merge, k: nat, d: seq<byte>) { a.lft <= k && k + |d| <= a.Rgt() }
  predicate Apart(a: Merge, k: nat, d: seq<byte>) { k + |d| < a.lft || a.Rgt() < k }
  predicate Around(a: Merge, k: nat, d: seq<byte>) { k < a.lft && a.Rgt() <= k + |d| }

  /** What holds once the first `n` keys have been visited. */
  ghost predicate Merging(m: Cache, ks: seq<nat>, n: nat, index: nat, data: seq<byte>, a: Merge)
    requires n <= |ks| && Enumerates(ks, m)
  {
    && a.lft <= index && index + |data| <= a.Rgt()
    && (forall j :: 0 <= j < n ==>
          if ks[j] in a.removed then Inside(a, ks[j], m[ks[j]])
          else Apart(a, ks[j], m[ks[j]]) || (!a.cached && Around(a, ks[j], m[ks[j]])))
    && (forall j :: n <= j < |ks| ==> ks[j] !in a.removed)
    && a.removed <= m.Keys
    && (a.lft < index ==> a.lft in a.removed)
    && (a.Rgt() > index + |data| ==> forall j :: n <= j < |ks| ==> a.Rgt() < ks[j])
    && (!a.cached ==> a.removed == {} && forall j :: n <= j < |ks| ==> a.Rgt() < ks[j])
    && (!a.cached ==> exists j :: 0 <= j < n && Around(a, ks[j], m[ks[j]]))
  }

  /** The key visited next lies after everything visited before it, and before the rest. */
  lemma NextKey(m: Cache, ks: seq<nat>, n: nat)
    requires n < |ks| && Enumerates(ks, m) && Separated(m)
    ensures forall j :: 0 <= j < n ==> ks[j] + |m[ks[j]]| < ks[n]
    ensures forall j :: n < j < |ks| ==> ks[n] + |m[ks[n]]| < ks[j]
  {
    forall j | 0 <= j < |ks| ensures ks[j] in m {
      assert ks[j] in ks;
    }
  }

  /** A key the merge does not swallow: it is apart, or it encloses everything being merged. */
  lemma MergePasses(m: Cache, ks: seq<nat>, n: nat, index: nat, data: seq<byte>, a: Merge)
    requires n < |ks| && Enumerates(ks, m) && Separated(m)
    requires Merging(m, ks, n, index, data, a) && !Swallows(a, ks[n], m[ks[n]])
    ensures Merging(m, ks, n + 1, index, data, MergeStep(a, ks[n], m[ks[n]]))
  {
    var b := MergeStep(a, ks[n], m[ks[n]]);
    NextKey(m, ks, n);
    if a.cached && !b.cached {
      assert Around(b, ks[n], m[ks[n]]);
      forall r | r in ks ensures r !in a.removed {
      }
    }
  }

  lemma MergeSwallows(m: Cache, ks: seq<nat>, n: nat, index: nat, data: seq<byte>, a: Merge)
    requires n < |ks| && Enumerates(ks, m) && Separated(m)
    requires Merging(m, ks, n, index, data, a) && Swallows(a, ks[n], m[ks[n]])
    ensures Merging(m, ks, n + 1, index, data, MergeStep(a, ks[n], m[ks[n]]))
  {
    NextKey(m, ks, n);
  }

  lemma MergeStepKeeps(m: Cache, ks: seq<nat>, n: nat, index: nat, data: seq<byte>, a: Merge)
    requires n < |ks| && Enumerates(ks, m) && Separated(m)
    requires Merging(m, ks, n, index, data, a)
    ensures Merging(m, ks, n + 1, index, data, MergeStep(a, ks[n], m[ks[n]]))
  {
    if Swallows(a, ks[n], m[ks[n]]) {
      MergeSwallows(m, ks, n, index, data, a);
    } else {
      MergePasses(m, ks, n, index, data, a);
    }
  }

  lemma MergeStarts(m: Cache, ks: seq<nat>, index: nat, data: seq<byte>)
    requires Enumerates(ks, m)
    ensures Merging(m, ks, 0, index, data, Merge(index, data, {}, true))
  {
  }

  lemma {:induction false} MergeInvariant(m: Cache, ks: seq<nat>, n: nat, index: nat, data: seq<byte>)
    requires n <= |ks| && Enumerates(ks, m) && Separated(m)
    ensures Merging(m, ks, n, index, data, MergeUpTo(m, ks, n, index, data))
  {
    if n == 0 {
      MergeStarts(m, ks, index, data);
    } else {
      var a := MergeUpTo(m, ks, n - 1, index, data);
      MergeInvariant(m, ks, n - 1, index, data);
      MergeStepKeeps(m, ks, n - 1, index, data, a);
    }
  }

  predicate Swallows(a: Merge, k: nat, d: seq<byte>) {
    a.lft <= k <= a.Rgt() || (k < a.lft <= k + |d| && k + |d| < a.Rgt())
  }

  lemma MergeStepCovers(a: Merge, k: nat, d: seq<byte>, i: nat)
    ensures var b := MergeStep(a, k, d);
            if Swallows(a, k, d) then
              b.removed == a.removed + {k} &&
              (b.lft <= i < b.Rgt() <==> a.lft <= i < a.Rgt() || k <= i < k + |d|)
            else
              b.lft == a.lft && b.Rgt() == a.Rgt() && b.removed == a.removed
  {
  }

  /** The range being merged is the new substring plus what it swallowed, nothing else. */
  lemma {:induction false} MergeCovers(m: Cache, ks: seq<nat>, n: nat, index: nat, data: seq<byte>, i: nat)
    requires n <= |ks| && Enumerates(ks, m)
    ensures var a := MergeUpTo(m, ks, n, index, data);
            a.lft <= i < a.Rgt() <==> index <= i < index + |data| || CoveredBy(m, a.removed, i)
  {
    if n > 0 {
      MergeCovers(m, ks, n - 1, index, data, i);
      var a, b := MergeUpTo(m, ks, n - 1, index, data), MergeUpTo(m, ks, n, index, data);
      var k := ks[n - 1];
      assert k in ks;
      MergeStepCovers(a, k, m[k], i);
      if Swallows(a, k, m[k]) {
        assert CoveredBy(m, b.removed, i) <==> CoveredBy(m, a.removed, i) || Has(m, k, i);
      }
    }
  }

  /** The last visit done, every key either was swallowed, or is apart from the result, or
      (when nothing is to be stored) encloses the new substring. */
  lemma MergeEnds(m: Cache, index: nat, data: seq<byte>) returns (ks: seq<nat>, a: Merge)
    requires Separated(m)
    ensures ks == SortedKeys(m.Keys) && Enumerates(ks, m)
    ensures a == MergeUpTo(m, ks, |ks|, index, data)
    ensures MergeSegments(m, index, data) == Store(m, a)
    ensures a.lft <= index && index + |data| <= a.Rgt()
    ensures a.cached ==> forall k :: k in m && k !in a.removed ==> Apart(a, k, m[k])
    ensures !a.cached ==> a.removed == {} && exists k :: k in m && Around(a, k, m[k])
    ensures a.lft == index || a.lft in m
  {
    ks := SortedKeys(m.Keys);
    KeysEnumerate(m);
    a := MergeUpTo(m, ks, |ks|, index, data);
    MergeInvariant(m, ks, |ks|, index, data);
    forall k | k in m && k !in a.removed
      ensures Apart(a, k, m[k]) || !a.cached
    {
      assert k in ks;
    }
    if !a.cached {
      var j :| 0 <= j < |ks| && Around(a, ks[j], m[ks[j]]);
      assert ks[j] in ks;
    }
  }

  /** Merging keeps the cached substrings separated. */
  lemma MergeSeparates(m: Cache, index: nat, data: seq<byte>)
    requires Separated(m)
    ensures Separated(MergeSegments(m, index, data))
  {
    var ks, a := MergeEnds(m, index, data);
  }

  lemma StoreCovers(m: Cache, a: Merge, i: nat)
    requires a.cached && (CoveredBy(m, a.removed, i) ==> a.lft <= i < a.Rgt())
    requires forall k :: k in m && k !in a.removed ==> Apart(a, k, m[k])
    ensures Covered(Store(m, a), i) <==> Covered(m, i) || a.lft <= i < a.Rgt()
  {
    var m' := Store(m, a);
    if a.lft <= i < a.Rgt() {
      assert Has(m', a.lft, i);
    } else {
      forall k ensures Has(m', k, i) <==> Has(m, k, i) {
      }
    }
  }

  /** A substring enclosed by a cached one adds nothing. */
  lemma EnclosedCovers(m: Cache, a: Merge, i: nat)
    requires !a.cached && a.removed == {} && exists k :: k in m && Around(a, k, m[k])
    ensures Covered(Store(m, a), i) <==> Covered(m, i) || a.lft <= i < a.Rgt()
  {
    assert Store(m, a) == m;
    var k :| k in m && Around(a, k, m[k]);
    assert a.lft <= i < a.Rgt() ==> Has(m, k, i);
  }

  /** Merging makes the covered indexes exactly the ones covered before and the new ones. */
  lemma MergeIsExact(m: Cache, index: nat, data: seq<byte>, i: nat)
    requires Separated(m)
    ensures Covered(MergeSegments(m, index, data), i) <==> Covered(m, i) || index <= i < index + |data|
  {
    var ks, a := MergeEnds(m, index, data);
    MergeCovers(m, ks, |ks|, index, data, i);
    if CoveredBy(m, a.removed, i) {
      var k :| k in a.removed && Has(m, k, i);
      assert Covered(m, i);
    }
    if a.cached {
      StoreCovers(m, a, i);
    } else {
      EnclosedCovers(m, a, i);
    }
  }

  lemma MergeStepOfStream(stream: seq<byte>, a: Merge, k: nat, d: seq<byte>)
    requires Piece(stream, a.lft, a.data) && Piece(stream, k, d)
    ensures var b := MergeStep(a, k, d); Piece(stream, b.lft, b.data)
  {
    var b := MergeStep(a, k, d);
    if a.lft <= k <= a.Rgt() < k + |d| {
      JoinOfStream(stream, a.lft, a.data, k, d);
    } else if k < a.lft <= k + |d| < a.Rgt() {
      JoinOfStream(stream, k, d, a.lft, a.data);
    } else {
      assert b.lft == a.lft && b.data == a.data;
    }
  }

  /** Two pieces that meet or overlap, the second one reaching further, make one. */
  lemma JoinOfStream(stream: seq<byte>, j: nat, c: seq<byte>, k: nat, d: seq<byte>)
    requires Piece(stream, j, c) && Piece(stream, k, d) && j <= k <= j + |c| < k + |d|
    ensures Piece(stream, j, c[..k - j] + d)
  {
    if c == [] {
      assert c[..0] + d == d;
    } else {
      assert c[..k - j] == stream[j..k];
      assert stream[j..k] + stream[k..k + |d|] == stream[j..k + |d|];
    }
  }

  lemma {:induction false} MergeUpToOfStream(stream: seq<byte>, m: Cache, ks: seq<nat>, n: nat, index: nat, data: seq<byte>)
    requires n <= |ks| && forall k :: k in ks ==> k in m
    requires CacheOf(stream, m) && Piece(stream, index, data)
    ensures var a := MergeUpTo(m, ks, n, index, data); Piece(stream, a.lft, a.data)
  {
    if n > 0 {
      MergeUpToOfStream(stream, m, ks, n - 1, index, data);
      var k := ks[n - 1];
      assert k in ks;
      MergeStepOfStream(stream, MergeUpTo(m, ks, n - 1, index, data), k, m[k]);
    }
  }

  /** Every cached byte stays the stream's byte at its index. */
  lemma MergeOfStream(stream: seq<byte>, m: Cache, index: nat, data: seq<byte>)
    requires CacheOf(stream, m) && Piece(stream, index, data)
    ensures CacheOf(stream, MergeSegments(m, index, data))
  {
    var ks := SortedKeys(m.Keys);
    SortedKeysAreKeys(m.Keys);
    MergeUpToOfStream(stream, m, ks, |ks|, index, data);
  }

  /** Every cached substring ends by `hi`. */
  ghost predicate EndsBy(m: Cache, hi: nat) {
    forall k :: k in m ==> k + |m[k]| <= hi
  }

  lemma MergeStaysBelow(m: Cache, index: nat, data: seq<byte>, hi: nat)
    requires Separated(m) && EndsBy(m, hi) && index + |data| <= hi
    ensures EndsBy(MergeSegments(m, index, data), hi)
  {
    var ks, a := MergeEnds(m, index, data);
    if a.Rgt() > a.lft && a.Rgt() > hi {
      MergeCovers(m, ks, |ks|, index, data, a.Rgt() - 1);
    }
  }

  // ----- counting what is cached -----

  /** The number of distinct cached indexes below `hi`. */
  ghost function CoveredCount(m: Cache, hi: nat): nat {
    if hi == 0 then 0 else CoveredCount(m, hi - 1) + (if Covered(m, hi - 1) then 1 else 0)
  }

  lemma {:induction false} CountBelow(m: Cache, lo: nat, hi: nat)
    requires forall i :: Covered(m, i) ==> lo <= i
    ensures CoveredCount(m, hi) <= if hi <= lo then 0 else hi - lo
  {
    if hi > 0 {
      CountBelow(m, lo, hi - 1);
    }
  }

  lemma {:induction false} CountGap(m: Cache, lo: nat, hi: nat)
    requires lo <= hi && forall i :: lo <= i < hi ==> !Covered(m, i)
    ensures CoveredCount(m, hi) == CoveredCount(m, lo)
    decreases hi
  {
    if lo < hi {
      CountGap(m, lo, hi - 1);
    }
  }

  lemma {:induction false} CountSubstring(m: Cache, k: nat, hi: nat)
    requires k in m && k <= hi <= k + |m[k]|
    ensures CoveredCount(m, hi) == CoveredCount(m, k) + hi - k
    decreases hi
  {
    if k < hi {
      CountSubstring(m, k, hi - 1);
      assert Has(m, k, hi - 1);
    }
  }

  /** Below the key `ks[n]` only the substrings before it have anything. */
  lemma GapBefore(m: Cache, ks: seq<nat>, n: nat, i: nat)
    requires n < |ks| && Enumerates(ks, m) && Separated(m)
    requires i < ks[n] && Covered(m, i)
    ensures n > 0 && ks[n - 1] in m && i < ks[n - 1] + |m[ks[n - 1]]|
  {
    var x :| Has(m, x, i);
    assert x in ks;
    var j :| 0 <= j < |ks| && ks[j] == x;
    assert j < n;
    assert ks[n - 1] in ks;
    NextKey(m, ks, n - 1);
  }

  lemma {:induction false} SizeIsCount(m: Cache, ks: seq<nat>, n: nat)
    requires 0 < n <= |ks| && Enumerates(ks, m) && Separated(m)
    ensures ks[n - 1] in m && SizeUpTo(m, ks, n) == CoveredCount(m, ks[n - 1] + |m[ks[n - 1]]|)
  {
    var k: nat := ks[n - 1];
    assert k in ks;
    if n > 1 {
      SizeIsCount(m, ks, n - 1);
      NextKey(m, ks, n - 1);
    }
    var before: nat := if n == 1 then 0 else ks[n - 2] + |m[ks[n - 2]]|;
    forall i | before <= i < k ensures !Covered(m, i) {
      if Covered(m, i) { GapBefore(m, ks, n - 1, i); }
    }
    CountGap(m, before, k);
    CountSubstring(m, k, k + |m[k]|);
  }

  lemma CoveredBelowLast(m: Cache, ks: seq<nat>, i: nat)
    requires Enumerates(ks, m) && Separated(m) && Covered(m, i)
    ensures ks != [] && ks[|ks| - 1] in m && i < ks[|ks| - 1] + |m[ks[|ks| - 1]]|
  {
    var x :| Has(m, x, i);
    assert x in ks;
    NextKey(m, ks, |ks| - 1);
    assert ks[|ks| - 1] in ks;
  }

  lemma NothingPastLast(m: Cache, ks: seq<nat>, lo: nat, i: nat)
    requires Enumerates(ks, m) && Separated(m) && i >= lo
    requires ks != [] ==> ks[|ks| - 1] in m && lo == ks[|ks| - 1] + |m[ks[|ks| - 1]]|
    ensures !Covered(m, i)
  {
    if Covered(m, i) {
      CoveredBelowLast(m, ks, i);
    }
  }

  /** `unassembled_bytes` counts every cached index once. */
  lemma UnassembledIsCount(m: Cache, hi: nat)
    requires Separated(m) && EndsBy(m, hi)
    ensures UnassembledBytes(m) == CoveredCount(m, hi)
  {
    var ks := SortedKeys(m.Keys);
    KeysEnumerate(m);
    var last: nat := 0;
    if ks != [] {
      SizeIsCount(m, ks, |ks|);
      last := ks[|ks| - 1] + |m[ks[|ks| - 1]]|;
    }
    forall i | last <= i < hi ensures !Covered(m, i) {
      NothingPastLast(m, ks, last, i);
    }
    CountGap(m, last, hi);
  }

  /** Every cache ends somewhere. */
  lemma CacheEnds(m: Cache) returns (hi: nat)
    requires Separated(m)
    ensures EndsBy(m, hi)
  {
    var ks := SortedKeys(m.Keys);
    KeysEnumerate(m);
    if ks == [] {
      hi := 0;
    } else {
      assert ks[|ks| - 1] in ks;
      hi := ks[|ks| - 1] + |m[ks[|ks| - 1]]|;
      NextKey(m, ks, |ks| - 1);
    }
  }

  lemma NothingUnassembled(m: Cache)
    requires Separated(m) && forall i :: !Covered(m, i)
    ensures UnassembledBytes(m) == 0
  {
    var hi := CacheEnds(m);
    UnassembledIsCount(m, hi);
    CountGap(m, 0, hi);
  }

  // ----- how much a merge adds -----

  /** How many indexes from `lo` up to `hi` are not cached. */
  ghost function MissingCount(m: Cache, lo: nat, hi: nat): nat {
    if hi <= lo then 0 else MissingCount(m, lo, hi - 1) + (if Covered(m, hi - 1) then 0 else 1)
  }

  lemma {:induction false} CountOfUnion(m: Cache, m': Cache, lo: nat, hi: nat, n: nat)
    requires lo <= hi && forall i: nat :: Covered(m', i) <==> Covered(m, i) || lo <= i < hi
    ensures CoveredCount(m', n) == CoveredCount(m, n) + MissingCount(m, lo, Min(n, hi))
  {
    if n > 0 {
      CountOfUnion(m, m', lo, hi, n - 1);
    }
  }

  /** Merging adds to `unassembled_bytes` exactly the indexes that were not cached. */
  lemma MergeAdds(m: Cache, index: nat, data: seq<byte>)
    requires Separated(m)
    ensures UnassembledBytes(MergeSegments(m, index, data)) ==
              UnassembledBytes(m) + MissingCount(m, index, index + |data|)
  {
    var m', hi := MergeSegments(m, index, data), index + |data|;
    MergeSeparates(m, index, data);
    forall i: nat ensures Covered(m', i) <==> Covered(m, i) || index <= i < hi {
      MergeIsExact(m, index, data, i);
    }
    var end := CacheEnds(m);
    var end' := CacheEnds(m');
    var n := end + end' + hi;
    UnassembledIsCount(m, n);
    UnassembledIsCount(m', n);
    CountOfUnion(m, m', index, hi, n);
  }

  lemma {:induction false} AllMissing(m: Cache, lo: nat, hi: nat)
    requires lo <= hi && forall i :: lo <= i < hi ==> !Covered(m, i)
    ensures MissingCount(m, lo, hi) == hi - lo
  {
    if lo < hi {
      AllMissing(m, lo, hi - 1);
    }
  }

  // ----- flushing the cache into the output -----

  /** The assembled index is the number of bytes written, and everything cached is beyond it. */
  ghost predicate WellFormed(r: Reassembler) {
    && r.output.Valid()
    && r.assembleIdx == |r.output.log|
    && Separated(r.segments)
    && forall k :: k in r.segments ==> r.assembleIdx < k
  }

  /** `s'` is `s` with more bytes written to it. */
  ghost predicate Extends(s': Stream, s: Stream) {
    s.log <= s'.log && s' == s.(log := s'.log)
  }

  ghost predicate Flushing(m: Cache, ks: seq<nat>, n: nat, output: Stream, f: Flush)
    requires n <= |ks|
  {
    && f.output.Valid() && f.idx == |f.output.log|
    && Extends(f.output, output)
    && (forall j :: n <= j < |ks| ==> ks[j] !in f.popped)
    && (forall j :: 0 <= j < n && ks[j] !in f.popped ==> f.idx < ks[j])
  }

  lemma FlushStepKeeps(m: Cache, ks: seq<nat>, n: nat, output: Stream, f: Flush)
    requires n < |ks| && Enumerates(ks, m) && ks[n] in m
    requires Flushing(m, ks, n, output, f)
    ensures Flushing(m, ks, n + 1, output, FlushStep(f, ks[n], m[ks[n]]))
  {
    var g := FlushStep(f, ks[n], m[ks[n]]);
    if ks[n] <= f.idx {
      forall j | 0 <= j < n ensures ks[j] in g.popped {
      }
    }
  }

  lemma {:induction false} FlushInvariant(m: Cache, ks: seq<nat>, n: nat, output: Stream)
    requires n <= |ks| && Enumerates(ks, m) && output.Valid()
    ensures Flushing(m, ks, n, output, FlushUpTo(m, ks, n, |output.log|, output))
  {
    if n > 0 {
      var f := FlushUpTo(m, ks, n - 1, |output.log|, output);
      FlushInvariant(m, ks, n - 1, output);
      assert ks[n - 1] in ks;
      FlushStepKeeps(m, ks, n - 1, output, f);
    }
  }

  lemma FlushAllKeeps(m: Cache, output: Stream)
    requires output.Valid()
    ensures var f := FlushAll(m, |output.log|, output);
            && f.idx == |f.output.log| && Extends(f.output, output)
            && forall k :: k in m - f.popped ==> f.idx < k
  {
    var ks := SortedKeys(m.Keys);
    KeysEnumerate(m);
    FlushInvariant(m, ks, |ks|, output);
    forall k | k in m ensures k in ks {
    }
  }

  // ----- every push keeps the reassembler well formed -----

  /** What is left of `output` after a push differs only by more bytes and the end mark. */
  ghost predicate Advances(s': Stream, s: Stream) {
    && s.log <= s'.log
    && s' == s.(log := s'.log, ended := s'.ended)
    && (s.ended ==> s'.ended)
  }

  lemma PushKeepsWellFormed(r: Reassembler, data: seq<byte>, index: nat, eof: bool)
    requires WellFormed(r)
    ensures WellFormed(Push(r, data, index, eof))
    ensures Advances(Push(r, data, index, eof).output, r.output)
  {
    if index > r.assembleIdx {
      var ks, a := MergeEnds(r.segments, index, data);
      MergeSeparates(r.segments, index, data);
    } else if index + |data| >= r.assembleIdx {
      FlushAllKeeps(r.segments, r.output.Write(data[r.assembleIdx - index..]));
    }
  }

  lemma EmptyFlush(output: Stream)
    requires output.Valid()
    ensures FlushAll(map[], |output.log|, output) == Flush(|output.log|, output, {})
  {
  }

  /** The last substring, next in order, with room for it and nothing cached, ends the output. */
  lemma LastPushEnds(r: Reassembler, data: seq<byte>)
    requires WellFormed(r) && r.segments == map[] && |data| <= r.output.RemainingCapacity()
    ensures Push(r, data, r.assembleIdx, true).output == r.output.(log := r.output.log + data, ended := true)
  {
    var out := r.output.Write(data);
    assert data[0..] == data && data[..|data|] == data;
    assert out == r.output.(log := r.output.log + data);
    EmptyFlush(out);
    NothingUnassembled(map[]);
    assert r.segments - {} == map[];
  }
}
