/** Which bytes the reassembler keeps, whether or not overlapping substrings agree: of a pushed
    and a cached substring that both have a byte, which one's stays. */
module ReassemblyBytes {
  import opened Numbers
  import opened ByteStreams
  import opened OrderedMaps
  import opened StreamReassemblers
  import opened ReassemblerProofs
  import ReassemblyRuns

  /** A cached substring gives way to one pushed over `[lft, rgt)` if that ends later, or ends
      together with it and starts no later. */
  predicate Yields(k: nat, d: seq<byte>, lft: nat, rgt: nat) {
    k + |d| < rgt || (k + |d| == rgt && lft <= k)
  }

  /** Byte `b` is cached at index `i`. */
  ghost predicate ByteAt(m: Cache, i: nat, b: byte) {
    exists k :: Has(m, k, i) && m[k][i - k] == b
  }

  /** The substring at `k`, if it has a byte at `i`, yields to the pushed one. */
  ghost predicate Gives(m: Cache, k: nat, index: nat, data: seq<byte>, i: nat)
    requires k in m
  {
    Has(m, k, i) ==> Yields(k, m[k], index, index + |data|)
  }

  /** The pushed byte at `i` is to stay: every substring visited gives way there. */
  ghost predicate Stays(m: Cache, ks: seq<nat>, n: nat, index: nat, data: seq<byte>, i: nat)
    requires n <= |ks| && forall k :: k in ks ==> k in m
  {
    index <= i < index + |data| && forall j :: 0 <= j < n ==> Gives(m, ks[j], index, data, i)
  }

  /** The merge has `b` at index `i`. */
  predicate PutAt(a: Merge, i: nat, b: byte) {
    a.lft <= i < a.Rgt() && a.data[i - a.lft] == b
  }

  /** A substring that was swallowed, if it has a byte at `i`, has it there still or yields. */
  ghost predicate Accounted(m: Cache, k: nat, index: nat, data: seq<byte>, i: nat, a: Merge)
    requires k in m
  {
    k in a.removed && Has(m, k, i) ==>
      (index <= i < index + |data| && Yields(k, m[k], index, index + |data|)) || PutAt(a, i, m[k][i - k])
  }

  /** What the merge has at `i` after `n` visits: the pushed byte if it is to stay, and that of
      a swallowed substring if that does not yield. */
  ghost predicate MergedByte(m: Cache, ks: seq<nat>, n: nat, index: nat, data: seq<byte>, i: nat, a: Merge)
    requires n <= |ks| && Enumerates(ks, m)
  {
    && (Stays(m, ks, n, index, data, i) ==> PutAt(a, i, data[i - index]))
    && (forall j :: 0 <= j < n ==> Accounted(m, ks[j], index, data, i, a))
    && (a.lft < index ==> a.lft in m && a.lft + |m[a.lft]| >= index)
  }

  lemma StaysLess(m: Cache, ks: seq<nat>, n: nat, index: nat, data: seq<byte>, i: nat)
    requires n < |ks| && forall k :: k in ks ==> k in m
    ensures Stays(m, ks, n + 1, index, data, i) ==> Stays(m, ks, n, index, data, i) && Gives(m, ks[n], index, data, i)
  {
  }

  /** As long as there are keys that it reaches, the merge ends where the pushed substring does;
      and it starts where that does, or at a key already visited. */
  lemma MergeReaches(m: Cache, ks: seq<nat>, n: nat, index: nat, data: seq<byte>, a: Merge)
    requires n < |ks| && Enumerates(ks, m) && Separated(m) && Merging(m, ks, n, index, data, a)
    ensures ks[n] <= a.Rgt() ==> a.Rgt() == index + |data|
    ensures ks[n] < a.lft ==> a.lft == index
    ensures a.lft < index ==> a.lft in m && a.lft + |m[a.lft]| < ks[n]
  {
    if a.lft < index {
      var j :| 0 <= j < |ks| && ks[j] == a.lft;
      NextKey(m, ks, n);
      assert ks[n] in ks;
    }
  }

  /** `b` has at `i` what `a` has. */
  ghost predicate Preserves(a: Merge, b: Merge, i: nat) {
    forall x: byte :: PutAt(a, i, x) ==> PutAt(b, i, x)
  }

  /** What was accounted for stays so when key `n` is swallowed, if the merge keeps what it has
      wherever a key visited before has a byte. */
  lemma AccountedLater(m: Cache, ks: seq<nat>, n: nat, index: nat, data: seq<byte>, i: nat, a: Merge, b: Merge)
    requires n < |ks| && Enumerates(ks, m) && b.removed == a.removed + {ks[n]}
    requires MergedByte(m, ks, n, index, data, i, a)
    requires (exists j :: 0 <= j < n && Has(m, ks[j], i)) ==> Preserves(a, b, i)
    ensures forall j :: 0 <= j < n ==> Accounted(m, ks[j], index, data, i, b)
  {
    forall j | 0 <= j < n ensures Accounted(m, ks[j], index, data, i, b) {
      assert Accounted(m, ks[j], index, data, i, a) && ks[j] != ks[n];
    }
  }

  lemma StepInside(m: Cache, ks: seq<nat>, n: nat, index: nat, data: seq<byte>, i: nat, a: Merge)
    requires n < |ks| && Enumerates(ks, m) && Separated(m)
    requires Merging(m, ks, n, index, data, a) && MergedByte(m, ks, n, index, data, i, a)
    requires Inside(a, ks[n], m[ks[n]])
    ensures MergedByte(m, ks, n + 1, index, data, i, MergeStep(a, ks[n], m[ks[n]]))
  {
    var b := MergeStep(a, ks[n], m[ks[n]]);
    MergeReaches(m, ks, n, index, data, a);
    StaysLess(m, ks, n, index, data, i);
    AccountedLater(m, ks, n, index, data, i, a, b);
    assert index <= ks[n];
    assert Accounted(m, ks[n], index, data, i, b);
  }

  lemma StepRight(m: Cache, ks: seq<nat>, n: nat, index: nat, data: seq<byte>, i: nat, a: Merge)
    requires n < |ks| && Enumerates(ks, m) && Separated(m)
    requires Merging(m, ks, n, index, data, a) && MergedByte(m, ks, n, index, data, i, a)
    requires a.lft <= ks[n] <= a.Rgt() < ks[n] + |m[ks[n]]|
    ensures MergedByte(m, ks, n + 1, index, data, i, MergeStep(a, ks[n], m[ks[n]]))
  {
    var b := MergeStep(a, ks[n], m[ks[n]]);
    NextKey(m, ks, n);
    MergeReaches(m, ks, n, index, data, a);
    StaysLess(m, ks, n, index, data, i);
    JoinedBytes(a, ks[n], m[ks[n]], i);
    AccountedLater(m, ks, n, index, data, i, a, b);
    assert Accounted(m, ks[n], index, data, i, b);
  }

  lemma JoinedBytes(a: Merge, k: nat, d: seq<byte>, i: nat)
    requires a.lft <= k <= a.Rgt() < k + |d|
    ensures i < k ==> Preserves(a, MergeStep(a, k, d), i)
    ensures k <= i < k + |d| ==> PutAt(MergeStep(a, k, d), i, d[i - k])
  {
  }

  lemma StepLeft(m: Cache, ks: seq<nat>, n: nat, index: nat, data: seq<byte>, i: nat, a: Merge)
    requires n < |ks| && Enumerates(ks, m) && Separated(m)
    requires Merging(m, ks, n, index, data, a) && MergedByte(m, ks, n, index, data, i, a)
    requires ks[n] < a.lft <= ks[n] + |m[ks[n]]| < a.Rgt()
    ensures MergedByte(m, ks, n + 1, index, data, i, MergeStep(a, ks[n], m[ks[n]]))
  {
    var k, d := ks[n], m[ks[n]];
    var b := MergeStep(a, k, d);
    MergeReaches(m, ks, n, index, data, a);
    StaysLess(m, ks, n, index, data, i);
    assert Preserves(a, b, i);
    AccountedLater(m, ks, n, index, data, i, a, b);
    assert Has(m, k, i) && i < index ==> PutAt(b, i, d[i - k]);
    assert Accounted(m, k, index, data, i, b);
  }

  lemma StepPasses(m: Cache, ks: seq<nat>, n: nat, index: nat, data: seq<byte>, i: nat, a: Merge)
    requires n < |ks| && Enumerates(ks, m)
    requires Merging(m, ks, n, index, data, a) && MergedByte(m, ks, n, index, data, i, a)
    requires !Swallows(a, ks[n], m[ks[n]])
    ensures MergedByte(m, ks, n + 1, index, data, i, MergeStep(a, ks[n], m[ks[n]]))
  {
    StaysLess(m, ks, n, index, data, i);
  }

  lemma MergeStepByte(m: Cache, ks: seq<nat>, n: nat, index: nat, data: seq<byte>, i: nat, a: Merge)
    requires n < |ks| && Enumerates(ks, m) && Separated(m)
    requires Merging(m, ks, n, index, data, a) && MergedByte(m, ks, n, index, data, i, a)
    ensures MergedByte(m, ks, n + 1, index, data, i, MergeStep(a, ks[n], m[ks[n]]))
  {
    if Inside(a, ks[n], m[ks[n]]) {
      StepInside(m, ks, n, index, data, i, a);
    } else if a.lft <= ks[n] <= a.Rgt() {
      StepRight(m, ks, n, index, data, i, a);
    } else if ks[n] < a.lft <= ks[n] + |m[ks[n]]| < a.Rgt() {
      StepLeft(m, ks, n, index, data, i, a);
    } else {
      StepPasses(m, ks, n, index, data, i, a);
    }
  }

  lemma MergeStartsByte(m: Cache, ks: seq<nat>, index: nat, data: seq<byte>, i: nat)
    requires Enumerates(ks, m)
    ensures MergedByte(m, ks, 0, index, data, i, Merge(index, data, {}, true))
  {
  }

  lemma {:induction false} MergeUpToByte(m: Cache, ks: seq<nat>, n: nat, index: nat, data: seq<byte>, i: nat)
    requires n <= |ks| && Enumerates(ks, m) && Separated(m)
    ensures MergedByte(m, ks, n, index, data, i, MergeUpTo(m, ks, n, index, data))
  {
    if n == 0 {
      MergeStartsByte(m, ks, index, data, i);
    } else {
      MergeUpToByte(m, ks, n - 1, index, data, i);
      MergeOnceMore(m, ks, n - 1, index, data, i);
    }
  }

  lemma MergeOnceMore(m: Cache, ks: seq<nat>, n: nat, index: nat, data: seq<byte>, i: nat)
    requires n < |ks| && Enumerates(ks, m) && Separated(m)
    requires MergedByte(m, ks, n, index, data, i, MergeUpTo(m, ks, n, index, data))
    ensures MergedByte(m, ks, n + 1, index, data, i, MergeUpTo(m, ks, n + 1, index, data))
  {
    MergeInvariant(m, ks, n, index, data);
    MergeStepByte(m, ks, n, index, data, i, MergeUpTo(m, ks, n, index, data));
  }

  /** The whole merge, as the last visit leaves it. */
  ghost predicate Merged(m: Cache, ks: seq<nat>, index: nat, data: seq<byte>, i: nat, a: Merge) {
    && Enumerates(ks, m) && MergeSegments(m, index, data) == Store(m, a)
    && MergedByte(m, ks, |ks|, index, data, i, a)
    && (a.cached ==> forall k :: k in m && k !in a.removed ==> Apart(a, k, m[k]))
    && (!a.cached ==> a.removed == {} && exists k :: k in m && k < index && index + |data| <= k + |m[k]|)
  }

  lemma MergeEndsByte(m: Cache, index: nat, data: seq<byte>, i: nat) returns (ks: seq<nat>, a: Merge)
    requires Separated(m)
    ensures Merged(m, ks, index, data, i, a)
  {
    ks, a := MergeEnds(m, index, data);
    MergeUpToByte(m, ks, |ks|, index, data, i);
    MergeInvariant(m, ks, |ks|, index, data);
    if !a.cached {
      var k :| k in m && Around(a, k, m[k]);
      assert a.lft == index;
    }
  }

  lemma PushedByteStays(m: Cache, index: nat, data: seq<byte>, i: nat, ks: seq<nat>, a: Merge)
    requires Merged(m, ks, index, data, i, a) && index <= i < index + |data|
    requires forall k :: Has(m, k, i) ==> Yields(k, m[k], index, index + |data|)
    ensures ByteAt(MergeSegments(m, index, data), i, data[i - index])
  {
    if a.cached {
      assert Stays(m, ks, |ks|, index, data, i);
      assert PutAt(a, i, data[i - index]);
      assert Has(Store(m, a), a.lft, i);
    } else {
      assert false;
    }
  }

  lemma CachedByteStays(m: Cache, index: nat, data: seq<byte>, i: nat, ks: seq<nat>, a: Merge, k: nat)
    requires Merged(m, ks, index, data, i, a) && Has(m, k, i)
    requires !(index <= i < index + |data| && Yields(k, m[k], index, index + |data|))
    ensures ByteAt(MergeSegments(m, index, data), i, m[k][i - k])
  {
    var m' := Store(m, a);
    if k in a.removed {
      var j :| 0 <= j < |ks| && ks[j] == k;
      assert Accounted(m, ks[j], index, data, i, a);
      assert PutAt(a, i, m[k][i - k]);
      assert Has(m', a.lft, i);
    } else {
      assert Has(m', k, i) && m'[k] == m[k];
    }
  }

  /** Merging keeps every byte: the pushed one where none is cached or what is cached yields, the
      cached one everywhere else. */
  lemma MergeKeepsBytes(m: Cache, index: nat, data: seq<byte>, i: nat)
    requires Separated(m)
    ensures index <= i < index + |data| && (forall k :: Has(m, k, i) ==> Yields(k, m[k], index, index + |data|)) ==>
              ByteAt(MergeSegments(m, index, data), i, data[i - index])
    ensures forall k :: Has(m, k, i) && !(index <= i < index + |data| && Yields(k, m[k], index, index + |data|)) ==>
              ByteAt(MergeSegments(m, index, data), i, m[k][i - k])
  {
    var ks, a := MergeEndsByte(m, index, data, i);
    if index <= i < index + |data| && (forall k :: Has(m, k, i) ==> Yields(k, m[k], index, index + |data|)) {
      PushedByteStays(m, index, data, i, ks, a);
    }
    forall k | Has(m, k, i) && !(index <= i < index + |data| && Yields(k, m[k], index, index + |data|))
      ensures ByteAt(MergeSegments(m, index, data), i, m[k][i - k])
    {
      CachedByteStays(m, index, data, i, ks, a, k);
    }
  }

  // ----- the flush -----

  /** The flush writes cached bytes and no others. */
  ghost predicate FromCache(m: Cache, output: Stream, f: Flush, i: nat) {
    |output.log| <= i < |f.output.log| ==> ByteAt(m, i, f.output.log[i])
  }

  lemma {:induction false} FlushUpToBytes(m: Cache, ks: seq<nat>, n: nat, output: Stream, i: nat)
    requires n <= |ks| && Enumerates(ks, m) && output.Valid()
    ensures FromCache(m, output, FlushUpTo(m, ks, n, |output.log|, output), i)
  {
    if n > 0 {
      var f, k := FlushUpTo(m, ks, n - 1, |output.log|, output), ks[n - 1];
      FlushUpToBytes(m, ks, n - 1, output, i);
      FlushInvariant(m, ks, n - 1, output);
      assert k in ks;
      FlushStepBytes(m, k, output, f, i);
    }
  }

  lemma FlushStepBytes(m: Cache, k: nat, output: Stream, f: Flush, i: nat)
    requires k in m && f.output.Valid() && f.idx == |f.output.log| && FromCache(m, output, f, i)
    ensures FromCache(m, output, FlushStep(f, k, m[k]), i)
  {
    var g := FlushStep(f, k, m[k]);
    if |f.output.log| <= i < |g.output.log| {
      assert Has(m, k, i) && g.output.log[i] == m[k][i - k];
    }
  }

  /** A push that continues the output: the bytes written are the pushed ones as far as they
      reach, and cached ones after that. */
  lemma PushWritesBytes(r: Reassembler, data: seq<byte>, index: nat, eof: bool, i: nat)
    requires WellFormed(r) && index <= r.assembleIdx <= index + |data|
    requires |r.output.log| <= i < |Push(r, data, index, eof).output.log|
    ensures var out := Push(r, data, index, eof).output;
            if i < index + |data| then out.log[i] == data[i - index] else ByteAt(r.segments, i, out.log[i])
  {
    var out := ReassemblyRuns.Written(r, data, index);
    var rest, ks := data[r.assembleIdx - index..], SortedKeys(r.segments.Keys);
    ReassemblyRuns.AssembleIsFlush(r, data, index, eof);
    ReassemblyRuns.AssembleReaches(r, data, index, eof);
    FlushAllKeeps(r.segments, out);
    KeysEnumerate(r.segments);
    FlushUpToBytes(r.segments, ks, |ks|, out, i);
    if i < |out.log| {
      assert out.log[i] == rest[i - r.assembleIdx] == data[i - index];
    }
  }
}
