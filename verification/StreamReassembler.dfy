/** Assembly of possibly out-of-order, overlapping substrings into a byte stream: the
    functions of the reassembler. Their properties are in ReassemblerProofs and the class
    that computes them in place is in ReassemblerObject. */
module StreamReassemblers {
  import opened Numbers
  import opened ByteStreams
  import opened OrderedMaps

  /** The substrings waiting for the bytes before them, by the index of their first byte. */
  type Cache = map<nat, seq<byte>>

  /** What `eof_idx` holds while no end of stream is known: -1 as an unsigned 64-bit number. */
  const NO_EOF: nat := TWO64 - 1

  datatype Reassembler = Reassembler(assembleIdx: nat, eofIdx: nat, segments: Cache, output: Stream)

  function Fresh(capacity: nat): Reassembler {
    Reassembler(0, NO_EOF, map[], Stream(capacity, [], 0, false, false))
  }

  // ----- merging a substring into the cache -----

  /** The substring being merged, extended so far to `[lft, Rgt())`, the keys it swallowed,
      and whether it is still to be stored. */
  datatype Merge = Merge(lft: nat, data: seq<byte>, removed: set<nat>, cached: bool) {
    function Rgt(): nat { lft + |data| }
  }

  function MergeStep(a: Merge, k: nat, d: seq<byte>): Merge {
    var rgt := k + |d|;
    if a.lft <= k <= a.Rgt() then
      if a.Rgt() >= rgt then a.(removed := a.removed + {k})
      else a.(data := a.data[..k - a.lft] + d, removed := a.removed + {k})
    else if k < a.lft <= rgt then
      if a.Rgt() <= rgt then a.(cached := false)
      else a.(lft := k, data := d[..a.lft - k] + a.data, removed := a.removed + {k})
    else a
  }

  /** The merge after visiting the first `n` of the keys `ks`. */
  function MergeUpTo(m: Cache, ks: seq<nat>, n: nat, index: nat, data: seq<byte>): Merge
    requires n <= |ks| && forall k :: k in ks ==> k in m
  {
    if n == 0 then Merge(index, data, {}, true)
    else MergeStep(MergeUpTo(m, ks, n - 1, index, data), ks[n - 1], m[ks[n - 1]])
  }

  function Store(m: Cache, a: Merge): Cache {
    var kept := m - a.removed;
    if a.cached then kept[a.lft := a.data] else kept
  }

  function MergeSegments(m: Cache, index: nat, data: seq<byte>): Cache {
    var ks := SortedKeys(m.Keys);
    SortedKeysAreKeys(m.Keys);
    Store(m, MergeUpTo(m, ks, |ks|, index, data))
  }

  // ----- the size of the cache -----

  function SizeUpTo(m: Cache, ks: seq<nat>, n: nat): nat
    requires n <= |ks| && forall k :: k in ks ==> k in m
  {
    if n == 0 then 0 else SizeUpTo(m, ks, n - 1) + |m[ks[n - 1]]|
  }

  function UnassembledBytes(m: Cache): nat {
    var ks := SortedKeys(m.Keys);
    SortedKeysAreKeys(m.Keys);
    SizeUpTo(m, ks, |ks|)
  }

  // ----- accepting a substring -----

  /** The flush of the cache: the assembled index and output so far, and the keys done with. */
  datatype Flush = Flush(idx: nat, output: Stream, popped: set<nat>)

  function FlushStep(a: Flush, k: nat, d: seq<byte>): (r: Flush)
    requires a.output.Valid()
    ensures r.output.Valid()
  {
    if k + |d| <= a.idx || |d| == 0 then a.(popped := a.popped + {k})
    else if a.idx < k then a
    else
      var rest := d[a.idx - k..];
      Flush(a.idx + a.output.Fit(rest), a.output.Write(rest), a.popped + {k})
  }

  function FlushUpTo(m: Cache, ks: seq<nat>, n: nat, idx: nat, output: Stream): (r: Flush)
    requires n <= |ks| && forall k :: k in ks ==> k in m
    requires output.Valid()
    ensures r.output.Valid()
  {
    if n == 0 then Flush(idx, output, {})
    else FlushStep(FlushUpTo(m, ks, n - 1, idx, output), ks[n - 1], m[ks[n - 1]])
  }

  function FlushAll(m: Cache, idx: nat, output: Stream): (r: Flush)
    requires output.Valid()
    ensures r.output.Valid()
  {
    var ks := SortedKeys(m.Keys);
    SortedKeysAreKeys(m.Keys);
    FlushUpTo(m, ks, |ks|, idx, output)
  }

  /** `push_substring` where the substring starts at or before the assembled index and
      reaches it: write what is new, then what the cache continues it with. */
  function Assemble(r: Reassembler, data: seq<byte>, index: nat, eofIdx: nat): (r': Reassembler)
    requires r.output.Valid() && index <= r.assembleIdx <= index + |data|
    ensures r'.output.Valid()
  {
    var rest := data[r.assembleIdx - index..];
    var f := FlushAll(r.segments, r.assembleIdx + r.output.Fit(rest), r.output.Write(rest));
    var left := r.segments - f.popped;
    var done := UnassembledBytes(left) == 0 && f.idx == eofIdx;
    Reassembler(f.idx, eofIdx, left, f.output.(ended := f.output.ended || done))
  }

  function Push(r: Reassembler, data: seq<byte>, index: nat, eof: bool): (r': Reassembler)
    requires r.output.Valid()
    ensures r'.output.Valid()
  {
    var eofIdx := if eof then |data| + index else r.eofIdx;
    if index > r.assembleIdx then
      r.(eofIdx := eofIdx, segments := MergeSegments(r.segments, index, data))
    else if index + |data| < r.assembleIdx then r.(eofIdx := eofIdx)
    else Assemble(r, data, index, eofIdx)
  }
}
