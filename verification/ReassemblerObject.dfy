/** The reassembler as an object that updates its cache and output stream in place. */
module ReassemblerObjects {
  import opened Numbers
  import opened ByteStreams
  import opened OrderedMaps
  import opened StreamReassemblers
  import ReassemblerProofs

  /** What a push keeps, in the form the method promises it. */
  lemma PushKeeps(r: Reassembler, data: seq<byte>, index: nat, eof: bool)
    requires r.output.Valid()
    ensures ReassemblerProofs.WellFormed(r) ==>
              var r' := Push(r, data, index, eof);
              ReassemblerProofs.WellFormed(r') && r.output.log <= r'.output.log
  {
    if ReassemblerProofs.WellFormed(r) {
      ReassemblerProofs.PushKeepsWellFormed(r, data, index, eof);
    }
  }

  lemma ElementsAppend(ks: seq<nat>, k: nat)
    ensures Elements(ks + [k]) == Elements(ks) + {k}
  {
  }

  class StreamReassembler {
    var assembleIdx: nat
    var eofIdx: nat
    var segments: Cache
    const output: ByteStream
    const capacity: nat

    ghost function Repr(): set<object> { {this} + output.Repr() }

    ghost predicate Valid()
      reads Repr()
    {
      output.Valid() && this !in output.Repr()
    }

    ghost function State(): (r: Reassembler)
      requires Valid()
      reads Repr()
      ensures r.output.Valid()
    {
      Reassembler(assembleIdx, eofIdx, segments, output.State())
    }

    constructor (capacity: nat)
      ensures Valid() && fresh(Repr())
      ensures State() == Fresh(capacity) && ReassemblerProofs.WellFormed(State())
    {
      assembleIdx, eofIdx, segments := 0, NO_EOF, map[];
      output := new ByteStream(capacity);
      this.capacity := capacity;
    }

    method PushSubstring(data: seq<byte>, index: nat, eof: bool)
      requires Valid()
      modifies Repr()
      ensures Valid() && State() == Push(old(State()), data, index, eof)
      ensures ReassemblerProofs.WellFormed(old(State())) ==>
                ReassemblerProofs.WellFormed(State()) && old(State()).output.log <= State().output.log
    {
      PushKeeps(State(), data, index, eof);
      if eof {
        eofIdx := |data| + index;
      }
      if index > assembleIdx {
        MergeSegments(index, data);
        return;
      }
      if |data| < assembleIdx - index {
        return;
      }
      Assemble(data, index);
    }

    method Assemble(data: seq<byte>, index: nat)
      requires Valid() && index <= assembleIdx <= index + |data|
      modifies Repr()
      ensures Valid() && State() == StreamReassemblers.Assemble(old(State()), data, index, old(eofIdx))
    {
      WriteNew(data[assembleIdx - index..]);
      FlushSegments();
      var isEmpty := Empty();
      if isEmpty && assembleIdx == eofIdx {
        output.EndInput();
      }
    }

    /** Write what is new, as far as there is room. */
    method WriteNew(rest: seq<byte>)
      requires Valid()
      modifies Repr()
      ensures Valid()
      ensures var r := old(State());
              State() == r.(assembleIdx := r.assembleIdx + r.output.Fit(rest), output := r.output.Write(rest))
    {
      var written := output.Write(rest);
      assembleIdx := assembleIdx + written;
    }

    /** The loop that continues the output from the cache, and the erasure of what it used. */
    method FlushSegments()
      requires Valid()
      modifies Repr()
      ensures Valid()
      ensures var r := old(State());
              var f := FlushAll(r.segments, r.assembleIdx, r.output);
              State() == Reassembler(f.idx, r.eofIdx, r.segments - f.popped, f.output)
    {
      ghost var r := State();
      var ks := SortedKeys(segments.Keys);
      SortedKeysAreKeys(segments.Keys);
      var popList: seq<nat> := [];
      for i := 0 to |ks|
        invariant Valid() && segments == r.segments && eofIdx == r.eofIdx
        invariant FlushUpTo(segments, ks, i, r.assembleIdx, r.output) ==
                    Flush(assembleIdx, output.State(), Elements(popList))
      {
        assert ks[i] in ks;
        var pop := FlushOne(ks[i], segments[ks[i]], Elements(popList));
        if pop {
          ElementsAppend(popList, ks[i]);
          popList := popList + [ks[i]];
        }
      }
      Erase(popList);
    }

    /** One substring in the loop over the cache: is the cache done with it? */
    method FlushOne(k: nat, d: seq<byte>, ghost popped: set<nat>) returns (pop: bool)
      requires Valid()
      modifies Repr()
      ensures Valid() && segments == old(segments) && eofIdx == old(eofIdx)
      ensures FlushStep(Flush(old(assembleIdx), old(output.State()), popped), k, d) ==
                Flush(assembleIdx, output.State(), if pop then popped + {k} else popped)
    {
      if k + |d| <= assembleIdx || |d| == 0 {
        return true;
      }
      if assembleIdx < k {
        return false;
      }
      var written := output.Write(d[assembleIdx - k..]);
      assembleIdx := assembleIdx + written;
      return true;
    }

    method Erase(keys: seq<nat>)
      requires Valid()
      modifies this`segments
      ensures Valid() && State() == old(State()).(segments := old(segments) - Elements(keys))
    {
      for i := 0 to |keys|
        invariant segments == old(segments) - Elements(keys[..i])
      {
        assert keys[..i + 1] == keys[..i] + [keys[i]];
        segments := segments - {keys[i]};
      }
      assert keys[..|keys|] == keys;
    }

    method MergeSegments(index: nat, data: seq<byte>)
      requires Valid()
      modifies this`segments
      ensures Valid()
      ensures State() == old(State()).(segments := StreamReassemblers.MergeSegments(old(segments), index, data))
    {
      var dataLft: nat, dataRgt: nat := index, index + |data|;
      var dataCpy, cached := data, true;
      var removeList: seq<nat> := [];
      var ks := SortedKeys(segments.Keys);
      SortedKeysAreKeys(segments.Keys);
      for i := 0 to |ks|
        invariant segments == old(segments) && dataRgt == dataLft + |dataCpy|
        invariant MergeUpTo(segments, ks, i, index, data) == Merge(dataLft, dataCpy, Elements(removeList), cached)
      {
        assert ks[i] in ks;
        var remove: bool;
        ghost var a := Merge(dataLft, dataCpy, Elements(removeList), cached);
        dataLft, dataRgt, dataCpy, remove, cached := MergeOne(ks[i], segments[ks[i]], dataLft, dataRgt, dataCpy, cached, a);
        if remove {
          ElementsAppend(removeList, ks[i]);
          removeList := removeList + [ks[i]];
        }
      }
      Erase(removeList);
      if cached {
        segments := segments[dataLft := dataCpy];
      }
    }

    /** One cached substring in that loop: what is being merged afterwards, and is the cached one
        to be removed? */
    static method MergeOne(segLft: nat, seg: seq<byte>, dataLft: nat, dataRgt: nat, dataCpy: seq<byte>, cached: bool, ghost a: Merge)
      returns (dataLft': nat, dataRgt': nat, dataCpy': seq<byte>, remove: bool, cached': bool)
      requires dataRgt == dataLft + |dataCpy| && a == Merge(dataLft, dataCpy, a.removed, cached)
      ensures dataRgt' == dataLft' + |dataCpy'|
      ensures MergeStep(a, segLft, seg) ==
                Merge(dataLft', dataCpy', if remove then a.removed + {segLft} else a.removed, cached')
    {
      dataLft', dataRgt', dataCpy', remove, cached' := dataLft, dataRgt, dataCpy, false, cached;
      var segRgt := segLft + |seg|;
      if dataLft' <= segLft && dataRgt' >= segLft {
        if dataRgt' >= segRgt {
          return dataLft, dataRgt, dataCpy, true, cached;
        } else {
          dataCpy' := dataCpy'[..segLft - dataLft'] + seg;
          dataRgt' := dataLft' + |dataCpy'|;
          remove := true;
        }
      }
      if dataLft' > segLft && dataLft' <= segRgt {
        if dataRgt' <= segRgt {
          cached' := false;
        } else {
          dataCpy' := seg[..dataLft' - segLft] + dataCpy';
          dataLft' := segLft;
          dataRgt' := dataLft' + |dataCpy'|;
          remove := true;
        }
      }
    }

    method UnassembledBytes() returns (ub: nat)
      requires Valid()
      ensures ub == StreamReassemblers.UnassembledBytes(segments)
    {
      var ks := SortedKeys(segments.Keys);
      SortedKeysAreKeys(segments.Keys);
      ub := 0;
      for i := 0 to |ks|
        invariant ub == SizeUpTo(segments, ks, i)
      {
        assert ks[i] in ks;
        ub := ub + |segments[ks[i]]|;
      }
    }

    method Empty() returns (b: bool)
      requires Valid()
      ensures b == (StreamReassemblers.UnassembledBytes(segments) == 0)
    {
      var ub := UnassembledBytes();
      b := ub == 0;
    }
  }
}
