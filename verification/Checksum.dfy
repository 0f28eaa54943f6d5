/** The Internet checksum: the accumulating object of the TCP library and the two inline
    routines of the router and NAT exercises. */
module Checksums {
  import opened Numbers

  // ----- folding to 16 bits -----

  /** Add the upper half to the lower half until 16 bits are left. */
  function Fold(x: nat): nat
    decreases x
  {
    if x > 0xffff then Fold(x / 0x10000 + x % 0x10000) else x
  }

  /** `x` reduced modulo 65535, with 65535 rather than 0 for the positive multiples. */
  predicate IsFold(f: nat, x: nat) {
    f <= 0xffff && (f == 0 <==> x == 0) && (x - f) % 0xffff == 0
  }

  lemma IsFoldBy(f: nat, x: nat, k: int)
    requires f <= 0xffff && (f == 0 <==> x == 0) && x - f == 0xffff * k
    ensures IsFold(f, x)
  {
  }

  lemma FoldQuotient(f: nat, x: nat) returns (k: int)
    requires IsFold(f, x)
    ensures x - f == 0xffff * k
  {
    k := (x - f) / 0xffff;
  }

  lemma {:induction false} FoldIsFold(x: nat)
    ensures IsFold(Fold(x), x)
    decreases x
  {
    if x > 0xffff {
      var h, l := x / 0x10000, x % 0x10000;
      FoldIsFold(h + l);
      var k := FoldQuotient(Fold(h + l), h + l);
      IsFoldBy(Fold(x), x, k + h);
    }
  }

  /** There is only one such reduction. */
  lemma FoldIsUnique(f: nat, g: nat, x: nat)
    requires IsFold(f, x) && IsFold(g, x)
    ensures f == g
  {
    var p := FoldQuotient(f, x);
    var q := FoldQuotient(g, x);
    assert f - g == 0xffff * (q - p);
  }

  // ----- sums of 16-bit words -----

  /** What a byte adds: an even-numbered one is the high half of a big-endian word. */
  function BigTerm(odd: bool, b: byte): nat { if odd then b else b * 0x100 }
  function LittleTerm(odd: bool, b: byte): nat { if odd then b * 0x100 else b }

  /** The sum of the big-endian words of `data`, whose first byte is odd-numbered if `odd`. */
  function BigSum(odd: bool, data: seq<byte>): nat {
    if data == [] then 0
    else BigSum(odd, data[..|data| - 1]) + BigTerm(odd != (|data| % 2 == 0), data[|data| - 1])
  }

  function LittleSum(data: seq<byte>): nat {
    if data == [] then 0
    else LittleSum(data[..|data| - 1]) + LittleTerm(|data| % 2 == 0, data[|data| - 1])
  }

  lemma {:induction false} BigSumConcat(odd: bool, a: seq<byte>, b: seq<byte>)
    ensures BigSum(odd, a + b) == BigSum(odd, a) + BigSum(odd != (|a| % 2 == 1), b)
    decreases |b|
  {
    if b == [] {
      assert a + b == a;
    } else {
      var front := b[..|b| - 1];
      assert (a + b)[..|a + b| - 1] == a + front;
      BigSumConcat(odd, a, front);
    }
  }

  lemma {:induction false} BigSumBound(odd: bool, data: seq<byte>)
    ensures BigSum(odd, data) <= 0xff00 * ((|data| + (if odd then 0 else 1)) / 2) + 0xff * ((|data| + (if odd then 1 else 0)) / 2)
    decreases |data|
  {
    if data != [] {
      BigSumBound(odd, data[..|data| - 1]);
    }
  }

  // ----- the accumulating checksum -----

  datatype Checksum = Checksum(sum: u32, parity: bool)

  function AddByte(c: Checksum, b: byte): Checksum {
    Checksum((c.sum + BigTerm(c.parity, b)) % TWO32, !c.parity)
  }

  function AddBytes(c: Checksum, data: seq<byte>): Checksum {
    if data == [] then c else AddByte(AddBytes(c, data[..|data| - 1]), data[|data| - 1])
  }

  /** The ones' complement of the folded sum, in 16 bits. */
  function ValueOf(c: Checksum): u16 {
    FoldIsFold(c.sum);
    0xffff - Fold(c.sum)
  }

  function Concat(chunks: seq<seq<byte>>): seq<byte> {
    if chunks == [] then [] else Concat(chunks[..|chunks| - 1]) + chunks[|chunks| - 1]
  }

  function AddAll(c: Checksum, chunks: seq<seq<byte>>): Checksum {
    if chunks == [] then c else AddBytes(AddAll(c, chunks[..|chunks| - 1]), chunks[|chunks| - 1])
  }

  lemma {:induction false} AddConcat(c: Checksum, a: seq<byte>, b: seq<byte>)
    ensures AddBytes(c, a + b) == AddBytes(AddBytes(c, a), b)
    decreases |b|
  {
    if b == [] {
      assert a + b == a;
    } else {
      assert (a + b)[..|a + b| - 1] == a + b[..|b| - 1];
      AddConcat(c, a, b[..|b| - 1]);
    }
  }

  /** Adding in chunks, cut anywhere, is adding the concatenation. */
  lemma {:induction false} ChunksDoNotMatter(c: Checksum, chunks: seq<seq<byte>>)
    ensures AddAll(c, chunks) == AddBytes(c, Concat(chunks))
    decreases |chunks|
  {
    if chunks != [] {
      var front := chunks[..|chunks| - 1];
      ChunksDoNotMatter(c, front);
      AddConcat(c, Concat(front), chunks[|chunks| - 1]);
    }
  }

  /** Without overflow the accumulated sum is the sum of the words. */
  lemma {:induction false} AddIsSum(c: Checksum, data: seq<byte>)
    requires c.sum + BigSum(c.parity, data) < TWO32
    ensures AddBytes(c, data) == Checksum(c.sum + BigSum(c.parity, data), c.parity != (|data| % 2 == 1))
    decreases |data|
  {
    if data != [] {
      var front := data[..|data| - 1];
      AddIsSum(c, front);
      AddByteIsSum(AddBytes(c, front), data[|data| - 1]);
    }
  }

  lemma AddByteIsSum(c: Checksum, b: byte)
    requires c.sum + BigTerm(c.parity, b) < TWO32
    ensures AddByte(c, b) == Checksum(c.sum + BigTerm(c.parity, b), !c.parity)
  {
  }

  /** A checksum verifies exactly when the sum is a positive multiple of 65535. */
  lemma VerifiesIff(sum: u32, parity: bool)
    ensures ValueOf(Checksum(sum, parity)) == 0 <==> sum > 0 && sum % 0xffff == 0
  {
    FoldIsFold(sum);
    if Fold(sum) == 0xffff {
      var k := FoldQuotient(0xffff, sum);
      assert sum == 0xffff * (k + 1);
    } else if sum > 0 && sum % 0xffff == 0 {
      IsFoldBy(0xffff, sum, sum / 0xffff - 1);
      FoldIsUnique(Fold(sum), 0xffff, sum);
    }
  }

  /** Storing the checksum of a sum makes the total verify. */
  lemma StoredChecksumVerifies(sum: u32, parity: bool)
    requires sum + 0xffff < TWO32
    ensures ValueOf(Checksum(sum + ValueOf(Checksum(sum, parity)), parity)) == 0
  {
    var f := Fold(sum);
    FoldIsFold(sum);
    var k := FoldQuotient(f, sum);
    assert sum + (0xffff - f) == 0xffff * (k + 1);
    VerifiesIff(sum + (0xffff - f), parity);
  }

  class InternetChecksum {
    var sum: u32
    var parity: bool

    function State(): Checksum reads this { Checksum(sum, parity) }

    constructor (initialSum: u32)
      ensures State() == Checksum(initialSum, false)
    {
      sum, parity := initialSum, false;
    }

    method Add(data: seq<byte>)
      modifies this
      ensures State() == AddBytes(old(State()), data)
    {
      for i := 0 to |data|
        invariant State() == AddBytes(old(State()), data[..i])
      {
        assert data[..i + 1][..i] == data[..i];
        var val: u16 := data[i];
        if !parity {
          val := val * 0x100;
        }
        sum := (sum + val) % TWO32;
        parity := !parity;
      }
      assert data[..|data|] == data;
    }

    method Value() returns (v: u16)
      ensures v == ValueOf(State())
    {
      var ret: u32 := sum;
      while ret > 0xffff
        invariant Fold(ret) == Fold(sum)
        decreases ret
      {
        ret := ret / 0x10000 + ret % 0x10000;
      }
      v := 0xffff - ret;
    }
  }

  // ----- the routines of the exercises -----

  /** Two fixed folds, as the router does, with the result cut to 16 bits. */
  function TwoFolds(x: u32): u16 {
    var once := x / 0x10000 + x % 0x10000;
    (once + once / 0x10000) % 0x10000
  }

  lemma Halves(h: nat, l: nat)
    requires l < 0x10000
    ensures (h * 0x10000 + l) / 0x10000 == h && (h * 0x10000 + l) % 0x10000 == l
  {
  }

  /** Two folds are enough for 32 bits. */
  lemma TwoFoldsAreEnough(x: u32)
    ensures TwoFolds(x) == Fold(x)
  {
    var once := x / 0x10000 + x % 0x10000;
    assert once <= 0x1fffe;
    if once > 0xffff {
      Halves(1, once - 0x10000);
      assert Fold(once) == Fold(1 + (once - 0x10000)) == 1 + (once - 0x10000);
      Halves(1, once - 0x10000 + 1);
    } else {
      Halves(0, once);
    }
    assert x > 0xffff ==> Fold(x) == Fold(once);
    if x <= 0xffff {
      Halves(0, x);
    }
  }

  /** The little-endian word at byte `i`. */
  function WordAt(data: seq<byte>, i: nat): u16
    requires i + 1 < |data|
  {
    data[i] as int + 0x100 * (data[i + 1] as int)
  }

  lemma LittleSumPair(data: seq<byte>, i: nat)
    requires i + 1 < |data| && i % 2 == 0
    ensures LittleSum(data[..i + 2]) == LittleSum(data[..i]) + WordAt(data, i)
  {
    assert data[..i + 2][..i + 1] == data[..i + 1] && data[..i + 1][..i] == data[..i];
  }

  /** `a + b` on 32-bit words. */
  function Plus32(a: int, b: int): u32 { (a + b) % 0x1_0000_0000 }

  lemma Plus32Assoc(a: nat, b: nat, c: nat, sum: nat)
    requires sum == b + c
    ensures Plus32(Plus32(a, b), c) == Plus32(a, sum)
  {
  }

  /** What the two routines compute, for any length and any initial sum. */
  function RouterValue(data: seq<byte>, initial: u32): u16 {
    0xffff - TwoFolds(Plus32(initial, LittleSum(data)))
  }

  function NatValue(data: seq<byte>, initial: u32): u16 {
    FoldIsFold(Plus32(initial, LittleSum(data)));
    0xffff - Fold(Plus32(initial, LittleSum(data)))
  }

  /** The router's checksum: the odd byte first, then the words, then two folds. */
  method RouterChecksum(data: seq<byte>, initial: u32) returns (r: u16)
    ensures r == RouterValue(data, initial)
  {
    var sum, nbytes := initial, |data|;
    if nbytes % 2 == 1 {
      OddByteFirst(data, initial);
      nbytes := nbytes - 1;
      sum := Plus32(sum, data[nbytes]);
    } else {
      EvenPartSum(data);
    }
    assert data[..nbytes] == EvenPart(data);
    sum := AddWords(data, nbytes, sum);
    r := FoldTwice(sum);
  }

  /** The bytes before an odd last one. */
  function EvenPart(data: seq<byte>): seq<byte> { data[..|data| - |data| % 2] }

  lemma EvenPartSum(data: seq<byte>)
    ensures LittleSum(data) == LittleSum(EvenPart(data)) + (if |data| % 2 == 1 then data[|data| - 1] else 0)
  {
    if |data| % 2 == 0 {
      assert EvenPart(data) == data;
    }
  }

  lemma OddByteFirst(data: seq<byte>, initial: u32)
    requires |data| % 2 == 1
    ensures Plus32(initial, LittleSum(data)) ==
              Plus32(Plus32(initial, data[|data| - 1]), LittleSum(EvenPart(data)))
  {
    EvenPartSum(data);
    Plus32Assoc(initial, data[|data| - 1], LittleSum(EvenPart(data)), LittleSum(data));
  }

  /** The loop over whole words. */
  method AddWords(data: seq<byte>, nbytes: nat, initial: u32) returns (sum: u32)
    requires nbytes <= |data| && nbytes % 2 == 0
    ensures sum == Plus32(initial, LittleSum(data[..nbytes]))
  {
    sum := initial;
    var ptr := 0;
    while ptr < nbytes
      invariant ptr <= nbytes && ptr % 2 == 0
      invariant sum == Plus32(initial, LittleSum(data[..ptr]))
    {
      LittleSumPair(data, ptr);
      Plus32Assoc(initial, LittleSum(data[..ptr]), WordAt(data, ptr), LittleSum(data[..ptr + 2]));
      sum := Plus32(sum, WordAt(data, ptr));
      ptr := ptr + 2;
    }
  }

  /** The end of the router's checksum. */
  method FoldTwice(folding: u32) returns (r: u16)
    ensures r == 0xffff - TwoFolds(folding)
  {
    var sum: nat := folding / 0x10000 + folding % 0x10000;
    sum := sum + sum / 0x10000;
    r := 0xffff - sum % 0x10000;
  }

  /** The NAT's checksum: the words, then the odd byte, then folds until nothing is left above
      16 bits. */
  method NatChecksum(data: seq<byte>, initial: u32) returns (r: u16)
    ensures r == NatValue(data, initial)
  {
    var sum := initial;
    for i := 0 to |data| / 2
      invariant sum == Plus32(initial, LittleSum(data[..2 * i]))
    {
      LittleSumPair(data, 2 * i);
      Plus32Assoc(initial, LittleSum(data[..2 * i]), WordAt(data, 2 * i), LittleSum(data[..2 * (i + 1)]));
      sum := Plus32(sum, WordAt(data, 2 * i));
    }
    assert data[..|data|] == data;
    if |data| % 2 == 1 {
      Plus32Assoc(initial, LittleSum(data[..|data| - 1]), data[|data| - 1], LittleSum(data));
      sum := Plus32(sum, data[|data| - 1]);
    }
    ghost var total := sum;
    while sum / 0x10000 > 0
      invariant Fold(sum) == Fold(total)
      decreases sum
    {
      sum := sum / 0x10000 + sum % 0x10000;
    }
    r := 0xffff - sum;
  }

  // ----- byte order independence -----

  function Swap(x: u16): u16 { x % 0x100 * 0x100 + x / 0x100 }

  function EvenBytes(data: seq<byte>): nat {
    if data == [] then 0
    else EvenBytes(data[..|data| - 1]) + (if |data| % 2 == 0 then 0 else data[|data| - 1])
  }

  lemma {:induction false} SumsAreSwapped(data: seq<byte>)
    ensures 0x100 * BigSum(false, data) == LittleSum(data) + 0xffff * EvenBytes(data)
    ensures BigSum(false, data) == 0 <==> LittleSum(data) == 0
    decreases |data|
  {
    if data != [] {
      SumsAreSwapped(data[..|data| - 1]);
    }
  }

  /** The two halves of a 32-bit sum, each byte-swapped. */
  function Swap32(x: u32): u32 { Swap(x / 0x10000) * 0x10000 + Swap(x % 0x10000) }

  lemma SwapIsTimes256(f: u16)
    ensures 0x100 * f == Swap(f) + 0xffff * (f / 0x100)
    ensures Swap(f) == 0 <==> f == 0
  {
  }

  lemma Swap32IsTimes256(x: u32) returns (e: nat)
    ensures 0x100 * x == Swap32(x) + 0xffff * e
    ensures Swap32(x) == 0 <==> x == 0
  {
    var h, l := x / 0x10000, x % 0x10000;
    SwapIsTimes256(h);
    SwapIsTimes256(l);
    e := h / 0x100 * 0x10000 + l / 0x100;
  }

  lemma SwapOfComplement(f: u16)
    ensures Swap(0xffff - f) == 0xffff - Swap(f)
  {
    var h, l := f / 0x100, f % 0x100;
    assert 0xffff - f == (0xff - h) * 0x100 + (0xff - l);
  }

  lemma CongruentSwap(b: int, f: int, k: int, l: int, e: int, sw: int, h: int)
    requires b - f == 0xffff * k && 0x100 * b == l + 0xffff * e && 0x100 * f == sw + 0xffff * h
    ensures l - sw == 0xffff * (0x100 * k + h - e)
  {
  }

  lemma FoldIs(x: nat, f: nat)
    requires IsFold(f, x)
    ensures Fold(x) == f
  {
    FoldIsFold(x);
    FoldIsUnique(Fold(x), f, x);
  }

  /** Folding commutes with swapping bytes: two sums, one 256 times the other up to a multiple
      of 65535, fold to swapped words. */
  lemma SwapOfFold(b: nat, l: nat, e: int)
    requires 0x100 * b == l + 0xffff * e && (b == 0 <==> l == 0)
    ensures Fold(b) <= 0xffff
    ensures Fold(l) == Swap(Fold(b))
  {
    var f := Fold(b);
    FoldIsFold(b);
    var k := FoldQuotient(f, b);
    SwapIsTimes256(f);
    CongruentSwap(b, f, k, l, e, Swap(f), f / 0x100);
    IsFoldBy(Swap(f), l, 0x100 * k + f / 0x100 - e);
    FoldIs(l, Swap(f));
  }

  lemma BigValue(data: seq<byte>, initial: u32)
    requires initial + BigSum(false, data) < TWO32
    ensures Fold(initial + BigSum(false, data)) <= 0xffff
    ensures ValueOf(AddBytes(Checksum(initial, false), data)) == 0xffff - Fold(initial + BigSum(false, data))
  {
    var sum: u32 := initial + BigSum(false, data);
    AddIsSum(Checksum(initial, false), data);
    ValueIs(AddBytes(Checksum(initial, false), data), sum);
  }

  lemma ValueIs(c: Checksum, sum: nat)
    requires c.sum == sum
    ensures Fold(sum) <= 0xffff && ValueOf(c) == 0xffff - Fold(sum)
  {
    FoldIsFold(sum);
  }

  lemma PlusExact(a: nat, b: nat)
    requires a + b < TWO32
    ensures Plus32(a, b) == a + b
  {
  }

  lemma LittleValue(data: seq<byte>, initial: u32)
    requires initial + LittleSum(data) < TWO32
    ensures NatValue(data, initial) == 0xffff - Fold(initial + LittleSum(data))
  {
    PlusExact(initial, LittleSum(data));
  }

  /** Byte order independence: as long as the 32-bit sums do not overflow, the big-endian
      checksum is the byte swap of the little-endian one that starts from the swapped sum. */
  lemma SwappedChecksums(data: seq<byte>, initial: u32)
    requires initial + BigSum(false, data) < TWO32 && Swap32(initial) + LittleSum(data) < TWO32
    ensures Swap(ValueOf(AddBytes(Checksum(initial, false), data))) == NatValue(data, Swap32(initial))
  {
    var b, l := initial + BigSum(false, data), Swap32(initial) + LittleSum(data);
    SumsAreSwapped(data);
    var e := Swap32IsTimes256(initial);
    SwapOfFold(b, l, e + EvenBytes(data));
    BigValue(data, initial);
    LittleValue(data, Swap32(initial));
    SwapOfComplement(Fold(b));
  }

  /** Up to 128 KiB and from a 16-bit sum the sums cannot overflow. */
  lemma ShortSumsFit(data: seq<byte>)
    requires |data| <= 0x2_0000
    ensures 0xffff + BigSum(false, data) < TWO32 && 0xffff + LittleSum(data) < TWO32
  {
    BigSumBound(false, data);
    LittleSumBound(data);
  }

  lemma {:induction false} LittleSumBound(data: seq<byte>)
    ensures LittleSum(data) <= 0xff * ((|data| + 1) / 2) + 0xff00 * (|data| / 2)
    decreases |data|
  {
    if data != [] {
      LittleSumBound(data[..|data| - 1]);
    }
  }

  /** The three routines agree: the router's and the NAT's are equal on every buffer and every
      initial sum, overflowing or not; and they are the byte swap of the accumulating checksum
      started from the swapped sum, odd lengths included, as long as neither 32-bit sum
      overflows; which none does up to 128 KiB from a 16-bit sum. */
  lemma ThreeChecksumsAgree(data: seq<byte>, initial: u32)
    ensures RouterValue(data, initial) == NatValue(data, initial)
    ensures initial + BigSum(false, data) < TWO32 && Swap32(initial) + LittleSum(data) < TWO32 ==>
              Swap(ValueOf(AddBytes(Checksum(initial, false), data))) == RouterValue(data, Swap32(initial))
    ensures |data| <= 0x2_0000 && initial < TWO16 ==>
              Swap(ValueOf(AddBytes(Checksum(initial, false), data))) == RouterValue(data, Swap(initial))
  {
    RouterIsNat(data, initial);
    RouterIsNat(data, Swap32(initial));
    if initial + BigSum(false, data) < TWO32 && Swap32(initial) + LittleSum(data) < TWO32 {
      SwappedChecksums(data, initial);
    }
    if |data| <= 0x2_0000 && initial < TWO16 {
      ShortSumsFit(data);
      SwapShort(initial);
      SwappedChecksums(data, initial);
    }
  }

  lemma RouterIsNat(data: seq<byte>, initial: u32)
    ensures RouterValue(data, initial) == NatValue(data, initial)
  {
    TwoFoldsAreEnough(Plus32(initial, LittleSum(data)));
  }

  lemma SwapShort(x: u16)
    ensures Swap32(x) == Swap(x)
  {
    assert x / 0x10000 == 0 && x % 0x10000 == x;
    assert Swap(0) == 0;
  }
}
