/** 32-bit sequence numbers relative to an initial sequence number, and their
    64-bit absolute counterparts. */
module WrappingIntegers {
  import opened Numbers

  /** The 32-bit form of absolute sequence number `n`. */
  function Wrap(n: nat, isn: u32): u32 {
    (n % TWO32 + isn) % TWO32
  }

  /** `a - b` on 32-bit values: unsigned subtraction read back as a signed int. */
  function Offset(a: u32, b: u32): int {
    var d := (a - b) % TWO32;
    if d < TWO31 then d else d - TWO32
  }

  /** The absolute sequence number near `checkpoint` for the 32-bit value `n`.
      The addition is done on 64-bit unsigned values, its result is read as a signed
      64-bit value, and a negative result is moved up by 2^32 (again unsigned). */
  function Unwrap(n: u32, isn: u32, checkpoint: nat): nat {
    var sum := (checkpoint + Offset(n, Wrap(checkpoint, isn))) % TWO64;
    var ret := if sum < TWO63 then sum else sum - TWO64;
    if ret < 0 then (ret + TWO32) % TWO64 else ret
  }

  function Distance(a: int, b: int): nat {
    if a <= b then b - a else a - b
  }

  /** `x` is a non-negative number with 32-bit form `n`. */
  predicate Represents(x: int, n: u32, isn: u32) {
    0 <= x && Wrap(x, isn) == n
  }

  /** No number with the 32-bit form `n` is nearer to `checkpoint` than `x`. */
  ghost predicate Closest(x: int, n: u32, isn: u32, checkpoint: nat) {
    Represents(x, n, isn) &&
    forall y: int {:trigger Represents(y, n, isn)} ::
      Represents(y, n, isn) ==> Distance(x, checkpoint) <= Distance(y, checkpoint)
  }

  /** Equal remainders: `r` is `k` up to a multiple of 2^32 and lies in range. */
  lemma ModIs(k: int, q: int, r: int)
    requires 0 <= r < TWO32 && k == q * TWO32 + r
    ensures k % TWO32 == r
  {
  }

  /** `x` represents `n` exactly when it is `n - isn` up to a multiple of 2^32. */
  lemma FormOf(x: int, n: u32, isn: u32) returns (k: int)
    requires Represents(x, n, isn)
    ensures x == n - isn + k * TWO32
  {
    k := x / TWO32 + (if x % TWO32 + isn < TWO32 then 0 else 1);
    ModIs(x % TWO32 + isn, if x % TWO32 + isn < TWO32 then 0 else 1, n);
  }

  lemma HasForm(x: int, k: int, n: u32, isn: u32)
    requires 0 <= x == n - isn + k * TWO32
    ensures Represents(x, n, isn)
  {
    var e := if x % TWO32 + isn < TWO32 then 0 else 1;
    var r := x % TWO32 + isn - e * TWO32;
    ModIs(x % TWO32 + isn, e, r);
    assert r - n == (k - x / TWO32 - e) * TWO32;
  }

  lemma OffsetForm(n: u32, isn: u32, c: nat) returns (k: int)
    ensures c + Offset(n, Wrap(c, isn)) == n - isn + k * TWO32
  {
    var w := Wrap(c, isn);
    k := FormOf(c, w, isn);
    k := k + (if n >= w then 0 else 1);
    ModIs(n - w, if n >= w then 0 else -1, if n >= w then n - w else n - w + TWO32);
    k := k - (if Offset(n, w) < (n - w) % TWO32 then 1 else 0);
  }

  /** The signed 32-bit offset is the true difference when that one is small. */
  lemma OffsetOfWraps(x: nat, c: nat, isn: u32)
    requires -TWO31 <= x - c < TWO31
    ensures Offset(Wrap(x, isn), Wrap(c, isn)) == x - c
  {
    var qx, qc := x / TWO32, c / TWO32;
    var ex := if x % TWO32 + isn < TWO32 then 0 else 1;
    var ec := if c % TWO32 + isn < TWO32 then 0 else 1;
    ModIs(x % TWO32 + isn, ex, Wrap(x, isn));
    ModIs(c % TWO32 + isn, ec, Wrap(c, isn));
    var up := if x >= c then 0 else 1;
    ModIs(Wrap(x, isn) - Wrap(c, isn), qc - qx + ec - ex - up, x - c + up * TWO32);
  }

  /** Wrapping is undone by unwrapping near the original number. */
  lemma UnwrapWrap(x: nat, isn: u32, checkpoint: nat)
    requires x < TWO63
    requires -TWO31 <= x - checkpoint < TWO31
    ensures Unwrap(Wrap(x, isn), isn, checkpoint) == x
  {
    OffsetOfWraps(x, checkpoint, isn);
  }

  /** The guard under which `Unwrap` does what its documentation promises: the signed
      64-bit sum is exact, or the offset is a tie whose other solution still fits. */
  predicate SumFits(n: u32, isn: u32, checkpoint: u64) {
    var offset := Offset(n, Wrap(checkpoint, isn));
    checkpoint + offset < TWO63 || (offset == -TWO31 && checkpoint + TWO31 < TWO64)
  }

  /** Where the arithmetic of `Unwrap` lands, in terms of the exact sum `s`. */
  lemma UnwrapLands(n: u32, isn: u32, checkpoint: u64)
    ensures var s := checkpoint + Offset(n, Wrap(checkpoint, isn));
            Unwrap(n, isn, checkpoint) ==
              if s < 0 then s + TWO32
              else if s < TWO63 then s
              else if s < TWO64 - TWO32 then s + TWO32
              else if s < TWO64 then s + TWO32 - TWO64
              else s - TWO64
  {
  }

  /** Numbers of one form are 2^32 apart, so being within 2^31 (or being the smallest
      of them) is being closest. */
  lemma NoneNearer(u: int, y: int, n: u32, isn: u32, c: nat)
    requires Represents(u, n, isn) && Represents(y, n, isn)
    requires Distance(u, c) <= TWO31 || c <= u < TWO32
    ensures Distance(u, c) <= Distance(y, c)
  {
    var j := FormOf(u, n, isn);
    var k := FormOf(y, n, isn);
    assert u - y == (j - k) * TWO32;
  }

  lemma FitsIsClosest(n: u32, isn: u32, checkpoint: u64)
    requires SumFits(n, isn, checkpoint)
    ensures Closest(Unwrap(n, isn, checkpoint), n, isn, checkpoint)
  {
    var s := checkpoint + Offset(n, Wrap(checkpoint, isn));
    var u := Unwrap(n, isn, checkpoint);
    UnwrapLands(n, isn, checkpoint);
    var k := OffsetForm(n, isn, checkpoint);
    HasForm(u, if u == s then k else k + 1, n, isn);
    forall y: int | Represents(y, n, isn)
      ensures Distance(u, checkpoint) <= Distance(y, checkpoint)
    {
      NoneNearer(u, y, n, isn, checkpoint);
    }
  }

  lemma UnfitIsNotClosest(n: u32, isn: u32, checkpoint: u64)
    requires !SumFits(n, isn, checkpoint)
    ensures !Closest(Unwrap(n, isn, checkpoint), n, isn, checkpoint)
  {
    var s := checkpoint + Offset(n, Wrap(checkpoint, isn));
    UnwrapLands(n, isn, checkpoint);
    var k := OffsetForm(n, isn, checkpoint);
    HasForm(s, k, n, isn);
    assert Distance(s, checkpoint) < Distance(Unwrap(n, isn, checkpoint), checkpoint);
  }

  /** `Unwrap` returns a closest solution exactly when the 64-bit sum fits. */
  lemma UnwrapIsClosestIff(n: u32, isn: u32, checkpoint: u64)
    ensures Closest(Unwrap(n, isn, checkpoint), n, isn, checkpoint) <==> SumFits(n, isn, checkpoint)
  {
    if SumFits(n, isn, checkpoint) {
      FitsIsClosest(n, isn, checkpoint);
    } else {
      UnfitIsNotClosest(n, isn, checkpoint);
    }
  }

  /** Exactly when wrapping is undone by unwrapping near the original number: while that
      number, read as a signed 64-bit value, is not negative. */
  lemma UnwrapWrapIff(x: u64, isn: u32, checkpoint: u64)
    requires -TWO31 <= x - checkpoint < TWO31
    ensures Unwrap(Wrap(x, isn), isn, checkpoint) == x <==> x < TWO63
  {
    OffsetOfWraps(x, checkpoint, isn);
    UnwrapLands(Wrap(x, isn), isn, checkpoint);
  }

  /** At checkpoint 2^63 the checkpoint itself is not found: the result is 2^32 away from it. */
  lemma UnwrapMisses(isn: u32)
    ensures var n := Wrap(TWO63, isn);
            && Unwrap(n, isn, TWO63) == TWO63 + TWO32
            && !Closest(Unwrap(n, isn, TWO63), n, isn, TWO63)
  {
    var n := Wrap(TWO63, isn);
    OffsetOfWraps(TWO63, TWO63, isn);
    UnwrapLands(n, isn, TWO63);
    UnwrapIsClosestIff(n, isn, TWO63);
  }
}
