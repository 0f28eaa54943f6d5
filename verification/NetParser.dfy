/** Integers in network byte order: the consuming parser with its sticky error, and the
    unparser that appends to a string. */
module NetParsers {
  import opened Numbers

  datatype ParseResult =
    | NoError | BadChecksum | PacketTooShort | WrongIPVersion | HeaderTooShort | TruncatedPacket | Unsupported

  /** What is left to parse, and the first error met. */
  datatype Parser = Parser(buffer: seq<byte>, error: ParseResult)

  function Pow256(n: nat): nat { if n == 0 then 1 else 0x100 * Pow256(n - 1) }

  function BigEndian(bs: seq<byte>): nat {
    if bs == [] then 0 else BigEndian(bs[..|bs| - 1]) * 0x100 + bs[|bs| - 1]
  }

  lemma {:induction false} BigEndianBound(bs: seq<byte>)
    ensures BigEndian(bs) < Pow256(|bs|)
    decreases |bs|
  {
    if bs != [] {
      BigEndianBound(bs[..|bs| - 1]);
    }
  }

  /** The `width` low-order bytes of `v`, most significant first. */
  function IntBytes(v: nat, width: nat): (bs: seq<byte>)
    ensures |bs| == width
  {
    if width == 0 then [] else IntBytes(v / 0x100, width - 1) + [v % 0x100]
  }

  lemma {:induction false} IntBytesBack(v: nat, width: nat)
    requires v < Pow256(width)
    ensures BigEndian(IntBytes(v, width)) == v
    decreases width
  {
    if width > 0 {
      var bs := IntBytes(v, width);
      assert bs[..|bs| - 1] == IntBytes(v / 0x100, width - 1);
      IntBytesBack(v / 0x100, width - 1);
    }
  }

  // ----- one integer -----

  function CheckSize(p: Parser, size: nat): Parser {
    if size > |p.buffer| then p.(error := PacketTooShort) else p
  }

  /** The next `width` bytes as an integer; zero, consuming nothing, once there is an error. */
  function ParseInt(p: Parser, width: nat): (nat, Parser) {
    var p1 := CheckSize(p, width);
    if p1.error != NoError then (0, p1)
    else (BigEndian(p1.buffer[..width]), p1.(buffer := p1.buffer[width..]))
  }

  function RemovePrefix(p: Parser, n: nat): Parser {
    var p1 := CheckSize(p, n);
    if p1.error != NoError then p1 else p1.(buffer := p1.buffer[n..])
  }

  // ----- rows of integers -----

  /** A value and the number of bytes it takes. */
  datatype Field = Field(value: nat, width: nat)

  function Encode(fs: seq<Field>): seq<byte> {
    if fs == [] then [] else Encode(fs[..|fs| - 1]) + IntBytes(fs[|fs| - 1].value, fs[|fs| - 1].width)
  }

  /** Parse integers of the given widths one after the other. */
  function Decode(p: Parser, widths: seq<nat>): (r: (seq<nat>, Parser))
    ensures |r.0| == |widths|
  {
    if widths == [] then ([], p)
    else
      var (vs, p1) := Decode(p, widths[..|widths| - 1]);
      var (v, p2) := ParseInt(p1, widths[|widths| - 1]);
      (vs + [v], p2)
  }

  function Values(fs: seq<Field>): seq<nat> { seq(|fs|, i requires 0 <= i < |fs| => fs[i].value) }
  function Widths(fs: seq<Field>): seq<nat> { seq(|fs|, i requires 0 <= i < |fs| => fs[i].width) }

  function Total(widths: seq<nat>): nat {
    if widths == [] then 0 else Total(widths[..|widths| - 1]) + widths[|widths| - 1]
  }

  predicate Fits(f: Field) { f.value < Pow256(f.width) }

  lemma DecodeMore(p: Parser, widths: seq<nat>, width: nat)
    ensures var (vs, p1) := Decode(p, widths);
            var (v, p2) := ParseInt(p1, width);
            Decode(p, widths + [width]) == (vs + [v], p2)
  {
    assert (widths + [width])[..|widths|] == widths;
  }

  lemma EncodeMore(fs: seq<Field>, f: Field)
    ensures Encode(fs + [f]) == Encode(fs) + IntBytes(f.value, f.width)
  {
    assert (fs + [f])[..|fs|] == fs;
  }

  lemma ParseIntBack(f: Field, tail: seq<byte>)
    requires Fits(f)
    ensures ParseInt(Parser(IntBytes(f.value, f.width) + tail, NoError), f.width) == (f.value, Parser(tail, NoError))
  {
    var bs := IntBytes(f.value, f.width);
    assert (bs + tail)[..f.width] == bs && (bs + tail)[f.width..] == tail;
    IntBytesBack(f.value, f.width);
  }

  /** Parsing undoes unparsing, and leaves what follows. */
  lemma {:induction false} DecodeEncode(fs: seq<Field>, tail: seq<byte>)
    requires forall f :: f in fs ==> Fits(f)
    ensures Decode(Parser(Encode(fs) + tail, NoError), Widths(fs)) == (Values(fs), Parser(tail, NoError))
    decreases |fs|
  {
    if fs == [] {
      assert Encode(fs) + tail == tail;
    } else {
      var front, f := fs[..|fs| - 1], fs[|fs| - 1];
      var rest := IntBytes(f.value, f.width) + tail;
      assert Encode(fs) + tail == Encode(front) + rest;
      DecodeEncode(front, rest);
      ParseIntBack(f, tail);
      assert Widths(fs)[..|fs| - 1] == Widths(front) && Values(fs) == Values(front) + [f.value];
    }
  }

  lemma {:induction false} DecodeBound(p: Parser, widths: seq<nat>, i: nat)
    requires i < |widths|
    ensures Decode(p, widths).0[i] < Pow256(widths[i])
    decreases |widths|
  {
    var front := widths[..|widths| - 1];
    var (vs, p1) := Decode(p, front);
    if i < |front| {
      DecodeBound(p, front, i);
    } else if ParseInt(p1, widths[i]).1.error == NoError {
      BigEndianBound(p1.buffer[..widths[i]]);
    } else {
      BigEndianBound(seq(widths[i], _ => 0));
    }
  }

  /** A row of integers parses exactly when the buffer is long enough for all of it. */
  lemma {:induction false} DecodeFailsIff(buffer: seq<byte>, widths: seq<nat>)
    ensures var p := Decode(Parser(buffer, NoError), widths).1;
            if Total(widths) <= |buffer| then p == Parser(buffer[Total(widths)..], NoError)
            else p.error == PacketTooShort
    decreases |widths|
  {
    if widths != [] {
      DecodeFailsIff(buffer, widths[..|widths| - 1]);
    }
  }

  lemma {:induction false} EncodeLength(fs: seq<Field>)
    ensures |Encode(fs)| == Total(Widths(fs))
    decreases |fs|
  {
    if fs != [] {
      EncodeLength(fs[..|fs| - 1]);
      assert Widths(fs)[..|fs| - 1] == Widths(fs[..|fs| - 1]);
    }
  }

  lemma {:induction false} EncodeConcat(a: seq<Field>, b: seq<Field>)
    ensures Encode(a + b) == Encode(a) + Encode(b)
    decreases |b|
  {
    if b == [] {
      assert a + b == a;
    } else {
      assert (a + b)[..|a + b| - 1] == a + b[..|b| - 1];
      EncodeConcat(a, b[..|b| - 1]);
    }
  }

  function Zeros(n: nat): (bs: seq<byte>)
    ensures |bs| == n
  {
    seq(n, _ => 0)
  }

  // ----- the bytes themselves -----

  /** The bytes of an integer, one by one, most significant first. */
  lemma OneByte(v: nat)
    requires v < 0x100
    ensures IntBytes(v, 1) == [v]
  {
    assert IntBytes(v / 0x100, 0) == [];
  }

  lemma TwoBytes(v: nat)
    requires v < 0x1_0000
    ensures IntBytes(v, 2) == [v / 0x100, v % 0x100]
  {
    OneByte(v / 0x100);
  }

  lemma FourBytes(v: nat)
    requires v < 0x1_0000_0000
    ensures IntBytes(v, 4) == [v / 0x100_0000, v / 0x1_0000 % 0x100, v / 0x100 % 0x100, v % 0x100]
  {
    var b, c := v / 0x100, v / 0x1_0000;
    assert b / 0x100 == c && c / 0x100 == v / 0x100_0000;
    TwoBytes(c);
    assert IntBytes(b, 3) == IntBytes(c, 2) + [b % 0x100];
    assert IntBytes(v, 4) == IntBytes(b, 3) + [v % 0x100];
  }

  /** Field number `k` takes its bytes right after those of the fields before it. */
  lemma FieldIsAt(fs: seq<Field>, k: nat, at: nat)
    requires k < |fs| && at == Total(Widths(fs)[..k])
    ensures at + fs[k].width <= |Encode(fs)|
    ensures Encode(fs)[at..at + fs[k].width] == IntBytes(fs[k].value, fs[k].width)
  {
    var before, rest := fs[..k], fs[k + 1..];
    assert fs == (before + [fs[k]]) + rest;
    EncodeConcat(before + [fs[k]], rest);
    EncodeMore(before, fs[k]);
    EncodeLength(before);
    assert Widths(before) == Widths(fs)[..k];
  }

  /** Integer number `k` of a row is read from the bytes at its place. */
  lemma {:induction false} DecodedAt(buffer: seq<byte>, widths: seq<nat>, k: nat, at: nat)
    requires Total(widths) <= |buffer| && k < |widths| && at == Total(widths[..k])
    ensures at + widths[k] <= |buffer|
    ensures Decode(Parser(buffer, NoError), widths).0[k] == BigEndian(buffer[at..at + widths[k]])
    decreases |widths|
  {
    var front := widths[..|widths| - 1];
    DecodeFailsIff(buffer, front);
    if k < |front| {
      assert front[..k] == widths[..k];
      DecodedAt(buffer, front, k, at);
    } else {
      assert front == widths[..k];
      assert buffer[at..][..widths[k]] == buffer[at..at + widths[k]];
    }
  }

  /** The big-endian integers of two and of four bytes at a place. */
  function Two(b: seq<byte>, at: nat): nat
    requires at + 2 <= |b|
  {
    0x100 * (b[at] as int) + b[at + 1] as int
  }

  function Four(b: seq<byte>, at: nat): nat
    requires at + 4 <= |b|
  {
    0x1_0000 * Two(b, at) + Two(b, at + 2)
  }

  lemma OneByteValue(b: seq<byte>, at: nat)
    requires at + 1 <= |b|
    ensures BigEndian(b[at..at + 1]) == b[at]
  {
    assert b[at..at + 1][..0] == [];
  }

  lemma TwoByteValue(b: seq<byte>, at: nat)
    requires at + 2 <= |b|
    ensures BigEndian(b[at..at + 2]) == Two(b, at)
  {
    OneByteValue(b, at);
    assert b[at..at + 2][..1] == b[at..at + 1];
  }

  lemma FourByteValue(b: seq<byte>, at: nat)
    requires at + 4 <= |b|
    ensures BigEndian(b[at..at + 4]) == Four(b, at)
  {
    TwoByteValue(b, at);
    assert b[at..at + 3][..2] == b[at..at + 2];
    assert b[at..at + 4][..3] == b[at..at + 3];
    assert BigEndian(b[at..at + 3]) == BigEndian(b[at..at + 2]) * 0x100 + b[at + 2];
  }

  lemma FirstOfSlice(b: seq<byte>, at: nat, v: byte)
    requires at < |b| && b[at..at + 1] == [v]
    ensures b[at] == v
  {
    assert b[at..at + 1][0] == b[at];
  }

  // ----- the parser and unparser as code -----

  class NetParser {
    var buffer: seq<byte>
    var error: ParseResult

    function State(): Parser reads this { Parser(buffer, error) }

    constructor (buffer: seq<byte>)
      ensures State() == Parser(buffer, NoError)
    {
      this.buffer, error := buffer, NoError;
    }

    /** Read an unsigned integer of `width` bytes. */
    method NextInt(width: nat) returns (ret: nat)
      modifies this
      ensures (ret, State()) == ParseInt(old(State()), width)
    {
      if width > |buffer| {
        error := PacketTooShort;
      }
      if error != NoError {
        return 0;
      }
      ret := 0;
      for i := 0 to width
        invariant ret == BigEndian(buffer[..i])
      {
        assert buffer[..i + 1][..i] == buffer[..i];
        ret := ret * 0x100 + buffer[i];
      }
      buffer := buffer[width..];
    }

    method DropPrefix(n: nat)
      modifies this
      ensures State() == RemovePrefix(old(State()), n)
    {
      if n > |buffer| {
        error := PacketTooShort;
      }
      if error != NoError {
        return;
      }
      buffer := buffer[n..];
    }
  }

  /** `val` shifted down by whole bytes. */
  function ShiftBytes(v: nat, n: nat): nat { if n == 0 then v else ShiftBytes(v / 0x100, n - 1) }

  lemma {:induction false} IntBytesAt(v: nat, width: nat, i: nat)
    requires i < width
    ensures IntBytes(v, width)[i] == ShiftBytes(v, width - 1 - i) % 0x100
    decreases width
  {
    if i < width - 1 {
      IntBytesAt(v / 0x100, width - 1, i);
    }
  }

  /** Append `width` bytes of `v` to `s`, the most significant one first. */
  method UnparseInt(s: seq<byte>, v: nat, width: nat) returns (r: seq<byte>)
    ensures r == s + IntBytes(v, width)
  {
    r := s;
    for i := 0 to width
      invariant r == s + IntBytes(v, width)[..i]
    {
      IntBytesAt(v, width, i);
      r := r + [ShiftBytes(v, width - i - 1) % 0x100];
    }
  }
}
