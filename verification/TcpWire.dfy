/** The wire form of TCP headers and segments. */
module TcpWire {
  import opened Numbers
  import opened Checksums
  import opened NetParsers
  import opened TcpSegments

  function Bit(b: bool, weight: nat): nat { if b then weight else 0 }
  predicate HasBit(v: nat, weight: nat) requires weight > 0 { v / weight % 2 == 1 }

  function FlagByte(h: TcpHeader): nat {
    Bit(h.urg, 0x20) + Bit(h.ack, 0x10) + Bit(h.psh, 0x08) + Bit(h.rst, 0x04) + Bit(h.syn, 0x02) + Bit(h.fin, 0x01)
  }

  /** The fields before the checksum, and the one after it. */
  function FrontFields(h: TcpHeader): seq<Field> {
    [Field(h.sport, 2), Field(h.dport, 2), Field(h.seqno, 4), Field(h.ackno, 4),
     Field(h.doff * 0x10 % 0x100, 1), Field(FlagByte(h), 1), Field(h.win, 2)]
  }

  function Fields(h: TcpHeader): seq<Field> {
    FrontFields(h) + [Field(h.cksum, 2), Field(h.uptr, 2)]
  }

  const WIDTHS: seq<nat> := [2, 2, 4, 4, 1, 1, 2, 2, 2]

  /** The bytes of a header, padded to the advertised length; a data offset below the minimum
      is refused. */
  function SerializeHeader(h: TcpHeader): Option<seq<byte>> {
    if h.doff < 5 then None else Some(Encode(Fields(h)) + Zeros(4 * h.doff - HEADER_LENGTH))
  }

  lemma SmallPowers()
    ensures Pow256(1) == 0x100 && Pow256(2) == 0x1_0000 && Pow256(4) == 0x1_0000_0000
  {
    assert Pow256(3) == 0x100_0000;
  }

  function HeaderOf(v: seq<nat>): TcpHeader
    requires |v| == 9
    requires v[0] < TWO16 && v[1] < TWO16 && v[2] < TWO32 && v[3] < TWO32 && v[4] < 0x100
    requires v[6] < TWO16 && v[7] < TWO16 && v[8] < TWO16
  {
    TcpHeader(v[0], v[1], v[2], v[3], v[4] / 0x10,
              HasBit(v[5], 0x20), HasBit(v[5], 0x10), HasBit(v[5], 0x08),
              HasBit(v[5], 0x04), HasBit(v[5], 0x02), HasBit(v[5], 0x01), v[6], v[7], v[8])
  }

  lemma DecodedFits(p: Parser)
    ensures var v := Decode(p, WIDTHS).0;
            && v[0] < TWO16 && v[1] < TWO16 && v[2] < TWO32 && v[3] < TWO32 && v[4] < 0x100
            && v[6] < TWO16 && v[7] < TWO16 && v[8] < TWO16
  {
    SmallPowers();
    forall i | 0 <= i < 9 ensures Decode(p, WIDTHS).0[i] < Pow256(WIDTHS[i]) {
      DecodeBound(p, WIDTHS, i);
    }
  }

  /** The fields read one after the other, and what is left. */
  function ReadFields(p: Parser): (TcpHeader, Parser) {
    DecodedFits(p);
    (HeaderOf(Decode(p, WIDTHS).0), Decode(p, WIDTHS).1)
  }

  datatype ParsedHeader = ParsedHeader(header: TcpHeader, result: ParseResult, rest: Parser)

  function ParseHeader(p: Parser): ParsedHeader {
    var (h, p1) := ReadFields(p);
    if h.doff < 5 then ParsedHeader(h, HeaderTooShort, p1)
    else
      var p2 := RemovePrefix(p1, h.doff * 4 - HEADER_LENGTH);
      ParsedHeader(h, p2.error, p2)
  }

  // ----- headers round trip -----

  lemma FlagsBack(h: TcpHeader)
    ensures var f := FlagByte(h);
            && f < 0x40
            && HasBit(f, 0x20) == h.urg && HasBit(f, 0x10) == h.ack && HasBit(f, 0x08) == h.psh
            && HasBit(f, 0x04) == h.rst && HasBit(f, 0x02) == h.syn && HasBit(f, 0x01) == h.fin
  {
  }

  lemma FieldsFit(h: TcpHeader)
    ensures forall f :: f in Fields(h) ==> Fits(f)
    ensures Widths(Fields(h)) == WIDTHS
  {
    SmallPowers();
    FlagsBack(h);
  }

  /** Reading the fields of a header undoes writing them and leaves what follows. */
  lemma FieldsBack(h: TcpHeader, tail: seq<byte>)
    requires h.doff <= 15
    ensures ReadFields(Parser(Encode(Fields(h)) + tail, NoError)) == (h, Parser(tail, NoError))
  {
    var fs := Fields(h);
    FieldsFit(h);
    DecodeEncode(fs, tail);
    DecodedFits(Parser(Encode(fs) + tail, NoError));
    FlagsBack(h);
    assert HeaderOf(Values(fs)) == h;
  }

  /** Parsing a serialized header gives it back and leaves what follows it. */
  lemma HeaderRoundTrip(h: TcpHeader, tail: seq<byte>)
    requires 5 <= h.doff <= 15
    ensures ParseHeader(Parser(SerializeHeader(h).value + tail, NoError)) ==
              ParsedHeader(h, NoError, Parser(tail, NoError))
  {
    var pad := Zeros(4 * h.doff - HEADER_LENGTH);
    FieldsBack(h, pad + tail);
    assert SerializeHeader(h).value + tail == Encode(Fields(h)) + (pad + tail);
    assert (pad + tail)[|pad|..] == tail;
  }

  // ----- segments -----

  function SerializeSegment(seg: TcpSegment, pseudo: u32): Option<seq<byte>> {
    var zeroed := SerializeHeader(seg.header.(cksum := 0));
    if zeroed.None? then None
    else
      var check := AddBytes(AddBytes(Checksum(pseudo, false), zeroed.value), seg.payload);
      Some(SerializeHeader(seg.header.(cksum := ValueOf(check))).value + seg.payload)
  }

  datatype ParsedSegment = ParsedSegment(segment: TcpSegment, result: ParseResult)

  const EMPTY_SEGMENT := TcpSegment(EMPTY_HEADER, [])

  /** Parse into a fresh segment. What the header's own parse returned is dropped: only the
      parser's error counts. */
  function ParseSegment(buffer: seq<byte>, pseudo: u32): ParsedSegment {
    if ValueOf(AddBytes(Checksum(pseudo, false), buffer)) != 0 then ParsedSegment(EMPTY_SEGMENT, BadChecksum)
    else
      var p := ParseHeader(Parser(buffer, NoError));
      ParsedSegment(TcpSegment(p.header, p.rest.buffer), p.rest.error)
  }

  // ----- the stored checksum verifies -----

  function BackFields(h: TcpHeader): seq<Field> { [Field(h.uptr, 2)] }

  lemma FieldsAround(h: TcpHeader)
    ensures Encode(Fields(h)) == Encode(FrontFields(h)) + IntBytes(h.cksum, 2) + Encode(BackFields(h))
    ensures |Encode(FrontFields(h))| == 16 && |Encode(Fields(h))| == HEADER_LENGTH
  {
    var front, mid, back := FrontFields(h), [Field(h.cksum, 2)], BackFields(h);
    assert Fields(h) == (front + mid) + back;
    EncodeConcat(front + mid, back);
    EncodeMore(front, mid[0]);
    EncodeLength(front);
    FieldsFit(h);
    assert Widths(front) == [2, 2, 4, 4, 1, 1, 2];
    TotalOfSeven();
    EncodeLength(Fields(h));
    TotalWidths();
  }

  /** The header's bytes before and after the checksum do not depend on it. */
  lemma HeaderAround(h: TcpHeader)
    requires h.doff >= 5
    ensures SerializeHeader(h).value ==
              Encode(FrontFields(h)) + IntBytes(h.cksum, 2) + (Encode(BackFields(h)) + Zeros(4 * h.doff - HEADER_LENGTH))
    ensures |Encode(FrontFields(h))| == 16
    ensures |SerializeHeader(h).value| == 4 * h.doff
  {
    FieldsAround(h);
  }

  lemma TotalOfSeven()
    ensures Total([2, 2, 4, 4, 1, 1, 2]) == 16
  {
    assert [2, 2, 4, 4, 1, 1, 2][..6] == [2, 2, 4, 4, 1, 1];
    assert [2, 2, 4, 4, 1, 1][..5] == [2, 2, 4, 4, 1];
    assert [2, 2, 4, 4, 1][..4] == [2, 2, 4, 4];
    assert [2, 2, 4, 4][..3] == [2, 2, 4];
    assert [2, 2, 4][..2] == [2, 2];
    assert [2, 2][..1] == [2];
  }

  /** A checksum field at an even place adds its own value to the sum. */
  lemma SumAround(a: seq<byte>, c: u16, b: seq<byte>)
    requires |a| % 2 == 0
    ensures BigSum(false, a + IntBytes(c, 2) + b) == BigSum(false, a + IntBytes(0, 2) + b) + c
  {
    BigSumConcat(false, a, IntBytes(c, 2));
    BigSumConcat(false, a, IntBytes(0, 2));
    BigSumConcat(false, a + IntBytes(c, 2), b);
    BigSumConcat(false, a + IntBytes(0, 2), b);
    WordSum(c);
    WordSum(0);
  }

  lemma WordSum(c: u16)
    ensures BigSum(false, IntBytes(c, 2)) == c
  {
    var bs := IntBytes(c, 2);
    assert IntBytes(c / 0x100, 1) == [c / 0x100];
    assert bs == [c / 0x100, c % 0x100];
    assert bs[..1] == [c / 0x100] && bs[..1][..0] == [];
    assert BigSum(false, bs[..1]) == c / 0x100 * 0x100;
  }

  /** Bytes with a zero checksum field, and the sum they leave to be stored there. */
  lemma StoredVerifies(pseudo: u32, a: seq<byte>, b: seq<byte>, c: u16)
    requires |a| % 2 == 0 && pseudo + BigSum(false, a + IntBytes(0, 2) + b) + 0xffff < TWO32
    requires c == ValueOf(AddBytes(Checksum(pseudo, false), a + IntBytes(0, 2) + b))
    ensures ValueOf(AddBytes(Checksum(pseudo, false), a + IntBytes(c, 2) + b)) == 0
  {
    var zero, full := a + IntBytes(0, 2) + b, a + IntBytes(c, 2) + b;
    SumAround(a, c, b);
    AddIsSum(Checksum(pseudo, false), zero);
    AddIsSum(Checksum(pseudo, false), full);
    StoredChecksumVerifies(pseudo + BigSum(false, zero), false != (|zero| % 2 == 1));
  }

  /** A bound on pseudo-header sums far above any real one, which is less than 2^19. */
  const MAX_PSEUDO: nat := 0x7fff_0000

  /** The sum of a datagram's words cannot overflow. */
  lemma DatagramSumFits(pseudo: u32, data: seq<byte>)
    requires |data| <= 0xffff && pseudo <= MAX_PSEUDO
    ensures pseudo + BigSum(false, data) + 0xffff < TWO32
  {
    BigSumBound(false, data);
  }

  /** A segment with a valid data offset that fits a datagram. */
  predicate Carryable(seg: TcpSegment, pseudo: u32) {
    5 <= seg.header.doff <= 15 && 4 * seg.header.doff + |seg.payload| <= 0xffff && pseudo <= MAX_PSEUDO
  }

  /** Parsing `bytes` gives no error, the same header with its checksum filled in, and the same
      payload. */
  predicate ComesBack(seg: TcpSegment, bytes: seq<byte>, pseudo: u32) {
    var back := ParseSegment(bytes, pseudo);
    && back.result == NoError
    && back.segment == seg.(header := seg.header.(cksum := back.segment.header.cksum))
  }

  /** The serialized bytes of a segment give it back. */
  lemma SegmentRoundTrip(seg: TcpSegment, pseudo: u32)
    requires Carryable(seg, pseudo)
    ensures SerializeSegment(seg, pseudo).Some?
    ensures var bytes := SerializeSegment(seg, pseudo).value;
            ComesBack(seg, bytes, pseudo) && |bytes| == 4 * seg.header.doff + |seg.payload|
  {
    var h0 := seg.header.(cksum := 0);
    var zeroed := SerializeHeader(h0).value;
    AddConcat(Checksum(pseudo, false), zeroed, seg.payload);
    var c := ValueOf(AddBytes(Checksum(pseudo, false), zeroed + seg.payload));
    var h := seg.header.(cksum := c);
    var bytes := SerializeHeader(h).value + seg.payload;
    SerializedVerifies(h, seg.payload, pseudo);
    HeaderRoundTrip(h, seg.payload);
    HeaderAround(h);
    assert SerializeSegment(seg, pseudo) == Some(bytes);
  }

  lemma SerializedVerifies(h: TcpHeader, payload: seq<byte>, pseudo: u32)
    requires h.doff >= 5 && 4 * h.doff + |payload| <= 0xffff && pseudo <= MAX_PSEUDO
    requires var zeroed := SerializeHeader(h.(cksum := 0)).value;
             h.cksum == ValueOf(AddBytes(Checksum(pseudo, false), zeroed + payload))
    ensures ValueOf(AddBytes(Checksum(pseudo, false), SerializeHeader(h).value + payload)) == 0
  {
    var zeroed := SerializeHeader(h.(cksum := 0)).value + payload;
    var a, b := BeforeChecksum(h), AfterChecksum(h, payload);
    SegmentAround(h, payload);
    ZeroedAround(h, payload);
    DatagramSumFits(pseudo, zeroed);
    assert zeroed == a + IntBytes(0, 2) + b;
    StoredVerifies(pseudo, a, b, h.cksum);
  }

  lemma ZeroedAround(h: TcpHeader, payload: seq<byte>)
    requires h.doff >= 5
    ensures var zeroed := SerializeHeader(h.(cksum := 0)).value + payload;
            && zeroed == BeforeChecksum(h) + IntBytes(0, 2) + AfterChecksum(h, payload)
            && |zeroed| == 4 * h.doff + |payload|
  {
    var h0 := h.(cksum := 0);
    SegmentAround(h0, payload);
    HeaderAround(h0);
    assert FrontFields(h0) == FrontFields(h) && BackFields(h0) == BackFields(h);
  }

  function BeforeChecksum(h: TcpHeader): seq<byte> { Encode(FrontFields(h)) }

  function AfterChecksum(h: TcpHeader, payload: seq<byte>): seq<byte>
    requires h.doff >= 5
  {
    Encode(BackFields(h)) + Zeros(4 * h.doff - HEADER_LENGTH) + payload
  }

  lemma SegmentAround(h: TcpHeader, payload: seq<byte>)
    requires h.doff >= 5
    ensures SerializeHeader(h).value + payload ==
              BeforeChecksum(h) + IntBytes(h.cksum, 2) + AfterChecksum(h, payload)
    ensures |BeforeChecksum(h)| == 16
  {
    HeaderAround(h);
  }

  // ----- exactly what is accepted -----

  lemma TotalWidths()
    ensures Total(WIDTHS) == HEADER_LENGTH
  {
    TotalOfSeven();
    assert WIDTHS[..8] == [2, 2, 4, 4, 1, 1, 2, 2];
    assert [2, 2, 4, 4, 1, 1, 2, 2][..7] == [2, 2, 4, 4, 1, 1, 2];
  }

  lemma HeaderFailsIff(buffer: seq<byte>)
    ensures var p := ParseHeader(Parser(buffer, NoError));
            p.rest.error == NoError <==>
              |buffer| >= HEADER_LENGTH && (p.header.doff >= 5 ==> |buffer| >= 4 * p.header.doff)
  {
    DecodeFailsIff(buffer, WIDTHS);
    TotalWidths();
  }

  /** A segment is accepted exactly when its checksum verifies, a whole header is there, and
      the data offset, if it is not below the minimum, is within the segment. A data offset
      below the minimum is not refused. */
  lemma AcceptsIff(buffer: seq<byte>, pseudo: u32)
    ensures var doff := ParseHeader(Parser(buffer, NoError)).header.doff;
            ParseSegment(buffer, pseudo).result == NoError <==>
              && ValueOf(AddBytes(Checksum(pseudo, false), buffer)) == 0
              && |buffer| >= HEADER_LENGTH
              && (doff >= 5 ==> |buffer| >= 4 * doff)
  {
    HeaderFailsIff(buffer);
  }

  /** The twenty bytes of any header, its checksum filled in so that it verifies. */
  function Filled(h: TcpHeader, pseudo: u32): TcpHeader {
    h.(cksum := ValueOf(AddBytes(Checksum(pseudo, false), Encode(Fields(h.(cksum := 0))))))
  }

  lemma FieldsWith(h: TcpHeader, c: u16)
    ensures Encode(Fields(h.(cksum := c))) == Encode(FrontFields(h)) + IntBytes(c, 2) + Encode(BackFields(h))
    ensures |Encode(FrontFields(h))| == 16 && |Encode(Fields(h.(cksum := c)))| == HEADER_LENGTH
  {
    var h1 := h.(cksum := c);
    FieldsAround(h1);
    assert FrontFields(h1) == FrontFields(h) && BackFields(h1) == BackFields(h);
  }

  lemma FilledVerifies(h: TcpHeader, pseudo: u32)
    requires pseudo <= MAX_PSEUDO
    ensures ValueOf(AddBytes(Checksum(pseudo, false), Encode(Fields(Filled(h, pseudo))))) == 0
  {
    var a, b, c := Encode(FrontFields(h)), Encode(BackFields(h)), Filled(h, pseudo).cksum;
    FieldsWith(h, 0);
    FieldsWith(h, c);
    DatagramSumFits(pseudo, a + IntBytes(0, 2) + b);
    StoredVerifies(pseudo, a, b, c);
  }

  /** So for every data offset below the minimum there are segments that have it, that the
      header's parse reports, and that are accepted. */
  lemma ShortOffsetIsAccepted(h: TcpHeader, pseudo: u32)
    requires h.doff < 5 && pseudo <= MAX_PSEUDO
    ensures var bytes := Encode(Fields(Filled(h, pseudo)));
            && ParseHeader(Parser(bytes, NoError)).result == HeaderTooShort
            && ParseSegment(bytes, pseudo) == ParsedSegment(TcpSegment(Filled(h, pseudo), []), NoError)
  {
    var h1 := Filled(h, pseudo);
    FilledVerifies(h, pseudo);
    FieldsBack(h1, []);
    assert Encode(Fields(h1)) + [] == Encode(Fields(h1));
  }

  // ----- the layout of a header -----

  /** Where each field starts. */
  const PLACES: seq<nat> := [0, 2, 4, 8, 12, 13, 14, 16, 18]

  lemma {:induction false} PlaceIs(k: nat)
    requires k < 9
    ensures Total(WIDTHS[..k]) == PLACES[k]
  {
    if k > 0 {
      PlaceIs(k - 1);
      assert WIDTHS[..k][..k - 1] == WIDTHS[..k - 1];
    }
  }

  lemma FieldBytes(h: TcpHeader, k: nat, at: nat, f: Field)
    requires 5 <= h.doff <= 15 && k < 9 && at == PLACES[k] && f == Fields(h)[k]
    ensures var b := SerializeHeader(h).value;
            |b| == 4 * h.doff && at + f.width <= 20 && b[at..at + f.width] == IntBytes(f.value, f.width)
  {
    var b, all := SerializeHeader(h).value, Encode(Fields(h));
    FieldsFit(h);
    FieldsAround(h);
    PlaceIs(k);
    FieldIsAt(Fields(h), k, at);
    assert b[..20] == all;
    assert b[at..at + f.width] == b[..20][at..at + f.width];
  }

  lemma OneByteField(h: TcpHeader, k: nat, at: nat, v: byte)
    requires 5 <= h.doff <= 15 && k < 9 && at == PLACES[k] && Fields(h)[k] == Field(v, 1)
    ensures var b := SerializeHeader(h).value; at < |b| && b[at] == v
  {
    FieldBytes(h, k, at, Field(v, 1));
    OneByte(v);
    FirstOfSlice(SerializeHeader(h).value, at, v);
  }

  lemma TwoByteField(h: TcpHeader, k: nat, at: nat, v: u16)
    requires 5 <= h.doff <= 15 && k < 9 && at == PLACES[k] && Fields(h)[k] == Field(v, 2)
    ensures var b := SerializeHeader(h).value; at + 2 <= |b| && b[at..at + 2] == [v / 0x100, v % 0x100]
  {
    FieldBytes(h, k, at, Field(v, 2));
    TwoBytes(v);
  }

  lemma FourByteField(h: TcpHeader, k: nat, at: nat, v: u32)
    requires 5 <= h.doff <= 15 && k < 9 && at == PLACES[k] && Fields(h)[k] == Field(v, 4)
    ensures var b := SerializeHeader(h).value;
            at + 4 <= |b| && b[at..at + 4] == [v / 0x100_0000, v / 0x1_0000 % 0x100, v / 0x100 % 0x100, v % 0x100]
  {
    FieldBytes(h, k, at, Field(v, 4));
    FourBytes(v);
  }

  /** Where each field is (section 3.1 of RFC 793): the ports, the two numbers, the data offset
      in the upper half of a byte, the flags from URG down to FIN in the next, the window, the
      checksum and the urgent pointer, each most significant byte first. */
  lemma HeaderLayout(h: TcpHeader)
    requires 5 <= h.doff <= 15
    ensures var b := SerializeHeader(h).value;
            && |b| == 4 * h.doff
            && b[0..2] == [h.sport / 0x100, h.sport % 0x100] && b[2..4] == [h.dport / 0x100, h.dport % 0x100]
            && b[4..8] == [h.seqno / 0x100_0000, h.seqno / 0x1_0000 % 0x100, h.seqno / 0x100 % 0x100, h.seqno % 0x100]
            && b[8..12] == [h.ackno / 0x100_0000, h.ackno / 0x1_0000 % 0x100, h.ackno / 0x100 % 0x100, h.ackno % 0x100]
            && b[12] == 16 * h.doff
            && b[13] == (if h.urg then 32 else 0) + (if h.ack then 16 else 0) + (if h.psh then 8 else 0) +
                 (if h.rst then 4 else 0) + (if h.syn then 2 else 0) + (if h.fin then 1 else 0)
            && b[14..16] == [h.win / 0x100, h.win % 0x100] && b[16..18] == [h.cksum / 0x100, h.cksum % 0x100]
            && b[18..20] == [h.uptr / 0x100, h.uptr % 0x100]
  {
    HeaderAround(h);
    FlagsBack(h);
    TwoByteField(h, 0, 0, h.sport);
    TwoByteField(h, 1, 2, h.dport);
    FourByteField(h, 2, 4, h.seqno);
    FourByteField(h, 3, 8, h.ackno);
    OneByteField(h, 4, 12, h.doff * 0x10 % 0x100);
    OneByteField(h, 5, 13, FlagByte(h));
    TwoByteField(h, 6, 14, h.win);
    TwoByteField(h, 7, 16, h.cksum);
    TwoByteField(h, 8, 18, h.uptr);
  }

  /** The value at field number `k` of any twenty bytes. */
  lemma ParsedAt(b: seq<byte>, k: nat, at: nat)
    requires |b| >= 20 && k < 9 && at == PLACES[k]
    ensures at + WIDTHS[k] <= 20
    ensures Decode(Parser(b, NoError), WIDTHS).0[k] == BigEndian(b[at..at + WIDTHS[k]])
  {
    TotalWidths();
    PlaceIs(k);
    DecodedAt(b, WIDTHS, k, at);
  }

  lemma ParsedTwo(b: seq<byte>, k: nat, at: nat)
    requires |b| >= 20 && k < 9 && at == PLACES[k] && WIDTHS[k] == 2
    ensures at + 2 <= 20 && Decode(Parser(b, NoError), WIDTHS).0[k] == Two(b, at)
  {
    ParsedAt(b, k, at);
    TwoByteValue(b, at);
  }

  lemma ParsedFour(b: seq<byte>, k: nat, at: nat)
    requires |b| >= 20 && k < 9 && at == PLACES[k] && WIDTHS[k] == 4
    ensures at + 4 <= 20
    ensures Decode(Parser(b, NoError), WIDTHS).0[k] == Four(b, at)
  {
    ParsedAt(b, k, at);
    FourByteValue(b, at);
  }

  lemma ParsedOne(b: seq<byte>, k: nat, at: nat)
    requires |b| >= 20 && k < 9 && at == PLACES[k] && WIDTHS[k] == 1
    ensures at < 20 && Decode(Parser(b, NoError), WIDTHS).0[k] == b[at]
  {
    ParsedAt(b, k, at);
    OneByteValue(b, at);
  }

  /** What is read from any twenty bytes, whoever wrote them: each field from its own place, the
      low bits beside the data offset and the upper two beside the flags ignored. */
  lemma ParseLayout(b: seq<byte>)
    requires |b| >= 20
    ensures var h := ParseHeader(Parser(b, NoError)).header;
            && h.sport == Two(b, 0) && h.dport == Two(b, 2)
            && h.seqno == Four(b, 4)
            && h.ackno == Four(b, 8)
            && h.doff == b[12] / 16
            && (h.urg <==> b[13] / 32 % 2 == 1) && (h.ack <==> b[13] / 16 % 2 == 1) && (h.psh <==> b[13] / 8 % 2 == 1)
            && (h.rst <==> b[13] / 4 % 2 == 1) && (h.syn <==> b[13] / 2 % 2 == 1) && (h.fin <==> b[13] % 2 == 1)
            && h.win == Two(b, 14) && h.cksum == Two(b, 16) && h.uptr == Two(b, 18)
  {
    DecodedFits(Parser(b, NoError));
    ParsedTwo(b, 0, 0);
    ParsedTwo(b, 1, 2);
    ParsedFour(b, 2, 4);
    ParsedFour(b, 3, 8);
    ParsedOne(b, 4, 12);
    ParsedOne(b, 5, 13);
    ParsedTwo(b, 6, 14);
    ParsedTwo(b, 7, 16);
    ParsedTwo(b, 8, 18);
  }

  /** What the parse of a header reports of twenty bytes or more: a length below the minimum, or
      more than there is. */
  lemma HeaderResultIs(b: seq<byte>)
    requires |b| >= 20
    ensures ParseHeader(Parser(b, NoError)).result ==
              if b[12] / 16 < 5 then HeaderTooShort
              else if |b| < 4 * (b[12] / 16) as int then PacketTooShort
              else NoError
  {
    ParseLayout(b);
    DecodeFailsIff(b, WIDTHS);
    TotalWidths();
  }
}
