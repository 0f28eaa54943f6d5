/** The wire form of IPv4 headers and datagrams. */
module Ipv4Wire {
  import opened Numbers
  import opened Checksums
  import opened NetParsers
  import TcpWire

  /** Length of a header without options, in bytes. */
  const LENGTH: nat := 20
  const PROTO_TCP: byte := 6
  const DEFAULT_TTL: byte := 128

  datatype Ipv4Header = Ipv4Header(
    ver: byte, hlen: byte, tos: byte, len: u16, id: u16, df: bool, mf: bool, offset: u16,
    ttl: byte, proto: byte, cksum: u16, src: u32, dst: u32)
  {
    function PayloadLength(): u16 { (len - 4 * hlen) % TWO16 }

    /** The pseudo-header's part of the TCP checksum. */
    function PseudoChecksum(): u32 {
      src / 0x10000 + src % 0x10000 + dst / 0x10000 + dst % 0x10000 + proto + PayloadLength()
    }
  }

  const DEFAULT_HEADER := Ipv4Header(4, 5, 0, 0, 0, true, false, 0, DEFAULT_TTL, PROTO_TCP, 0, 0, 0)

  function FirstByte(h: Ipv4Header): nat { h.ver * 0x10 % 0x100 + h.hlen % 0x10 }

  function FragmentWord(h: Ipv4Header): nat {
    TcpWire.Bit(h.df, 0x4000) + TcpWire.Bit(h.mf, 0x2000) + h.offset % 0x2000
  }

  function FrontFields(h: Ipv4Header): seq<Field> {
    [Field(FirstByte(h), 1), Field(h.tos, 1), Field(h.len, 2), Field(h.id, 2), Field(FragmentWord(h), 2),
     Field(h.ttl, 1), Field(h.proto, 1)]
  }

  function BackFields(h: Ipv4Header): seq<Field> { [Field(h.src, 4), Field(h.dst, 4)] }

  function Fields(h: Ipv4Header): seq<Field> {
    FrontFields(h) + [Field(h.cksum, 2)] + BackFields(h)
  }

  const WIDTHS: seq<nat> := [1, 1, 2, 2, 2, 1, 1, 2, 4, 4]

  /** The bytes of a header; a wrong version or a length below the minimum is refused. */
  function SerializeHeader(h: Ipv4Header): Option<seq<byte>> {
    if h.ver != 4 || 4 * h.hlen < LENGTH then None
    else Some(Encode(Fields(h)) + Zeros(4 * h.hlen - LENGTH))
  }

  function HeaderOf(v: seq<nat>): Ipv4Header
    requires |v| == 10
    requires v[0] < 0x100 && v[1] < 0x100 && v[2] < TWO16 && v[3] < TWO16 && v[4] < TWO16
    requires v[5] < 0x100 && v[6] < 0x100 && v[7] < TWO16 && v[8] < TWO32 && v[9] < TWO32
  {
    Ipv4Header(v[0] / 0x10, v[0] % 0x10, v[1], v[2], v[3],
               TcpWire.HasBit(v[4], 0x4000), TcpWire.HasBit(v[4], 0x2000), v[4] % 0x2000,
               v[5], v[6], v[7], v[8], v[9])
  }

  lemma DecodedFits(p: Parser)
    ensures var v := Decode(p, WIDTHS).0;
            && v[0] < 0x100 && v[1] < 0x100 && v[2] < TWO16 && v[3] < TWO16 && v[4] < TWO16
            && v[5] < 0x100 && v[6] < 0x100 && v[7] < TWO16 && v[8] < TWO32 && v[9] < TWO32
  {
    TcpWire.SmallPowers();
    forall i | 0 <= i < 10 ensures Decode(p, WIDTHS).0[i] < Pow256(WIDTHS[i]) {
      DecodeBound(p, WIDTHS, i);
    }
  }

  /** The fields read one after the other, and what is left. */
  function ReadFields(p: Parser): (Ipv4Header, Parser) {
    DecodedFits(p);
    (HeaderOf(Decode(p, WIDTHS).0), Decode(p, WIDTHS).1)
  }

  datatype ParsedHeader = ParsedHeader(header: Ipv4Header, result: ParseResult, rest: Parser)

  /** Parse into a fresh header. */
  function ParseHeader(p: Parser): ParsedHeader {
    var size := |p.buffer|;
    if size < LENGTH then ParsedHeader(DEFAULT_HEADER, PacketTooShort, p)
    else
      var (h, p1) := ReadFields(p);
      if size < 4 * h.hlen then ParsedHeader(h, PacketTooShort, p1)
      else if h.ver != 4 then ParsedHeader(h, WrongIPVersion, p1)
      else if h.hlen < 5 then ParsedHeader(h, HeaderTooShort, p1)
      else if size != h.len then ParsedHeader(h, TruncatedPacket, p1)
      else
        var p2 := RemovePrefix(p1, h.hlen * 4 - LENGTH);
        if p2.error != NoError then ParsedHeader(h, p2.error, p2)
        else if ValueOf(AddBytes(Checksum(0, false), p.buffer[..4 * h.hlen])) != 0 then ParsedHeader(h, BadChecksum, p2)
        else ParsedHeader(h, NoError, p2)
  }

  datatype Datagram = Datagram(header: Ipv4Header, payload: seq<byte>)

  function SerializeDatagram(d: Datagram): Option<seq<byte>> {
    if |d.payload| != d.header.PayloadLength() then None
    else
      var zeroed := SerializeHeader(d.header.(cksum := 0));
      if zeroed.None? then None
      else Some(SerializeHeader(d.header.(cksum := ValueOf(AddBytes(Checksum(0, false), zeroed.value)))).value + d.payload)
  }

  datatype ParsedDatagram = ParsedDatagram(datagram: Datagram, result: ParseResult)

  /** Parse into a fresh datagram. What the header's own parse returned is dropped: only the
      payload's size and the parser's error count. */
  function ParseDatagram(buffer: seq<byte>): ParsedDatagram {
    var p := ParseHeader(Parser(buffer, NoError));
    var d := Datagram(p.header, p.rest.buffer);
    if |d.payload| != d.header.PayloadLength() then ParsedDatagram(d, PacketTooShort)
    else ParsedDatagram(d, p.rest.error)
  }

  // ----- round trips -----

  lemma FragmentBack(h: Ipv4Header)
    requires h.offset < 0x2000
    ensures var f := FragmentWord(h);
            f < TWO16 && TcpWire.HasBit(f, 0x4000) == h.df && TcpWire.HasBit(f, 0x2000) == h.mf && f % 0x2000 == h.offset
  {
  }

  lemma FirstByteFits(h: Ipv4Header)
    ensures FirstByte(h) < 0x100
  {
    var low := h.ver % 0x10;
    assert h.ver * 0x10 == low * 0x10 + h.ver / 0x10 * 0x100;
    assert h.ver * 0x10 % 0x100 == low * 0x10;
  }

  lemma FieldsFit(h: Ipv4Header)
    requires h.offset < 0x2000
    ensures forall f :: f in Fields(h) ==> Fits(f)
    ensures Widths(Fields(h)) == WIDTHS
  {
    TcpWire.SmallPowers();
    FirstByteFits(h);
    FragmentBack(h);
  }

  /** A header that fits its bit fields. */
  predicate Packable(h: Ipv4Header) {
    h.ver == 4 && 5 <= h.hlen <= 15 && h.offset < 0x2000
  }

  lemma ValuesBack(h: Ipv4Header, v: seq<nat>)
    requires Packable(h) && v == Values(Fields(h))
    ensures |v| == 10 && v[0] == FirstByte(h) && v[1] == h.tos && v[2] == h.len && v[3] == h.id && v[4] == FragmentWord(h)
    ensures v[5] == h.ttl && v[6] == h.proto && v[7] == h.cksum && v[8] == h.src && v[9] == h.dst
  {
  }

  lemma EncodedLength(h: Ipv4Header)
    requires h.offset < 0x2000
    ensures |Encode(Fields(h))| == LENGTH
  {
    EncodeLength(Fields(h));
    FieldsFit(h);
    TotalWidths();
  }

  lemma TotalWidths()
    ensures Total(WIDTHS) == LENGTH && Total([1, 1, 2, 2, 2, 1, 1]) == 10
  {
    assert WIDTHS[..9] == [1, 1, 2, 2, 2, 1, 1, 2, 4];
    assert [1, 1, 2, 2, 2, 1, 1, 2, 4][..8] == [1, 1, 2, 2, 2, 1, 1, 2];
    assert [1, 1, 2, 2, 2, 1, 1, 2][..7] == [1, 1, 2, 2, 2, 1, 1];
    assert [1, 1, 2, 2, 2, 1, 1][..6] == [1, 1, 2, 2, 2, 1];
    assert [1, 1, 2, 2, 2, 1][..5] == [1, 1, 2, 2, 2];
    assert [1, 1, 2, 2, 2][..4] == [1, 1, 2, 2];
    assert [1, 1, 2, 2][..3] == [1, 1, 2];
    assert [1, 1, 2][..2] == [1, 1];
    assert [1, 1][..1] == [1];
  }

  /** Reading the fields of a header undoes writing them and leaves what follows. */
  lemma FieldsBack(h: Ipv4Header, tail: seq<byte>)
    requires Packable(h)
    ensures ReadFields(Parser(Encode(Fields(h)) + tail, NoError)) == (h, Parser(tail, NoError))
  {
    var p := Parser(Encode(Fields(h)) + tail, NoError);
    FieldsFit(h);
    DecodeEncode(Fields(h), tail);
    DecodedFits(p);
    ValuesBack(h, Decode(p, WIDTHS).0);
    FragmentBack(h);
  }

  /** Parsing a serialized header, whatever its checksum, gives it back; the result only says
      whether that checksum verifies. */
  lemma HeaderRoundTrip(h: Ipv4Header, payload: seq<byte>)
    requires Packable(h) && h.len == 4 * h.hlen + |payload|
    ensures var bytes := SerializeHeader(h).value;
            && |bytes| == 4 * h.hlen
            && ParseHeader(Parser(bytes + payload, NoError)) ==
                 ParsedHeader(h, if ValueOf(AddBytes(Checksum(0, false), bytes)) == 0 then NoError else BadChecksum,
                              Parser(payload, NoError))
  {
    var pad := Zeros(4 * h.hlen - LENGTH);
    var bytes := SerializeHeader(h).value;
    EncodedLength(h);
    assert bytes + payload == Encode(Fields(h)) + (pad + payload);
    FieldsBack(h, pad + payload);
    assert (pad + payload)[|pad|..] == payload;
    assert (bytes + payload)[..4 * h.hlen] == bytes;
  }

  lemma HeaderAround(h: Ipv4Header)
    requires Packable(h)
    ensures SerializeHeader(h).value ==
              Encode(FrontFields(h)) + IntBytes(h.cksum, 2) + (Encode(BackFields(h)) + Zeros(4 * h.hlen - LENGTH))
    ensures |Encode(FrontFields(h))| == 10
  {
    var front, mid, back := FrontFields(h), [Field(h.cksum, 2)], BackFields(h);
    EncodeConcat(front + mid, back);
    EncodeMore(front, mid[0]);
    EncodeLength(front);
    FieldsFit(h);
    assert Widths(front) == [1, 1, 2, 2, 2, 1, 1];
    TotalWidths();
  }

  /** The checksum stored in a header verifies. */
  lemma HeaderChecksumVerifies(h: Ipv4Header)
    requires Packable(h)
    requires h.cksum == ValueOf(AddBytes(Checksum(0, false), SerializeHeader(h.(cksum := 0)).value))
    ensures ValueOf(AddBytes(Checksum(0, false), SerializeHeader(h).value)) == 0
  {
    var h0 := h.(cksum := 0);
    var a, b := Encode(FrontFields(h)), Encode(BackFields(h)) + Zeros(4 * h.hlen - LENGTH);
    var zeroed := SerializeHeader(h0).value;
    HeaderAround(h);
    ZeroedAround(h);
    TcpWire.DatagramSumFits(0, zeroed);
    assert zeroed == a + IntBytes(0, 2) + b;
    TcpWire.StoredVerifies(0, a, b, h.cksum);
  }

  lemma ZeroedAround(h: Ipv4Header)
    requires Packable(h)
    ensures var zeroed := SerializeHeader(h.(cksum := 0)).value;
            && zeroed == Encode(FrontFields(h)) + IntBytes(0, 2) + (Encode(BackFields(h)) + Zeros(4 * h.hlen - LENGTH))
            && |zeroed| == 4 * h.hlen
  {
    var h0 := h.(cksum := 0);
    HeaderAround(h0);
    EncodedLength(h0);
    assert FrontFields(h0) == FrontFields(h) && BackFields(h0) == BackFields(h);
  }

  lemma PayloadFits(h: Ipv4Header, n: nat)
    requires h.len == 4 * h.hlen + n
    ensures h.PayloadLength() == n
  {
  }

  /** A datagram whose header fits its bit fields and counts its payload. */
  predicate Consistent(d: Datagram) {
    Packable(d.header) && d.header.len == 4 * d.header.hlen + |d.payload|
  }

  /** Parsing `bytes` gives the datagram with its checksum filled in, which verifies. */
  predicate ComesBack(d: Datagram, bytes: seq<byte>) {
    var back := ParseDatagram(bytes);
    && back.result == NoError
    && back.datagram == d.(header := d.header.(cksum := back.datagram.header.cksum))
    && ParseHeader(Parser(bytes, NoError)).result == NoError
  }

  /** The serialized bytes of a datagram give it back. */
  lemma DatagramRoundTrip(d: Datagram)
    requires Consistent(d)
    ensures SerializeDatagram(d).Some? && ComesBack(d, SerializeDatagram(d).value)
  {
    var c := ValueOf(AddBytes(Checksum(0, false), SerializeHeader(d.header.(cksum := 0)).value));
    var h := d.header.(cksum := c);
    HeaderChecksumVerifies(h);
    HeaderRoundTrip(h, d.payload);
    PayloadFits(h, |d.payload|);
    assert SerializeDatagram(d) == Some(SerializeHeader(h).value + d.payload);
  }

  // ----- exactly what is accepted -----

  lemma ParsedRest(buffer: seq<byte>)
    requires |buffer| >= LENGTH
    ensures Decode(Parser(buffer, NoError), WIDTHS).1 == Parser(buffer[LENGTH..], NoError)
  {
    DecodeFailsIff(buffer, WIDTHS);
    TotalWidths();
  }

  /** The header's first four tests. */
  predicate WellMarked(h: Ipv4Header, size: nat) {
    size >= 4 * h.hlen && h.ver == 4 && h.hlen >= 5 && size == h.len
  }

  /** A datagram is accepted exactly when it has a whole header and either passes the header's
      tests before the checksum, or fails one of them while the bytes after the first twenty
      happen to be as many as the payload length computed from the header. The header checksum
      does not matter. */
  lemma AcceptsIff(buffer: seq<byte>)
    ensures var h := ParseHeader(Parser(buffer, NoError)).header;
            ParseDatagram(buffer).result == NoError <==>
              |buffer| >= LENGTH && (WellMarked(h, |buffer|) || |buffer| - LENGTH == h.PayloadLength())
  {
    if |buffer| >= LENGTH {
      RestIs(buffer);
      WellMarkedLength(ParseHeader(Parser(buffer, NoError)).header, |buffer|);
    }
  }

  /** What a header's parse leaves: the padding is skipped only after the first four tests. */
  lemma RestIs(buffer: seq<byte>)
    requires |buffer| >= LENGTH
    ensures var p := ParseHeader(Parser(buffer, NoError));
            p.rest == Parser(buffer[if WellMarked(p.header, |buffer|) then 4 * p.header.hlen else LENGTH..], NoError)
  {
    ParsedRest(buffer);
    DecodedFits(Parser(buffer, NoError));
  }

  lemma WellMarkedLength(h: Ipv4Header, size: nat)
    ensures WellMarked(h, size) ==> size - 4 * h.hlen == h.PayloadLength()
  {
  }

  /** So a datagram whose header checksum is wrong is accepted all the same. */
  lemma BadChecksumIsAccepted(d: Datagram)
    requires Consistent(d)
    requires ValueOf(AddBytes(Checksum(0, false), SerializeHeader(d.header).value)) != 0
    ensures var bytes := SerializeHeader(d.header).value + d.payload;
            && ParseHeader(Parser(bytes, NoError)).result == BadChecksum
            && ParseDatagram(bytes) == ParsedDatagram(d, NoError)
  {
    HeaderRoundTrip(d.header, d.payload);
    PayloadFits(d.header, |d.payload|);
  }

  // ----- the layout of a header -----

  /** Where each field starts. */
  const PLACES: seq<nat> := [0, 1, 2, 4, 6, 8, 9, 10, 12, 16]

  lemma {:induction false} PlaceIs(k: nat)
    requires k < 10
    ensures Total(WIDTHS[..k]) == PLACES[k]
  {
    if k > 0 {
      PlaceIs(k - 1);
      assert WIDTHS[..k][..k - 1] == WIDTHS[..k - 1];
    }
  }

  lemma FieldBytes(h: Ipv4Header, k: nat, at: nat, f: Field)
    requires Packable(h) && k < 10 && at == PLACES[k] && f == Fields(h)[k]
    ensures var b := SerializeHeader(h).value;
            |b| == 4 * h.hlen && at + f.width <= 20 && b[at..at + f.width] == IntBytes(f.value, f.width)
  {
    var b, all := SerializeHeader(h).value, Encode(Fields(h));
    FieldsFit(h);
    EncodedLength(h);
    PlaceIs(k);
    FieldIsAt(Fields(h), k, at);
    assert b[..20] == all;
    assert b[at..at + f.width] == b[..20][at..at + f.width];
  }

  lemma OneByteField(h: Ipv4Header, k: nat, at: nat, v: byte)
    requires Packable(h) && k < 10 && at == PLACES[k] && Fields(h)[k] == Field(v, 1)
    ensures var b := SerializeHeader(h).value; |b| == 4 * h.hlen && at < 20 && b[at] == v
  {
    FieldBytes(h, k, at, Field(v, 1));
    OneByte(v);
    FirstOfSlice(SerializeHeader(h).value, at, v);
  }

  lemma TwoByteField(h: Ipv4Header, k: nat, at: nat, v: u16)
    requires Packable(h) && k < 10 && at == PLACES[k] && Fields(h)[k] == Field(v, 2)
    ensures var b := SerializeHeader(h).value; at + 2 <= |b| && b[at..at + 2] == [v / 0x100, v % 0x100]
  {
    FieldBytes(h, k, at, Field(v, 2));
    TwoBytes(v);
  }

  lemma FourByteField(h: Ipv4Header, k: nat, at: nat, v: u32)
    requires Packable(h) && k < 10 && at == PLACES[k] && Fields(h)[k] == Field(v, 4)
    ensures var b := SerializeHeader(h).value;
            at + 4 <= |b| && b[at..at + 4] == [v / 0x100_0000, v / 0x1_0000 % 0x100, v / 0x100 % 0x100, v % 0x100]
  {
    FieldBytes(h, k, at, Field(v, 4));
    FourBytes(v);
  }

  /** The flags and the fragment offset: don't fragment above more fragments above 13 bits. */
  function Fragment(h: Ipv4Header): nat {
    (if h.df then 16384 else 0) + (if h.mf then 8192 else 0) + h.offset
  }

  /** Where each field is (section 3.1 of RFC 791): version 4 and the length in words share the
      first byte; the addresses come last, source first. */
  lemma HeaderLayout(h: Ipv4Header)
    requires Packable(h)
    ensures var b := SerializeHeader(h).value;
            && |b| == 4 * h.hlen && b[0] == 64 + h.hlen && b[1] == h.tos
            && b[2..4] == [h.len / 0x100, h.len % 0x100] && b[4..6] == [h.id / 0x100, h.id % 0x100]
            && b[6..8] == [Fragment(h) / 0x100, Fragment(h) % 0x100]
            && b[8] == h.ttl && b[9] == h.proto && b[10..12] == [h.cksum / 0x100, h.cksum % 0x100]
            && b[12..16] == [h.src / 0x100_0000, h.src / 0x1_0000 % 0x100, h.src / 0x100 % 0x100, h.src % 0x100]
            && b[16..20] == [h.dst / 0x100_0000, h.dst / 0x1_0000 % 0x100, h.dst / 0x100 % 0x100, h.dst % 0x100]
  {
    FragmentBack(h);
    OneByteField(h, 0, 0, FirstByte(h));
    OneByteField(h, 1, 1, h.tos);
    TwoByteField(h, 2, 2, h.len);
    TwoByteField(h, 3, 4, h.id);
    TwoByteField(h, 4, 6, FragmentWord(h));
    OneByteField(h, 5, 8, h.ttl);
    OneByteField(h, 6, 9, h.proto);
    TwoByteField(h, 7, 10, h.cksum);
    FourByteField(h, 8, 12, h.src);
    FourByteField(h, 9, 16, h.dst);
  }

  /** The value at field number `k` of any twenty bytes. */
  lemma ParsedAt(b: seq<byte>, k: nat, at: nat)
    requires |b| >= 20 && k < 10 && at == PLACES[k]
    ensures at + WIDTHS[k] <= 20
    ensures Decode(Parser(b, NoError), WIDTHS).0[k] == BigEndian(b[at..at + WIDTHS[k]])
  {
    TotalWidths();
    PlaceIs(k);
    DecodedAt(b, WIDTHS, k, at);
  }

  lemma ParsedOne(b: seq<byte>, k: nat, at: nat)
    requires |b| >= 20 && k < 10 && at == PLACES[k] && WIDTHS[k] == 1
    ensures at < 20 && Decode(Parser(b, NoError), WIDTHS).0[k] == b[at]
  {
    ParsedAt(b, k, at);
    OneByteValue(b, at);
  }

  lemma ParsedTwo(b: seq<byte>, k: nat, at: nat)
    requires |b| >= 20 && k < 10 && at == PLACES[k] && WIDTHS[k] == 2
    ensures at + 2 <= 20 && Decode(Parser(b, NoError), WIDTHS).0[k] == Two(b, at)
  {
    ParsedAt(b, k, at);
    TwoByteValue(b, at);
  }

  lemma ParsedFour(b: seq<byte>, k: nat, at: nat)
    requires |b| >= 20 && k < 10 && at == PLACES[k] && WIDTHS[k] == 4
    ensures at + 4 <= 20 && Decode(Parser(b, NoError), WIDTHS).0[k] == Four(b, at)
  {
    ParsedAt(b, k, at);
    FourByteValue(b, at);
  }

  /** What is read from any twenty bytes, whoever wrote them: each field from its own place. */
  lemma ParseLayout(b: seq<byte>)
    requires |b| >= 20
    ensures var h := ParseHeader(Parser(b, NoError)).header;
            && h.ver == b[0] / 16 && h.hlen == b[0] % 16 && h.tos == b[1] && h.len == Two(b, 2) && h.id == Two(b, 4)
            && (h.df <==> b[6] / 64 % 2 == 1) && (h.mf <==> b[6] / 32 % 2 == 1) && h.offset == Two(b, 6) % 8192
            && h.ttl == b[8] && h.proto == b[9] && h.cksum == Two(b, 10) && h.src == Four(b, 12) && h.dst == Four(b, 16)
  {
    DecodedFits(Parser(b, NoError));
    ParsedOne(b, 0, 0);
    ParsedOne(b, 1, 1);
    ParsedTwo(b, 2, 2);
    ParsedTwo(b, 3, 4);
    ParsedTwo(b, 4, 6);
    ParsedOne(b, 5, 8);
    ParsedOne(b, 6, 9);
    ParsedTwo(b, 7, 10);
    ParsedFour(b, 8, 12);
    ParsedFour(b, 9, 16);
    FragmentBits(b[6], b[7]);
  }

  lemma FragmentBits(hi: byte, lo: byte)
    ensures var w := 0x100 * (hi as int) + lo as int;
            && TcpWire.HasBit(w, 0x4000) == (hi / 64 % 2 == 1) && TcpWire.HasBit(w, 0x2000) == (hi / 32 % 2 == 1)
  {
  }

  /** What the parse of a header reports: which of its tests fails first. */
  lemma HeaderResultIs(b: seq<byte>)
    ensures ParseHeader(Parser(b, NoError)).result ==
              if |b| < 20 || |b| < 4 * (b[0] % 16) as int then PacketTooShort
              else if b[0] / 16 != 4 then WrongIPVersion
              else if b[0] % 16 < 5 then HeaderTooShort
              else if |b| != Two(b, 2) then TruncatedPacket
              else if ValueOf(AddBytes(Checksum(0, false), b[..4 * (b[0] % 16)])) != 0 then BadChecksum
              else NoError
  {
    if |b| >= 20 {
      ParseLayout(b);
      ParsedRest(b);
    }
  }

  // ----- the pseudo-header -----

  /** The twelve bytes that the checksum of a TCP segment covers besides the segment (section 3.1
      of RFC 793): the addresses, a zero, the protocol, and the segment's length. */
  function PseudoHeader(h: Ipv4Header): seq<byte> {
    IntBytes(h.src, 4) + IntBytes(h.dst, 4) + [0, h.proto] + IntBytes(h.PayloadLength(), 2)
  }

  lemma HalvesOfFour(v: u32, hi: u16, lo: u16)
    requires v == hi * 0x1_0000 + lo
    ensures v / 0x1_0000 == hi && v % 0x1_0000 == lo
    ensures v / 0x100_0000 == hi / 0x100 && v / 0x100 % 0x100 == lo / 0x100 && v % 0x100 == lo % 0x100
  {
  }

  lemma FourIsTwoTwos(v: u32, hi: u16, lo: u16)
    requires v == hi * 0x1_0000 + lo
    ensures IntBytes(v, 4) == IntBytes(hi, 2) + IntBytes(lo, 2)
  {
    HalvesOfFour(v, hi, lo);
    FourBytes(v);
    TwoBytes(hi);
    TwoBytes(lo);
  }

  lemma SumOfFour(v: u32)
    ensures BigSum(false, IntBytes(v, 4)) == v / 0x1_0000 + v % 0x1_0000
  {
    var hi: u16, lo: u16 := v / 0x1_0000, v % 0x1_0000;
    FourIsTwoTwos(v, hi, lo);
    BigSumConcat(false, IntBytes(hi, 2), IntBytes(lo, 2));
    TcpWire.WordSum(hi);
    TcpWire.WordSum(lo);
  }

  lemma SumOfProto(p: byte)
    ensures BigSum(false, [0, p]) == p
  {
    TwoBytes(p);
    TcpWire.WordSum(p);
  }

  /** What the pseudo-header adds to the sum is the sum of its words. */
  lemma PseudoChecksumIsSum(h: Ipv4Header)
    ensures BigSum(false, PseudoHeader(h)) == h.PseudoChecksum() && |PseudoHeader(h)| == 12
  {
    var a, b, c, d := IntBytes(h.src, 4), IntBytes(h.dst, 4), [0, h.proto], IntBytes(h.PayloadLength(), 2);
    BigSumConcat(false, a, b);
    BigSumConcat(false, a + b, c);
    BigSumConcat(false, a + b + c, d);
    SumOfFour(h.src);
    SumOfFour(h.dst);
    SumOfProto(h.proto);
    TcpWire.WordSum(h.PayloadLength());
  }

  /** So starting from the pseudo-header's sum is adding its bytes before the segment's. */
  lemma ChecksumCoversPseudoHeader(h: Ipv4Header, data: seq<byte>)
    ensures AddBytes(Checksum(h.PseudoChecksum(), false), data) == AddBytes(Checksum(0, false), PseudoHeader(h) + data)
  {
    PseudoChecksumIsSum(h);
    AddConcat(Checksum(0, false), PseudoHeader(h), data);
    AddIsSum(Checksum(0, false), PseudoHeader(h));
  }
}
