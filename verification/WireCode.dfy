/** The wire formats as code: headers read field by field from a parser object, written field
    by field to a string, and the checksum object around them. */
module WireCode {
  import opened Numbers
  import opened Checksums
  import opened NetParsers
  import opened TcpSegments
  import T = TcpWire
  import I = Ipv4Wire

  /** Read integer number `k` of a row of integers that started in state `p0`. */
  method Next(p: NetParser, width: nat, ghost p0: Parser, ghost row: seq<nat>, ghost k: nat) returns (x: nat)
    requires k < |row| && row[k] == width && Decode(p0, row[..k]).1 == p.State()
    modifies p
    ensures Decode(p0, row[..k + 1]) == (Decode(p0, row[..k]).0 + [x], p.State())
  {
    x := p.NextInt(width);
    DecodeMore(p0, row[..k], width);
    assert row[..k + 1] == row[..k] + [width];
  }

  /** Append integer number `k` of a row of fields to the bytes of those before it. */
  method Put(ret: seq<byte>, v: nat, width: nat, ghost row: seq<Field>, ghost k: nat) returns (r: seq<byte>)
    requires k < |row| && row[k] == Field(v, width) && ret == Encode(row[..k])
    ensures r == Encode(row[..k + 1])
  {
    r := UnparseInt(ret, v, width);
    EncodeMore(row[..k], Field(v, width));
    assert row[..k + 1] == row[..k] + [Field(v, width)];
  }

  // ----- TCP -----

  /** The first four of a header's integers. */
  method ReadTcpFront(p: NetParser) returns (sport: nat, dport: nat, seqno: nat, ackno: nat)
    modifies p
    ensures Decode(old(p.State()), T.WIDTHS[..4]) == ([sport, dport, seqno, ackno], p.State())
  {
    ghost var p0 := p.State();
    assert Decode(p0, T.WIDTHS[..0]) == ([], p0);
    sport := Next(p, 2, p0, T.WIDTHS, 0);
    dport := Next(p, 2, p0, T.WIDTHS, 1);
    seqno := Next(p, 4, p0, T.WIDTHS, 2);
    ackno := Next(p, 4, p0, T.WIDTHS, 3);
    assert Decode(p0, T.WIDTHS[..4]).0 == [sport, dport, seqno, ackno];
  }

  method ReadTcpFields(p: NetParser) returns (h: TcpHeader)
    modifies p
    ensures (h, p.State()) == T.ReadFields(old(p.State()))
  {
    ghost var p0 := p.State();
    T.DecodedFits(p0);
    var sport, dport, seqno, ackno := ReadTcpFront(p);
    var offset := Next(p, 1, p0, T.WIDTHS, 4);
    var flags := Next(p, 1, p0, T.WIDTHS, 5);
    var win := Next(p, 2, p0, T.WIDTHS, 6);
    var cksum := Next(p, 2, p0, T.WIDTHS, 7);
    var uptr := Next(p, 2, p0, T.WIDTHS, 8);
    assert T.WIDTHS[..9] == T.WIDTHS;
    assert Decode(p0, T.WIDTHS).0 == [sport, dport, seqno, ackno, offset, flags, win, cksum, uptr];
    h := TcpHeader(sport, dport, seqno, ackno, offset / 0x10,
                   T.HasBit(flags, 0x20), T.HasBit(flags, 0x10), T.HasBit(flags, 0x08),
                   T.HasBit(flags, 0x04), T.HasBit(flags, 0x02), T.HasBit(flags, 0x01), win, cksum, uptr);
  }

  method ParseTcpHeader(p: NetParser) returns (h: TcpHeader, result: ParseResult)
    modifies p
    ensures T.ParsedHeader(h, result, p.State()) == T.ParseHeader(old(p.State()))
  {
    h := ReadTcpFields(p);
    if h.doff < 5 {
      return h, HeaderTooShort;
    }
    p.DropPrefix(h.doff * 4 - HEADER_LENGTH);
    if p.error != NoError {
      return h, p.error;
    }
    return h, NoError;
  }

  /** The first four of a header's integers. */
  method PutTcpFront(h: TcpHeader) returns (s: seq<byte>)
    ensures s == Encode(T.Fields(h)[..4])
  {
    s := Put([], h.sport, 2, T.Fields(h), 0);
    s := Put(s, h.dport, 2, T.Fields(h), 1);
    s := Put(s, h.seqno, 4, T.Fields(h), 2);
    s := Put(s, h.ackno, 4, T.Fields(h), 3);
  }

  method SerializeTcpHeader(h: TcpHeader) returns (ret: Option<seq<byte>>)
    ensures ret == T.SerializeHeader(h)
  {
    if h.doff < 5 {
      return None;
    }
    var s := PutTcpFront(h);
    s := Put(s, h.doff * 0x10 % 0x100, 1, T.Fields(h), 4);
    s := Put(s, T.FlagByte(h), 1, T.Fields(h), 5);
    s := Put(s, h.win, 2, T.Fields(h), 6);
    s := Put(s, h.cksum, 2, T.Fields(h), 7);
    s := Put(s, h.uptr, 2, T.Fields(h), 8);
    assert T.Fields(h)[..9] == T.Fields(h);
    ret := Some(s + Zeros(4 * h.doff - HEADER_LENGTH));
  }

  method ParseTcpSegment(buffer: seq<byte>, pseudo: u32) returns (seg: TcpSegment, result: ParseResult)
    ensures T.ParsedSegment(seg, result) == T.ParseSegment(buffer, pseudo)
  {
    var check := new InternetChecksum(pseudo);
    check.Add(buffer);
    var value := check.Value();
    if value != 0 {
      return T.EMPTY_SEGMENT, BadChecksum;
    }
    var p := new NetParser(buffer);
    var h, _ := ParseTcpHeader(p);
    seg := TcpSegment(h, p.buffer);
    result := p.error;
  }

  /** What parsing the bytes gives, in the form the method promises it. */
  lemma SegmentComesBack(seg: TcpSegment, pseudo: u32)
    ensures T.Carryable(seg, pseudo) ==>
              T.SerializeSegment(seg, pseudo).Some? && T.ComesBack(seg, T.SerializeSegment(seg, pseudo).value, pseudo)
  {
    if T.Carryable(seg, pseudo) {
      T.SegmentRoundTrip(seg, pseudo);
    }
  }

  method SerializeTcpSegment(seg: TcpSegment, pseudo: u32) returns (ret: Option<seq<byte>>)
    ensures ret == T.SerializeSegment(seg, pseudo)
    ensures T.Carryable(seg, pseudo) ==> ret.Some? && T.ComesBack(seg, ret.value, pseudo)
  {
    SegmentComesBack(seg, pseudo);
    var headerOut := seg.header.(cksum := 0);
    var zeroed := SerializeTcpHeader(headerOut);
    if zeroed.None? {
      return None;
    }
    var check := new InternetChecksum(pseudo);
    check.Add(zeroed.value);
    check.Add(seg.payload);
    var value := check.Value();
    headerOut := headerOut.(cksum := value);
    var bytes := SerializeTcpHeader(headerOut);
    ret := Some(bytes.value + seg.payload);
  }

  // ----- IPv4 -----

  method ParseIpHeader(p: NetParser) returns (h: I.Ipv4Header, result: ParseResult)
    modifies p
    ensures I.ParsedHeader(h, result, p.State()) == I.ParseHeader(old(p.State()))
  {
    var original := p.buffer;
    var dataSize := |p.buffer|;
    if dataSize < I.LENGTH {
      return I.DEFAULT_HEADER, PacketTooShort;
    }
    h := ReadIpFields(p);
    if dataSize < 4 * h.hlen {
      return h, PacketTooShort;
    }
    if h.ver != 4 {
      return h, WrongIPVersion;
    }
    if h.hlen < 5 {
      return h, HeaderTooShort;
    }
    if dataSize != h.len {
      return h, TruncatedPacket;
    }
    p.DropPrefix(h.hlen * 4 - I.LENGTH);
    if p.error != NoError {
      return h, p.error;
    }
    var check := new InternetChecksum(0);
    check.Add(original[..4 * h.hlen]);
    var value := check.Value();
    return h, if value != 0 then BadChecksum else NoError;
  }

  /** The first five of a header's integers. */
  method ReadIpFront(p: NetParser) returns (first: nat, tos: nat, len: nat, id: nat, fo: nat)
    modifies p
    ensures Decode(old(p.State()), I.WIDTHS[..5]) == ([first, tos, len, id, fo], p.State())
  {
    ghost var p0 := p.State();
    assert Decode(p0, I.WIDTHS[..0]) == ([], p0);
    first := Next(p, 1, p0, I.WIDTHS, 0);
    tos := Next(p, 1, p0, I.WIDTHS, 1);
    len := Next(p, 2, p0, I.WIDTHS, 2);
    id := Next(p, 2, p0, I.WIDTHS, 3);
    fo := Next(p, 2, p0, I.WIDTHS, 4);
    assert Decode(p0, I.WIDTHS[..5]).0 == [first, tos, len, id, fo];
  }

  method ReadIpFields(p: NetParser) returns (h: I.Ipv4Header)
    modifies p
    ensures (h, p.State()) == I.ReadFields(old(p.State()))
  {
    ghost var p0 := p.State();
    I.DecodedFits(p0);
    var first, tos, len, id, fo := ReadIpFront(p);
    var ttl := Next(p, 1, p0, I.WIDTHS, 5);
    var proto := Next(p, 1, p0, I.WIDTHS, 6);
    var cksum := Next(p, 2, p0, I.WIDTHS, 7);
    var src := Next(p, 4, p0, I.WIDTHS, 8);
    var dst := Next(p, 4, p0, I.WIDTHS, 9);
    assert I.WIDTHS[..10] == I.WIDTHS;
    assert Decode(p0, I.WIDTHS).0 == [first, tos, len, id, fo, ttl, proto, cksum, src, dst];
    h := I.Ipv4Header(first / 0x10, first % 0x10, tos, len, id,
                      T.HasBit(fo, 0x4000), T.HasBit(fo, 0x2000), fo % 0x2000, ttl, proto, cksum, src, dst);
  }

  /** The first five of a header's integers. */
  method PutIpFront(h: I.Ipv4Header) returns (s: seq<byte>)
    ensures s == Encode(I.Fields(h)[..5])
  {
    s := Put([], I.FirstByte(h), 1, I.Fields(h), 0);
    s := Put(s, h.tos, 1, I.Fields(h), 1);
    s := Put(s, h.len, 2, I.Fields(h), 2);
    s := Put(s, h.id, 2, I.Fields(h), 3);
    s := Put(s, I.FragmentWord(h), 2, I.Fields(h), 4);
  }

  method SerializeIpHeader(h: I.Ipv4Header) returns (ret: Option<seq<byte>>)
    ensures ret == I.SerializeHeader(h)
  {
    if h.ver != 4 {
      return None;
    }
    if 4 * h.hlen < I.LENGTH {
      return None;
    }
    var s := PutIpFront(h);
    s := Put(s, h.ttl, 1, I.Fields(h), 5);
    s := Put(s, h.proto, 1, I.Fields(h), 6);
    s := Put(s, h.cksum, 2, I.Fields(h), 7);
    s := Put(s, h.src, 4, I.Fields(h), 8);
    s := Put(s, h.dst, 4, I.Fields(h), 9);
    assert I.Fields(h)[..10] == I.Fields(h);
    ret := Some(s + Zeros(4 * h.hlen - I.LENGTH));
  }

  method ParseIpDatagram(buffer: seq<byte>) returns (d: I.Datagram, result: ParseResult)
    ensures I.ParsedDatagram(d, result) == I.ParseDatagram(buffer)
  {
    var p := new NetParser(buffer);
    var h, _ := ParseIpHeader(p);
    d := I.Datagram(h, p.buffer);
    if |d.payload| != d.header.PayloadLength() {
      return d, PacketTooShort;
    }
    return d, p.error;
  }

  /** What parsing the bytes gives, in the form the method promises it. */
  lemma DatagramComesBack(d: I.Datagram)
    ensures I.Consistent(d) ==> I.SerializeDatagram(d).Some? && I.ComesBack(d, I.SerializeDatagram(d).value)
  {
    if I.Consistent(d) {
      I.DatagramRoundTrip(d);
    }
  }

  method SerializeIpDatagram(d: I.Datagram) returns (ret: Option<seq<byte>>)
    ensures ret == I.SerializeDatagram(d)
    ensures I.Consistent(d) ==> ret.Some? && I.ComesBack(d, ret.value)
  {
    DatagramComesBack(d);
    if |d.payload| != d.header.PayloadLength() {
      return None;
    }
    var headerOut := d.header.(cksum := 0);
    var zeroed := SerializeIpHeader(headerOut);
    if zeroed.None? {
      return None;
    }
    var check := new InternetChecksum(0);
    check.Add(zeroed.value);
    var value := check.Value();
    headerOut := headerOut.(cksum := value);
    var bytes := SerializeIpHeader(headerOut);
    ret := Some(bytes.value + d.payload);
  }
}
