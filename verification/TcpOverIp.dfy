/** TCP segments inside IPv4 datagrams: the adapter between a connection and the network. */
module TcpOverIp {
  import opened Numbers
  import opened Checksums
  import opened NetParsers
  import opened TcpSegments
  import opened TcpWire
  import opened Ipv4Wire

  datatype Endpoint = Endpoint(ip: u32, port: u16)

  /** The adapter's configuration, and whether it still waits for a first SYN. */
  datatype Adapter = Adapter(source: Endpoint, destination: Endpoint, listening: bool)

  function WithPorts(a: Adapter, seg: TcpSegment): TcpSegment {
    seg.(header := seg.header.(sport := a.source.port, dport := a.destination.port))
  }

  /** The header of the datagram that carries `seg`; its length field has 16 bits. */
  function CarrierHeader(a: Adapter, seg: TcpSegment): Ipv4Header {
    DEFAULT_HEADER.(src := a.source.ip, dst := a.destination.ip,
                    len := (DEFAULT_HEADER.hlen * 4 + seg.header.doff * 4 + |seg.payload|) % TWO16)
  }

  function WrapTcpInIp(a: Adapter, seg: TcpSegment): Option<Datagram> {
    var h := CarrierHeader(a, seg);
    var payload := SerializeSegment(WithPorts(a, seg), h.PseudoChecksum());
    if payload.None? then None else Some(Datagram(h, payload.value))
  }

  /** Where a listening adapter turns to when it hears its first SYN. */
  function Answering(a: Adapter, h: Ipv4Header, seg: TcpSegment): Adapter {
    Adapter(Endpoint(h.dst, a.source.port), Endpoint(h.src, seg.header.sport), false)
  }

  function UnwrapTcpInIp(a: Adapter, d: Datagram): (Option<TcpSegment>, Adapter) {
    if !a.listening && d.header.dst != a.source.ip then (None, a)
    else if !a.listening && d.header.src != a.destination.ip then (None, a)
    else if d.header.proto != PROTO_TCP then (None, a)
    else
      var p := ParseSegment(d.payload, d.header.PseudoChecksum());
      var seg := p.segment;
      if p.result != NoError then (None, a)
      else if seg.header.dport != a.source.port then (None, a)
      else if a.listening && !(seg.header.syn && !seg.header.rst) then (None, a)
      else
        var a1 := if a.listening then Answering(a, d.header, seg) else a;
        if seg.header.sport != a1.destination.port then (None, a1) else (Some(seg), a1)
  }

  /** Wrapped, written out, read back and unwrapped. */
  function Carry(a: Adapter, b: Adapter, seg: TcpSegment): (Option<TcpSegment>, Adapter)
    requires WrapTcpInIp(a, seg).Some? && SerializeDatagram(WrapTcpInIp(a, seg).value).Some?
  {
    UnwrapTcpInIp(b, ParseDatagram(SerializeDatagram(WrapTcpInIp(a, seg).value).value).datagram)
  }

  /** The segment and its headers fit a datagram. */
  predicate Carriable(seg: TcpSegment) {
    5 <= seg.header.doff <= 15 && 20 + 4 * seg.header.doff + |seg.payload| <= 0xffff
  }

  lemma PseudoIsSmall(h: Ipv4Header)
    ensures h.PseudoChecksum() < 0x8_0000
  {
  }

  lemma WrapFits(a: Adapter, seg: TcpSegment)
    requires Carriable(seg)
    ensures WrapTcpInIp(a, seg).Some?
    ensures var d := WrapTcpInIp(a, seg).value;
            && d.header == CarrierHeader(a, seg) && Packable(d.header)
            && d.header.len == 4 * d.header.hlen + |d.payload|
            && d.header.PseudoChecksum() <= MAX_PSEUDO
            && d.payload == SerializeSegment(WithPorts(a, seg), d.header.PseudoChecksum()).value
  {
    var h := CarrierHeader(a, seg);
    PseudoIsSmall(h);
    CarrierLength(a, seg);
    SegmentRoundTrip(WithPorts(a, seg), h.PseudoChecksum());
  }

  lemma CarrierLength(a: Adapter, seg: TcpSegment)
    requires Carriable(seg)
    ensures CarrierHeader(a, seg).len == 20 + 4 * seg.header.doff + |seg.payload|
  {
  }

  /** What arrives of a wrapped segment: the datagram with its checksum filled in, and in it
      the segment with its own checksum filled in. */
  lemma Arrives(a: Adapter, seg: TcpSegment)
    requires Carriable(seg) && WrapTcpInIp(a, seg).Some?
    ensures SerializeDatagram(WrapTcpInIp(a, seg).value).Some?
    ensures var d := WrapTcpInIp(a, seg).value;
            var back := ParseDatagram(SerializeDatagram(d).value);
            var p := ParseSegment(back.datagram.payload, back.datagram.header.PseudoChecksum());
            && back.result == NoError
            && back.datagram.header == CarrierHeader(a, seg).(cksum := back.datagram.header.cksum)
            && p.result == NoError
            && p.segment == WithPorts(a, seg).(header := WithPorts(a, seg).header.(cksum := p.segment.header.cksum))
  {
    WrapFits(a, seg);
    var d := WrapTcpInIp(a, seg).value;
    DatagramRoundTrip(d);
    SegmentRoundTrip(WithPorts(a, seg), d.header.PseudoChecksum());
    var back := ParseDatagram(SerializeDatagram(d).value);
    assert back.datagram.header.PseudoChecksum() == d.header.PseudoChecksum();
  }

  /** TCP over IPv4 round trip: the peer with the mirrored configuration gets the segment with
      the ports set, differing from the one sent in nothing but the checksum. */
  lemma CarryRoundTrip(a: Adapter, b: Adapter, seg: TcpSegment)
    requires Carriable(seg) && !b.listening
    requires b.source == a.destination && b.destination == a.source
    ensures WrapTcpInIp(a, seg).Some? && SerializeDatagram(WrapTcpInIp(a, seg).value).Some?
    ensures var (got, b') := Carry(a, b, seg);
            && b' == b && got.Some?
            && got.value == WithPorts(a, seg).(header := WithPorts(a, seg).header.(cksum := got.value.header.cksum))
  {
    WrapFits(a, seg);
    Arrives(a, seg);
  }

  /** A listening peer on the right port takes a SYN and becomes the mirror image of the
      sender; it takes nothing else. */
  lemma ListenerMirrors(a: Adapter, b: Adapter, seg: TcpSegment)
    requires Carriable(seg) && b.listening && b.source.port == a.destination.port
    ensures WrapTcpInIp(a, seg).Some? && SerializeDatagram(WrapTcpInIp(a, seg).value).Some?
    ensures var (got, b') := Carry(a, b, seg);
            if seg.header.syn && !seg.header.rst then
              && b' == Adapter(a.destination, a.source, false) && got.Some?
              && got.value == WithPorts(a, seg).(header := WithPorts(a, seg).header.(cksum := got.value.header.cksum))
            else got == None && b' == b
  {
    WrapFits(a, seg);
    Arrives(a, seg);
  }

  /** The datagram that carries a segment: version 4, no options, the default time to live, no
      fragmentation, TCP, the two addresses, and the length of it all. */
  lemma CarrierIs(a: Adapter, seg: TcpSegment)
    requires Carriable(seg)
    ensures WrapTcpInIp(a, seg).Some?
    ensures var h := WrapTcpInIp(a, seg).value.header;
            && h.ver == 4 && h.hlen == 5 && h.ttl == 128 && h.proto == 6 && h.df && !h.mf && h.offset == 0 && h.tos == 0
            && h.src == a.source.ip && h.dst == a.destination.ip
            && h.len == 20 + 4 * seg.header.doff + |seg.payload|
  {
    WrapFits(a, seg);
    CarrierLength(a, seg);
  }

  /** What a peer that is not listening refuses: a segment reaches it exactly when both ends, each
      with its address and its port, are the ones it knows. */
  lemma CarriedIff(a: Adapter, b: Adapter, seg: TcpSegment)
    requires Carriable(seg) && !b.listening
    ensures WrapTcpInIp(a, seg).Some? && SerializeDatagram(WrapTcpInIp(a, seg).value).Some?
    ensures var (got, b') := Carry(a, b, seg);
            && b' == b
            && (got.Some? <==>
                  && a.source.ip == b.destination.ip && a.source.port == b.destination.port
                  && a.destination.ip == b.source.ip && a.destination.port == b.source.port)
  {
    WrapFits(a, seg);
    Arrives(a, seg);
  }

  /** And what a listening one refuses: any but a first SYN to its port. */
  lemma ListenerHearsIff(a: Adapter, b: Adapter, seg: TcpSegment)
    requires Carriable(seg) && b.listening
    ensures WrapTcpInIp(a, seg).Some? && SerializeDatagram(WrapTcpInIp(a, seg).value).Some?
    ensures var (got, b') := Carry(a, b, seg);
            && (got.Some? <==> seg.header.syn && !seg.header.rst && a.destination.port == b.source.port)
            && (got.None? ==> b' == b)
  {
    WrapFits(a, seg);
    Arrives(a, seg);
  }

  /** Of any datagram at all, built by whom it may be: it is taken exactly when it is TCP, its
      checksum over pseudo-header and payload verifies, its header is whole, and it is for this
      connection, or, while listening, a first SYN to this port. What is taken belongs to the
      configuration there is afterwards. */
  lemma UnwrapTakesIff(a: Adapter, d: Datagram)
    ensures var (got, a') := UnwrapTcpInIp(a, d);
            var p := ParseSegment(d.payload, d.header.PseudoChecksum());
            && (got.Some? <==>
                  && d.header.proto == 6
                  && ValueOf(AddBytes(Checksum(0, false), PseudoHeader(d.header) + d.payload)) == 0
                  && p.result == NoError
                  && p.segment.header.dport == a.source.port
                  && (if a.listening then p.segment.header.syn && !p.segment.header.rst
                      else d.header.dst == a.source.ip && d.header.src == a.destination.ip &&
                           p.segment.header.sport == a.destination.port))
            && (got.Some? ==>
                  && got.value == p.segment && !a'.listening
                  && a'.source == Endpoint(d.header.dst, p.segment.header.dport)
                  && a'.destination == Endpoint(d.header.src, p.segment.header.sport))
            && (got.None? ==> a' == a)
  {
    ChecksumCoversPseudoHeader(d.header, d.payload);
    TcpWire.AcceptsIff(d.payload, d.header.PseudoChecksum());
  }

  class TCPOverIPv4Adapter {
    var source: Endpoint
    var destination: Endpoint
    var listening: bool

    function State(): Adapter reads this { Adapter(source, destination, listening) }

    constructor (source: Endpoint, destination: Endpoint, listening: bool)
      ensures State() == Adapter(source, destination, listening)
    {
      this.source, this.destination, this.listening := source, destination, listening;
    }

    /** Sets the segment's ports, which the caller sees, and wraps it. */
    method WrapInIp(seg: TcpSegment) returns (sent: TcpSegment, d: Option<Datagram>)
      ensures sent == WithPorts(State(), seg) && d == WrapTcpInIp(State(), seg)
    {
      sent := seg.(header := seg.header.(sport := source.port, dport := destination.port));
      var h := DEFAULT_HEADER;
      h := h.(src := source.ip);
      h := h.(dst := destination.ip);
      h := h.(len := (h.hlen * 4 + sent.header.doff * 4 + |sent.payload|) % TWO16);
      var payload := SerializeSegment(sent, h.PseudoChecksum());
      d := if payload.None? then None else Some(Datagram(h, payload.value));
    }

    method UnwrapFromIp(d: Datagram) returns (seg: Option<TcpSegment>)
      modifies this
      ensures (seg, State()) == UnwrapTcpInIp(old(State()), d)
    {
      seg := None;
      if !listening && d.header.dst != source.ip {
        return;
      }
      if !listening && d.header.src != destination.ip {
        return;
      }
      if d.header.proto != PROTO_TCP {
        return;
      }
      var parsed := ParseSegment(d.payload, d.header.PseudoChecksum());
      if parsed.result != NoError {
        return;
      }
      var tcpSeg := parsed.segment;
      if tcpSeg.header.dport != source.port {
        return;
      }
      if listening {
        if tcpSeg.header.syn && !tcpSeg.header.rst {
          source := Endpoint(d.header.dst, source.port);
          destination := Endpoint(d.header.src, tcpSeg.header.sport);
          listening := false;
        } else {
          return;
        }
      }
      if tcpSeg.header.sport != destination.port {
        return;
      }
      seg := Some(tcpSeg);
    }
  }
}
