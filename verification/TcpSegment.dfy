/** The fields of a TCP header and the segment that carries it. */
module TcpSegments {
  import opened Numbers

  /** Length of a header without options, in bytes. */
  const HEADER_LENGTH: nat := 20

  datatype TcpHeader = TcpHeader(
    sport: u16, dport: u16, seqno: u32, ackno: u32, doff: byte,
    urg: bool, ack: bool, psh: bool, rst: bool, syn: bool, fin: bool,
    win: u16, cksum: u16, uptr: u16)

  const EMPTY_HEADER := TcpHeader(0, 0, 0, 0, HEADER_LENGTH / 4, false, false, false, false, false, false, 0, 0, 0)

  datatype TcpSegment = TcpSegment(header: TcpHeader, payload: seq<byte>) {
    function LengthInSequenceSpace(): nat {
      |payload| + (if header.syn then 1 else 0) + (if header.fin then 1 else 0)
    }
  }
}
