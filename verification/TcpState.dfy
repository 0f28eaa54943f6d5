/** The official names of the connection states, and the summary that is compared to them. */
module TcpStates {
  import opened TcpReceivers
  import opened TcpSenders
  import opened TcpConnections

  datatype ReceiverSummary = ReceiverError | Listen | SynRecv | FinRecv
  datatype SenderSummary = SenderError | Closed | SynSent | SynAcked | FinSent | FinAcked

  datatype TcpState = TcpState(sender: SenderSummary, receiver: ReceiverSummary, active: bool, linger: bool)

  datatype Name =
    | LISTEN | SYN_RCVD | SYN_SENT | ESTABLISHED | CLOSE_WAIT | LAST_ACK
    | FIN_WAIT_1 | FIN_WAIT_2 | CLOSING | TIME_WAIT | CLOSED | RESET

  /** The state with an official name. */
  function Official(name: Name): TcpState {
    match name
    case LISTEN => TcpState(Closed, Listen, true, true)
    case SYN_RCVD => TcpState(SynSent, SynRecv, true, true)
    case SYN_SENT => TcpState(SynSent, Listen, true, true)
    case ESTABLISHED => TcpState(SynAcked, SynRecv, true, true)
    case CLOSE_WAIT => TcpState(SynAcked, FinRecv, true, false)
    case LAST_ACK => TcpState(FinSent, FinRecv, true, false)
    case CLOSING => TcpState(FinSent, FinRecv, true, true)
    case FIN_WAIT_1 => TcpState(FinSent, SynRecv, true, true)
    case FIN_WAIT_2 => TcpState(FinAcked, SynRecv, true, true)
    case TIME_WAIT => TcpState(FinAcked, FinRecv, true, true)
    case RESET => TcpState(SenderError, ReceiverError, false, false)
    case CLOSED => TcpState(FinAcked, FinRecv, false, false)
  }

  function SummaryOfReceiver(r: Receiver): ReceiverSummary {
    if r.Out().error then ReceiverError
    else if r.Ackno().None? then Listen
    else if r.Out().ended then FinRecv
    else SynRecv
  }

  function SummaryOfSender(s: Sender): SenderSummary
    requires s.Valid()
  {
    if s.stream.error then SenderError
    else if s.next == 0 then Closed
    else if s.next == s.bif then SynSent
    else if !s.stream.Eof() then SynAcked
    else if s.next < |s.stream.log| + 2 then SynAcked
    else if s.bif != 0 then FinSent
    else FinAcked
  }

  function StateOf(c: Connection): TcpState
    requires c.Valid()
  {
    TcpState(SummaryOfSender(c.sender), SummaryOfReceiver(c.receiver), c.active, if c.active then c.linger else false)
  }
}
