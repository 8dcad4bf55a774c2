/** TCP states read off the sender and the receiver (tcp_state.{hh,cc}). */
module TcpStateModel {
  import opened Types
  import opened StreamModel
  import opened SenderModel
  import opened ReceiverModel

  datatype SenderSummary = SenderError | Closed | SynSent | SynAcked | FinSent | FinAcked
  datatype ReceiverSummary = ReceiverError | Listen | SynRecv | FinRecv

  datatype TcpState = TcpState(sender: SenderSummary, receiver: ReceiverSummary, active: bool, linger: bool)

  function SummarizeReceiver(r: Receiver): ReceiverSummary {
    if r.reassembly.out.error then ReceiverError
    else if Ackno(r).None? then Listen
    else if r.reassembly.out.ended then FinRecv
    else SynRecv
  }

  function SummarizeSender(s: Sender): SenderSummary {
    if s.stream.error then SenderError
    else if s.next == 0 then Closed
    else if s.next == s.flight then SynSent
    else if !Eof(s.stream) then SynAcked
    else if s.next < |s.stream.all| + 2 then SynAcked
    else if s.flight != 0 then FinSent
    else FinAcked
  }

  function Summarize(s: Sender, r: Receiver, active: bool, linger: bool): TcpState {
    TcpState(SummarizeSender(s), SummarizeReceiver(r), active, active && linger)
  }

  /** The official LISTEN state, in which the connection ignores everything but SYN. */
  const LISTEN := TcpState(Closed, Listen, true, true)

  function Rank(s: SenderSummary): nat {
    match s
    case Closed => 0
    case SynSent => 1
    case SynAcked => 2
    case FinSent => 3
    case FinAcked => 4
    case SenderError => 5
  }

  function ReceiverRank(r: ReceiverSummary): nat {
    match r
    case Listen => 0
    case SynRecv => 1
    case FinRecv => 2
    case ReceiverError => 3
  }
}
