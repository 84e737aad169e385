/** The states of sender and receiver as summarised for the connection, and how they advance. */
module TcpStates {
  import opened Words
  import opened ByteStreams
  import opened Sending
  import opened SenderInvariants
  import opened SenderRuns
  import opened Receiving

  datatype Summary = CLOSED | SYN_SENT | SYN_ACKED | FIN_SENT | FIN_ACKED | ERROR {
    function Rank(): nat {
      match this
      case CLOSED => 0
      case SYN_SENT => 1
      case SYN_ACKED => 2
      case FIN_SENT => 3
      case FIN_ACKED => 4
      case ERROR => 5
    }
  }

  function SenderSummary(s: Sender): Summary {
    if s.stream.error then ERROR
    else if s.nextSeqno == 0 then CLOSED
    else if s.nextSeqno == s.bytesFlying then SYN_SENT
    else if !s.stream.Eof() then SYN_ACKED
    else if s.nextSeqno < |s.stream.written| + 2 then SYN_ACKED
    else if s.bytesFlying > 0 then FIN_SENT
    else FIN_ACKED
  }

  /** The summary in terms of what was sent and acknowledged, without reference to the stream's buffer. */
  lemma SummaryMeaning(s: Sender)
    requires Accounts(s) && s.Shaped() && !s.stream.error
    ensures SenderSummary(s) == CLOSED <==> s.nextSeqno == 0
    ensures SenderSummary(s) == SYN_SENT <==> s.nextSeqno > 0 && s.ackAbs == 0
    ensures SenderSummary(s) == SYN_ACKED <==> s.ackAbs > 0 && !s.finSent
    ensures SenderSummary(s) == FIN_SENT <==> s.finSent && 0 < s.ackAbs < |s.stream.written| + 2
    ensures SenderSummary(s) == FIN_ACKED <==> s.finSent && s.ackAbs == |s.stream.written| + 2
  {
  }

  lemma SummaryAdvances(s: Sender, s': Sender)
    requires Accounts(s) && s.Shaped() && Accounts(s') && s'.Shaped() && Progress(s, s')
    ensures SenderSummary(s).Rank() <= SenderSummary(s').Rank()
  {
  }

  /** In every run the summary never moves backwards. */
  lemma SummaryNeverReturns(isn: Word32, rto: nat, cap: nat, ops: seq<Op>, j: nat)
    requires IsRun(isn, rto, cap, ops) && j <= |ops|
    ensures SenderSummary(After(isn, rto, cap, ops[..j])).Rank() <= SenderSummary(After(isn, rto, cap, ops)).Rank()
  {
    hide After, IsRun, Timed, OnlyCopies, AllGenuine, Tiles, Suffix, Accounts, Progress, SenderSummary;
    RunPrefix(isn, rto, cap, ops, j);
    EveryRunIsGood(isn, rto, cap, ops[..j]);
    EveryRunIsGood(isn, rto, cap, ops);
    EveryRunProgresses(isn, rto, cap, ops, j);
    SummaryAdvances(After(isn, rto, cap, ops[..j]), After(isn, rto, cap, ops));
  }

  datatype ReceiverState = LISTEN | SYN_RECV | FIN_RECV | BROKEN

  function ReceiverSummary(r: Receiver): ReceiverState {
    if r.asm.out.error then BROKEN
    else if r.Ackno().None? then LISTEN
    else if r.asm.out.ended then FIN_RECV
    else SYN_RECV
  }
}
