/** What a connection answers: which arriving segments it acknowledges, what becomes of the
    acknos and windows they carry, what an application's write and the passing of time send. */
module ConnectionReplies {
  import opened Numbers
  import opened WrappingIntegers
  import opened ByteStreams
  import opened TcpSegments
  import Rx = TcpReceivers
  import opened TcpSenders
  import opened SenderProofs
  import SenderRuns
  import opened SenderWindows
  import opened TcpConnections
  import opened TcpStates
  import opened ConnectionProofs
  import opened ConnectionRuns

  // ----- what goes out -----

  /** `seg` as it leaves a connection with receiver `r`: with ackno and window once the peer's
      SYN is known. */
  function OnTheWire(r: Rx.Receiver, seg: TcpSegment): TcpSegment
    requires r.Valid()
  {
    if !r.synReceived then seg
    else
      var h := seg.header.(ack := true, ackno := Wrap(r.AbsAckno(), r.isn), win := r.WindowSize() % 0x1_0000);
      TcpSegment(h, seg.payload)
  }

  /** From `c` to `c'` just `segs` went out, in order, and nothing is left in the queue. */
  ghost predicate SentOut(c: Connection, c': Connection, segs: seq<TcpSegment>)
    requires c'.Valid()
  {
    && c'.sender.out == []
    && |c'.out| == |c.out| + |segs| && c.out <= c'.out
    && forall i :: 0 <= i < |segs| ==> c'.out[|c.out| + i] == OnTheWire(c'.receiver, segs[i])
  }

  lemma SendDataSends(c: Connection)
    requires c.Valid() && Plain(c.sender.out)
    ensures SentOut(c, SendData(c), c.sender.out)
    ensures SendData(c).sender == c.sender.(out := []) && SendData(c).receiver == c.receiver
    ensures SendData(c).sinceReceived == c.sinceReceived
  {
    StampAllStamps(c.receiver, c.sender.out);
  }

  /** A segment that holds no number, at number `n`. */
  function Empty(isn: u32, n: nat): TcpSegment { TcpSegment(EMPTY_HEADER.(seqno := Wrap(n, isn)), []) }

  // ----- which segments are answered, heeded and ignored -----

  /** The segment is due an answer whatever else there is to send: a SYN before ours was
      answered, numbers while our own stream is open, a FIN after ours, anything before theirs
      once ours was acknowledged. */
  predicate Due(c: Connection, seg: TcpSegment)
    requires c.Valid()
  {
    match StateOf(c).sender
    case Closed => false
    case SynSent => !c.receiver.synReceived && seg.header.syn
    case SynAcked => !c.Eof() && seg.LengthInSequenceSpace() > 0
    case FinSent => !c.InboundEnded() && seg.header.fin
    case FinAcked => !c.InboundEnded() || seg.header.fin
    case SenderError => false
  }

  /** The segment has no part in what the state waits for. */
  predicate Ignored(c: Connection, seg: TcpSegment)
    requires c.Valid()
  {
    match StateOf(c).sender
    case Closed => !seg.header.syn
    case SynSent => !c.receiver.synReceived && !seg.header.syn
    case SynAcked => false
    case FinSent => !c.InboundEnded() && !seg.header.fin && !seg.header.ack
    case FinAcked => c.InboundEnded() && !seg.header.fin
    case SenderError => false
  }

  /** The segment's ackno and window reach the sender. */
  predicate Heeded(c: Connection, seg: TcpSegment)
    requires c.Valid()
  {
    && !Ignored(c, seg) && StateOf(c).sender != Closed
    && (StateOf(c).sender == SynSent && !c.receiver.synReceived ==> seg.header.ack)
  }

  lemma HeededIsUsed(c: Connection, seg: TcpSegment)
    requires Inv(c) && c.active && !seg.header.rst
    ensures Heeded(c, seg) <==> UsesAck(c, seg)
  {
    InvCounts(c);
  }

  // ----- an arriving segment -----

  /** In SYN-RCVD the queue stays where it is. */
  predicate QueueStays(c: Connection)
    requires c.Valid()
  {
    StateOf(c).sender == SynSent && c.receiver.synReceived && !c.InboundEnded()
  }

  /** States in which an arriving segment makes the connection send what it can. */
  predicate Refills(c: Connection)
    requires c.Valid()
  {
    var s := StateOf(c).sender;
    s == Closed || s == SynAcked || ((s == SynSent || s == FinSent) && c.InboundEnded())
  }

  /** The receiver's and the sender's part in a segment that is not ignored. */
  function Taken(c: Connection, seg: TcpSegment): (t: Connection)
    requires c.Valid()
    ensures t.Valid()
  {
    var s := if Heeded(c, seg) then AckReceived(c.sender, seg.header.ackno, seg.header.win) else c.sender;
    c.(sinceReceived := 0, receiver := Rx.SegmentReceived(c.receiver, seg), sender := s)
  }

  /** What follows: the answer, if due, and what can be sent. */
  function Answered(t: Connection, due: bool, refill: bool): (c': Connection)
    requires t.Valid()
    ensures c'.Valid()
  {
    var e := if due then QueueEmpty(t) else t;
    SendData(if refill then Fill(e) else e)
  }

  lemma AnsweredSender(t: Connection, due: bool, refill: bool)
    requires t.Valid()
    ensures var s := if due then SendEmpty(t.sender) else t.sender;
            Answered(t, due, refill).sender == (if refill then FillWindow(s) else s).(out := [])
  {
    SendDataKeepsSender(if due then QueueEmpty(t) else t);
    SendDataKeepsSender(Fill(if due then QueueEmpty(t) else t));
  }

  lemma SendDataKeepsSender(c: Connection)
    requires c.Valid()
    ensures SendData(c).sender == c.sender.(out := [])
  {
  }

  /** What a segment makes of a connection, by the state's own name. */
  function Table(c: Connection, seg: TcpSegment): (c': Connection)
    requires c.Valid()
    ensures c'.Valid()
  {
    if Ignored(c, seg) then c.(sinceReceived := 0)
    else if QueueStays(c) then Taken(c, seg)
    else Answered(Taken(c, seg), Due(c, seg), Refills(c))
  }

  lemma TakenIs(c: Connection, seg: TcpSegment)
    requires c.Valid()
    ensures var c1 := c.(sinceReceived := 0);
            Taken(c, seg) == if Heeded(c, seg) then TakeBoth(c1, seg) else TakeSegment(c1, seg)
  {
  }

  lemma OpeningIs(c: Connection, seg: TcpSegment)
    requires Inv(c) && c.active && !seg.header.rst
    requires Dispatch(c) == InListen || Dispatch(c) == InSynSent || Dispatch(c) == InSynRcvd
    ensures Handle(c.(sinceReceived := 0), seg) == Table(c, seg)
  {
    InvCounts(c);
    DispatchOpening(c);
    TakenIs(c, seg);
    RestartedDispatch(c);
  }

  lemma EstablishedIs(c: Connection, seg: TcpSegment)
    requires Inv(c) && c.active && !seg.header.rst && Dispatch(c) == InEstablished
    ensures Handle(c.(sinceReceived := 0), seg) == Table(c, seg)
  {
    EstablishedTable(c, seg);
    TakenIs(c, seg);
    RestartedDispatch(c);
  }

  lemma EstablishedTable(c: Connection, seg: TcpSegment)
    requires Inv(c) && c.active && Dispatch(c) == InEstablished
    ensures !Ignored(c, seg) && !QueueStays(c) && Refills(c) && Heeded(c, seg)
    ensures Due(c, seg) <==> seg.LengthInSequenceSpace() > 0
  {
    InvCounts(c);
    DispatchOpen(c);
  }

  lemma ClosingIs(c: Connection, seg: TcpSegment)
    requires Inv(c) && c.active && !seg.header.rst
    requires Dispatch(c) == InFinWait1 || Dispatch(c) == InFinWait2 || Dispatch(c) == InTimeWait
    ensures Handle(c.(sinceReceived := 0), seg) == Table(c, seg)
  {
    ClosingTable(c, seg);
    TakenIs(c, seg);
    RestartedDispatch(c);
  }

  lemma ClosingTable(c: Connection, seg: TcpSegment)
    requires Inv(c) && c.active
    requires Dispatch(c) == InFinWait1 || Dispatch(c) == InFinWait2 || Dispatch(c) == InTimeWait
    ensures !QueueStays(c) && !Refills(c) && (Heeded(c, seg) <==> !Ignored(c, seg))
    ensures Ignored(c, seg) <==>
              && Dispatch(c) != InFinWait2 && !seg.header.fin
              && (Dispatch(c) == InFinWait1 ==> !seg.header.ack)
    ensures Due(c, seg) <==> Dispatch(c) == InFinWait2 || seg.header.fin
  {
    InvCounts(c);
    DispatchClosing(c);
  }

  lemma OtherwiseIs(c: Connection, seg: TcpSegment)
    requires Inv(c) && c.active && !seg.header.rst && Dispatch(c) == Otherwise
    ensures Handle(c.(sinceReceived := 0), seg) == Table(c, seg)
  {
    OtherwiseTable(c, seg);
    TakenIs(c, seg);
    RestartedDispatch(c);
    assert Table(c, seg) == SendData(Fill(TakeBoth(c.(sinceReceived := 0), seg)));
  }

  lemma OtherwiseTable(c: Connection, seg: TcpSegment)
    requires Inv(c) && c.active && Dispatch(c) == Otherwise
    ensures !Ignored(c, seg) && !QueueStays(c) && !Due(c, seg) && Refills(c) && Heeded(c, seg)
  {
    InvCounts(c);
  }

  /** The chain of tests comes down to the table. */
  lemma ArrivalIs(c: Connection, seg: TcpSegment)
    requires Inv(c) && c.active && !seg.header.rst
    ensures SegmentReceived(c, seg) == Table(c, seg)
  {
    match Dispatch(c)
    case InListen => OpeningIs(c, seg);
    case InSynSent => OpeningIs(c, seg);
    case InSynRcvd => OpeningIs(c, seg);
    case InEstablished => EstablishedIs(c, seg);
    case InFinWait1 => ClosingIs(c, seg);
    case InFinWait2 => ClosingIs(c, seg);
    case InTimeWait => ClosingIs(c, seg);
    case Otherwise => OtherwiseIs(c, seg);
  }

  /** What the sender's part queues is new, and follows what it sent before. */
  lemma TakenQueues(c: Connection, seg: TcpSegment) returns (acked: seq<TcpSegment>)
    requires Inv(c) && c.active && LegalSegment(c, seg) && !seg.header.rst
    ensures var s := Taken(c, seg).sender;
            && Tiling(s) && s.isn == c.sender.isn && s.next >= c.sender.next
            && s.out == c.sender.out + acked && Plain(acked) && Sequence(s.isn, s.stream, acked, c.sender.next, s.next)
            && (s.next == 0 <==> c.sender.next == 0)
  {
    HeededIsUsed(c, seg);
    if Heeded(c, seg) {
      acked := AckKeepsTiling(c.sender, seg.header.ackno, seg.header.win);
      InvCounts(c);
    } else {
      acked := [];
      assert c.sender.out + [] == c.sender.out;
    }
  }

  /** What goes out in answer: what was queued, the new numbers from `lo` to `mid`, a segment
      that holds none if one is due, and the new numbers from `mid` on. */
  ghost predicate Replies(c: Connection, lo: nat, queue: seq<TcpSegment>, acked: seq<TcpSegment>, mid: nat, due: bool,
                          more: seq<TcpSegment>, c': Connection)
    requires c'.Valid()
  {
    var s := c'.sender;
    && SentOut(c, c', queue + acked + (if due then [Empty(s.isn, mid)] else []) + more)
    && Sequence(s.isn, s.stream, acked, lo, mid) && Sequence(s.isn, s.stream, more, mid, s.next)
  }

  /** The queue `before` goes out, and then what a refill sends. */
  lemma QueueThenMore(c: Connection, e: Connection, before: seq<TcpSegment>, acked: seq<TcpSegment>,
        lo: nat, refill: bool)
    returns (more: seq<TcpSegment>)
    requires e.Valid() && e.out == c.out && Tiling(e.sender) && Plain(before) && e.sender.out == before
    requires Sequence(e.sender.isn, e.sender.stream, acked, lo, e.sender.next)
    ensures var c' := SendData(if refill then Fill(e) else e);
            var s := c'.sender;
            && SentOut(c, c', before + more) && c'.receiver == e.receiver && s.isn == e.sender.isn
            && Sequence(s.isn, s.stream, acked, lo, e.sender.next)
            && Sequence(s.isn, s.stream, more, e.sender.next, s.next)
    ensures !refill ==> more == []
  {
    if refill {
      more := FillSendsPlain(e.sender);
      SequenceGrows(e.sender.isn, e.sender.stream, FillWindow(e.sender).stream, acked, lo, e.sender.next);
      SendDataSends(Fill(e));
    } else {
      more := [];
      assert before + [] == before;
      SendDataSends(e);
    }
  }

  /** The answer goes out after what was queued. */
  lemma AnsweredReplies(c: Connection, t: Connection, queue: seq<TcpSegment>, acked: seq<TcpSegment>, lo: nat,
        due: bool, refill: bool)
    returns (more: seq<TcpSegment>)
    requires c.Valid() && t.Valid() && t.out == c.out && Tiling(t.sender) && Plain(queue) && Plain(acked)
    requires t.sender.out == queue + acked && Sequence(t.sender.isn, t.sender.stream, acked, lo, t.sender.next)
    ensures Replies(c, lo, queue, acked, t.sender.next, due, more, Answered(t, due, refill))
    ensures !refill ==> more == []
    ensures Answered(t, due, refill).receiver == t.receiver
  {
    var e := if due then QueueEmpty(t) else t;
    var before := queue + acked + (if due then [Empty(t.sender.isn, t.sender.next)] else []);
    assert e.sender.out == before;
    SameTiling(t.sender, e.sender);
    more := QueueThenMore(c, e, before, acked, lo, refill);
  }

  lemma FillSendsPlain(s: Sender) returns (news: seq<TcpSegment>)
    requires Tiling(s)
    ensures var e := FillWindow(s);
            && e.out == s.out + news && Plain(news) && e.isn == s.isn && Grows(s.stream, e.stream)
            && Sequence(e.isn, e.stream, news, s.next, e.next)
  {
    news := FillSends(s);
  }

  /** Outside SYN-RCVD a segment that is not ignored moves the whole queue out, with the answer
      that is due: every number given out goes out, in order, under the ackno and window the
      receiver has once it took the segment. */
  lemma ArrivalReplies(c: Connection, seg: TcpSegment) returns (acked: seq<TcpSegment>, mid: nat, more: seq<TcpSegment>)
    requires Inv(c) && c.active && LegalSegment(c, seg) && !seg.header.rst
    requires !Ignored(c, seg) && !QueueStays(c)
    ensures var c' := SegmentReceived(c, seg);
            && Replies(c, c.sender.next, c.sender.out, acked, mid, Due(c, seg), more, c')
            && (!Refills(c) ==> more == [])
            && c'.receiver == Rx.SegmentReceived(c.receiver, seg)
  {
    ArrivalIs(c, seg);
    acked := TakenQueues(c, seg);
    mid := Taken(c, seg).sender.next;
    more := AnsweredReplies(c, Taken(c, seg), c.sender.out, acked, c.sender.next, Due(c, seg), Refills(c));
  }

  /** The last thing `c'` sent is an acknowledgment of all its receiver has. */
  predicate Acknowledges(c: Connection, c': Connection) {
    && |c'.out| > |c.out|
    && var h := c'.out[|c'.out| - 1].header;
       h.ack && !h.rst && h.ackno == Wrap(c'.receiver.AbsAckno(), c'.receiver.isn)
  }

  /** The peer's SYN is known once a segment is due an answer. */
  lemma DueKnowsSyn(c: Connection, seg: TcpSegment)
    requires Inv(c) && c.active && Due(c, seg)
    ensures Rx.SegmentReceived(c.receiver, seg).synReceived && !Ignored(c, seg) && !QueueStays(c)
  {
    InvCounts(c);
    Rx.ReceiveKeepsInv(c.receiver, seg);
  }

  lemma SendsAcknowledge(c: Connection, c': Connection, segs: seq<TcpSegment>)
    requires c.Valid() && c'.Valid() && SentOut(c, c', segs) && segs != [] && Plain(segs) && c'.receiver.synReceived
    ensures Acknowledges(c, c')
  {
    var i := |segs| - 1;
    assert c'.out[|c.out| + i] == OnTheWire(c'.receiver, segs[i]);
    assert PlainSegment(segs[i]);
  }

  lemma PlainParts(isn: u32, queue: seq<TcpSegment>, acked: seq<TcpSegment>, mid: nat, due: bool, more: seq<TcpSegment>)
    requires Plain(queue) && Plain(acked) && Plain(more)
    ensures Plain(queue + acked + (if due then [Empty(isn, mid)] else []) + more)
  {
  }

  /** Every segment that is due an answer gets one. */
  lemma DueIsAcknowledged(c: Connection, seg: TcpSegment)
    requires Inv(c) && c.active && LegalSegment(c, seg) && !seg.header.rst && Due(c, seg)
    ensures Acknowledges(c, SegmentReceived(c, seg))
  {
    var c' := SegmentReceived(c, seg);
    DueKnowsSyn(c, seg);
    var acked, mid, more := ArrivalReplies(c, seg);
    SequencePlain(c'.sender.isn, c'.sender.stream, acked, c.sender.next, mid);
    SequencePlain(c'.sender.isn, c'.sender.stream, more, mid, c'.sender.next);
    PlainParts(c'.sender.isn, c.sender.out, acked, mid, true, more);
    SendsAcknowledge(c, c', c.sender.out + acked + [Empty(c'.sender.isn, mid)] + more);
  }

  /** Acknowledgments by state: numbers in ESTABLISHED and CLOSE-WAIT while the own stream is
      open, a SYN in SYN-SENT, a FIN in FIN-WAIT-1 and TIME-WAIT, anything in FIN-WAIT-2. */
  lemma ArrivalIsAcknowledged(c: Connection, seg: TcpSegment)
    requires Inv(c) && c.active && LegalSegment(c, seg) && !seg.header.rst
    requires
      || ((StateOf(c) == Official(ESTABLISHED) || StateOf(c) == Official(CLOSE_WAIT)) && !c.Eof() &&
            |seg.payload| + (if seg.header.syn then 1 else 0) + (if seg.header.fin then 1 else 0) > 0)
      || (StateOf(c) == Official(SYN_SENT) && seg.header.syn)
      || ((StateOf(c) == Official(FIN_WAIT_1) || StateOf(c) == Official(TIME_WAIT)) && seg.header.fin)
      || StateOf(c) == Official(FIN_WAIT_2)
    ensures Acknowledges(c, SegmentReceived(c, seg))
  {
    InvCounts(c);
    DueIsAcknowledged(c, seg);
  }

  lemma {:induction false} SequenceIsEmptyIff(isn: u32, s: Stream, segs: seq<TcpSegment>, lo: nat, hi: nat)
    requires Sequence(isn, s, segs, lo, hi)
    ensures lo <= hi && (segs == [] <==> lo == hi)
    decreases |segs|
  {
    if segs != [] {
      SequenceIsEmptyIff(isn, s, segs[..|segs| - 1], lo, hi - segs[|segs| - 1].LengthInSequenceSpace());
    }
  }

  /** A segment that is not ignored brings something out exactly when an answer is due, when
      something was queued, or when there is something new to send. In FIN-WAIT-1 therefore the
      numbers of a segment without FIN are not acknowledged by themselves, nor in ESTABLISHED
      and CLOSE-WAIT while the own FIN is due. */
  lemma ArrivalSendsIff(c: Connection, seg: TcpSegment)
    requires Inv(c) && c.active && LegalSegment(c, seg) && !seg.header.rst
    requires !Ignored(c, seg) && !QueueStays(c)
    ensures var c' := SegmentReceived(c, seg);
            |c'.out| > |c.out| <==> Due(c, seg) || c.sender.out != [] || c'.sender.next > c.sender.next
  {
    var s := SegmentReceived(c, seg).sender;
    var acked, mid, more := ArrivalReplies(c, seg);
    SequenceIsEmptyIff(s.isn, s.stream, acked, c.sender.next, mid);
    SequenceIsEmptyIff(s.isn, s.stream, more, mid, s.next);
  }

  // ----- the window -----

  /** What may go out has gone out: everything is read or the window is full, and a FIN that is
      due was sent or the window is full. */
  predicate Filled(s: Sender)
    requires s.Valid()
  {
    && (s.stream.BufferSize() == 0 || s.bif >= Usable(s.peerWin))
    && (s.stream.Eof() ==> SenderProofs.FinSent(s) || s.bif >= Usable(s.peerWin))
  }

  lemma FillIsFilled(s: Sender)
    requires Tiling(s) && s.bif < s.next
    ensures Filled(FillWindow(s))
  {
    if s.bif <= s.Window() {
      WindowIsFilled(s);
      FillKeepsWindow(s);
    } else {
      var news := FillFillsWindow(s);
      FillKeepsWindow(s);
      var sent := FillSends(s);
    }
  }

  /** With the SYN acknowledged and the own FIN not sent, an arriving segment leaves nothing
      unsent that the window it may have opened has room for. */
  lemma ArrivalFills(c: Connection, seg: TcpSegment)
    requires Inv(c) && c.active && LegalSegment(c, seg) && !seg.header.rst && StateOf(c).sender == SynAcked
    ensures Filled(SegmentReceived(c, seg).sender)
  {
    ArrivalIs(c, seg);
    SynAckedTaken(c, seg);
    AnsweredFills(Taken(c, seg), Due(c, seg));
  }

  lemma SynAckedTaken(c: Connection, seg: TcpSegment)
    requires Inv(c) && c.active && LegalSegment(c, seg) && !seg.header.rst && StateOf(c).sender == SynAcked
    ensures var s := Taken(c, seg).sender; Tiling(s) && s.bif < s.next
    ensures !Ignored(c, seg) && !QueueStays(c) && Refills(c)
  {
    InvCounts(c);
    HeededIsUsed(c, seg);
    var acked := AckKeepsTiling(c.sender, seg.header.ackno, seg.header.win);
    AckedMeansSome(c.sender, Taken(c, seg).sender);
  }

  lemma AnsweredFills(t: Connection, due: bool)
    requires t.Valid() && Tiling(t.sender) && t.sender.bif < t.sender.next
    ensures Filled(Answered(t, due, true).sender)
  {
    var s := if due then SendEmpty(t.sender) else t.sender;
    AnsweredSender(t, due, true);
    SameTiling(t.sender, s);
    FillIsFilled(s);
    FillIgnoresQueue(FillWindow(s));
  }

  lemma AckedMeansSome(s: Sender, e: Sender)
    requires AckedUpTo(s) <= AckedUpTo(e) && s.next > s.bif
    ensures e.bif < e.next
  {
  }

  lemma FillIgnoresQueue(s: Sender)
    requires s.Valid() && Filled(s)
    ensures Filled(s.(out := []))
  {
  }

  // ----- the ackno -----

  /** What a heeded ack does to the sender `s`: one of a number beyond the next nothing; one
      that covers something forgets it, counts from its number and restarts the timer; and
      either way the window it carries is the window from then on. */
  ghost predicate Heeds(s: Sender, ackno: u32, win: u16, e: Sender) {
    var n := Offset(Wrap(s.next, s.isn), ackno);
    if n < 0 then
      Forgets(s, 0, e) && AckedUpTo(e) == AckedUpTo(s) && SameClock(s, e) && e.peerWin == s.peerWin
    else if Covers(s, s.next - n) then
      && Forgets(s, s.next - n, e) && AckedUpTo(e) == s.next - n
      && e.time == 0 && e.retx == 0 && e.rto == s.defaultRto && e.peerWin == win
    else
      Forgets(s, 0, e) && AckedUpTo(e) == AckedUpTo(s) && SameClock(s, e) && e.peerWin == win
  }

  predicate SameClock(s: Sender, e: Sender) { e.time == s.time && e.retx == s.retx && e.rto == s.rto }

  lemma AckHeeds(s: Sender, ackno: u32, win: u16)
    requires Tiling(s) && Short(s) && WindowBounded(s) && Harmless(s, ackno)
    ensures Heeds(s, ackno, win, AckReceived(s, ackno, win))
  {
    NothingInFlightIff(s);
    AckTakesWindow(s, ackno, win);
    if Offset(Wrap(s.next, s.isn), ackno) >= 0 {
      AckExactly(s, ackno, win);
    }
  }

  /** Sending more later leaves what an ack did. */
  lemma HeedsLater(s: Sender, ackno: u32, win: u16, e: Sender, f: Sender)
    requires Heeds(s, ackno, win, e) && s.next <= e.next
    requires AckedUpTo(f) == AckedUpTo(e) && SameClock(e, f) && f.peerWin == e.peerWin
    requires forall k :: k in e.cache ==> k in f.cache
    requires forall k :: k in f.cache ==> (k in e.cache && f.cache[k] == e.cache[k]) || e.next < k
    requires forall k :: k in s.cache ==> k <= s.next
    ensures Heeds(s, ackno, win, f)
  {
  }

  /** From `e` to `f` at most more was sent. */
  ghost predicate OnlySends(e: Sender, f: Sender) {
    && f.stream == e.stream.(nread := f.stream.nread)
    && AckedUpTo(f) == AckedUpTo(e) && SameClock(e, f) && f.peerWin == e.peerWin
    && (forall k :: k in e.cache ==> k in f.cache)
    && (forall k :: k in f.cache ==> (k in e.cache && f.cache[k] == e.cache[k]) || e.next < k)
  }

  lemma FillOnlySends(s: Sender)
    requires Tiling(s)
    ensures OnlySends(s, FillWindow(s))
  {
    var news := FillSends(s);
    assert forall k :: k in s.cache.Keys ==> k in FillWindow(s).cache.Keys;
  }

  lemma QueueDoesNotMatter(e: Sender, e': Sender, f: Sender)
    requires e' == e.(out := e'.out) && OnlySends(e', f)
    ensures OnlySends(e, f.(out := []))
  {
  }

  lemma AnsweredOnlySends(t: Connection, due: bool, refill: bool)
    requires t.Valid() && Tiling(t.sender)
    ensures OnlySends(t.sender, Answered(t, due, refill).sender)
  {
    var s := if due then SendEmpty(t.sender) else t.sender;
    AnsweredSender(t, due, refill);
    SameTiling(t.sender, s);
    FillOnlySends(s);
    QueueDoesNotMatter(t.sender, s, FillWindow(s));
  }

  lemma ArrivalOnlySends(c: Connection, seg: TcpSegment)
    requires Inv(c) && c.active && LegalSegment(c, seg) && !seg.header.rst && !Ignored(c, seg)
    ensures OnlySends(Taken(c, seg).sender, SegmentReceived(c, seg).sender)
  {
    ArrivalIs(c, seg);
    var acked := TakenQueues(c, seg);
    AnsweredOnlySends(Taken(c, seg), Due(c, seg), Refills(c));
  }

  /** An arriving segment takes from the outbound stream and adds nothing to it. */
  lemma ArrivalKeepsStream(c: Connection, seg: TcpSegment)
    requires Inv(c) && c.active && LegalSegment(c, seg) && !seg.header.rst && !Ignored(c, seg)
    ensures var s := SegmentReceived(c, seg).sender.stream;
            s.log == c.sender.stream.log && s.ended == c.sender.stream.ended
  {
    ArrivalOnlySends(c, seg);
    if Heeded(c, seg) {
      HeededIsUsed(c, seg);
      var acked := AckKeepsTiling(c.sender, seg.header.ackno, seg.header.win);
    }
  }

  /** An ack is not answered with an ack: in ESTABLISHED a segment without numbers brings
      nothing out when nothing is queued or written. */
  lemma AckIsNotAnswered(c: Connection, seg: TcpSegment)
    requires Inv(c) && c.active && LegalSegment(c, seg) && !seg.header.rst && StateOf(c).sender == SynAcked
    requires c.sender.out == [] && c.sender.stream.BufferSize() == 0 && !c.sender.stream.ended
    requires seg.LengthInSequenceSpace() == 0
    ensures SegmentReceived(c, seg).out == c.out
  {
    var c' := SegmentReceived(c, seg);
    InvCounts(c);
    ArrivalSendsIff(c, seg);
    RestartedClock(c, seg);
    SegmentKeepsInv(c, seg);
    ArrivalKeepsStream(c, seg);
    assert c'.sender.next <= |c'.sender.stream.log| + 1;
    assert c.out <= c'.out;
  }

  /** By state, the ackno and the window of an arriving segment take effect, or do not. */
  lemma ArrivalHeeds(c: Connection, seg: TcpSegment)
    requires Inv(c) && c.active && LegalSegment(c, seg) && !seg.header.rst
    ensures var s := SegmentReceived(c, seg).sender;
            if Heeded(c, seg) then Heeds(c.sender, seg.header.ackno, seg.header.win, s) else OnlySends(c.sender, s)
  {
    if Ignored(c, seg) {
      ArrivalIs(c, seg);
    } else {
      ArrivalOnlySends(c, seg);
      if Heeded(c, seg) {
        HeededIsUsed(c, seg);
        NothingInFlightIff(c.sender);
        AckHeeds(c.sender, seg.header.ackno, seg.header.win);
        var acked := TakenQueues(c, seg);
        HeedsLater(c.sender, seg.header.ackno, seg.header.win, Taken(c, seg).sender, SegmentReceived(c, seg).sender);
      }
    }
  }

  lemma AnsweredKeepsReceiver(t: Connection, due: bool, refill: bool)
    requires t.Valid()
    ensures var c' := Answered(t, due, refill); c'.receiver == t.receiver && c'.sinceReceived == t.sinceReceived
  {
    var e := if due then QueueEmpty(t) else t;
    SendDataKeepsClock(e);
    SendDataKeepsClock(Fill(e));
  }

  lemma SendDataKeepsClock(c: Connection)
    requires c.Valid()
    ensures SendData(c).sinceReceived == c.sinceReceived
  {
  }

  /** And by state the segment is handed to the receiver, or not. */
  lemma ArrivalIsReceived(c: Connection, seg: TcpSegment)
    requires Inv(c) && c.active && LegalSegment(c, seg) && !seg.header.rst
    ensures SegmentReceived(c, seg).receiver ==
              if Ignored(c, seg) then c.receiver else Rx.SegmentReceived(c.receiver, seg)
    ensures SegmentReceived(c, seg).sinceReceived == 0
  {
    ArrivalIs(c, seg);
    if !Ignored(c, seg) && !QueueStays(c) {
      AnsweredKeepsReceiver(Taken(c, seg), Due(c, seg), Refills(c));
    }
  }

  /** A window update, an ack that covers nothing new, opens the window for what is waiting:
      afterwards everything is read or the whole new window is in flight. */
  lemma WindowUpdateFills(c: Connection, seg: TcpSegment)
    requires Inv(c) && c.active && LegalSegment(c, seg) && !seg.header.rst && StateOf(c).sender == SynAcked
    requires Offset(Wrap(c.sender.next, c.sender.isn), seg.header.ackno) >= c.sender.bif
    requires seg.header.win >= c.sender.bif && seg.header.win > 0
    ensures var s := SegmentReceived(c, seg).sender;
            s.peerWin == seg.header.win && (s.stream.BufferSize() == 0 || s.bif == seg.header.win)
  {
    ArrivalFills(c, seg);
    ArrivalHeeds(c, seg);
    NothingInFlightIff(c.sender);
    UpdateStaysWithin(c, seg);
  }

  /** Only a fill adds to what is in flight, and none beyond the window. */
  lemma AnsweredStaysWithin(t: Connection, due: bool, refill: bool)
    requires t.Valid() && Tiling(t.sender)
    ensures var bif := Answered(t, due, refill).sender.bif; bif <= t.sender.bif || bif <= Usable(t.sender.peerWin)
  {
    var e := if due then QueueEmpty(t) else t;
    SameTiling(t.sender, e.sender);
    var news := FillSends(e.sender);
  }

  lemma TakenIsUpdate(c: Connection, seg: TcpSegment)
    requires Inv(c) && c.active && LegalSegment(c, seg) && !seg.header.rst && StateOf(c).sender == SynAcked
    requires Offset(Wrap(c.sender.next, c.sender.isn), seg.header.ackno) >= c.sender.bif
    ensures Taken(c, seg).sender == c.sender.(peerWin := seg.header.win)
  {
    HeededIsUsed(c, seg);
    NothingInFlightIff(c.sender);
    AckExactly(c.sender, seg.header.ackno, seg.header.win);
  }

  lemma UpdateStaysWithin(c: Connection, seg: TcpSegment)
    requires Inv(c) && c.active && LegalSegment(c, seg) && !seg.header.rst && StateOf(c).sender == SynAcked
    requires Offset(Wrap(c.sender.next, c.sender.isn), seg.header.ackno) >= c.sender.bif
    requires seg.header.win >= c.sender.bif && seg.header.win > 0
    ensures SegmentReceived(c, seg).sender.bif <= seg.header.win
  {
    InvCounts(c);
    ArrivalIs(c, seg);
    TakenIsUpdate(c, seg);
    SameTiling(c.sender, Taken(c, seg).sender);
    AnsweredStaysWithin(Taken(c, seg), Due(c, seg), Refills(c));
  }

  // ----- resets and closed connections -----

  /** A RST ends an active connection at once, with both streams in error and nothing sent. */
  lemma ResetArrives(c: Connection, seg: TcpSegment)
    requires c.Valid() && c.active && seg.header.rst
    ensures var c' := SegmentReceived(c, seg);
            && StateOf(c') == Official(RESET) && !c'.active
            && c'.receiver.Out() == c.receiver.Out().(error := true)
            && c'.sender.stream == c.sender.stream.(error := true)
            && c'.out == c.out && c'.sender.out == c.sender.out && c'.sinceReceived == 0
  {
  }

  /** An inactive connection takes nothing and does nothing on its own. */
  lemma InactiveIsDeaf(c: Connection, seg: TcpSegment, ms: nat)
    requires c.Valid() && !c.active
    ensures SegmentReceived(c, seg) == c && TcpConnections.Tick(c, ms) == c
  {
  }

  /** In SYN-RCVD what the ack of the SYN lets out stays queued. */
  lemma SynRcvdQueues(c: Connection, seg: TcpSegment) returns (acked: seq<TcpSegment>)
    requires Inv(c) && c.active && LegalSegment(c, seg) && !seg.header.rst && QueueStays(c)
    ensures var c' := SegmentReceived(c, seg);
            var s := c'.sender;
            && c'.out == c.out && s.out == c.sender.out + acked
            && Sequence(s.isn, s.stream, acked, c.sender.next, s.next)
  {
    InvCounts(c);
    ArrivalIs(c, seg);
    acked := TakenQueues(c, seg);
  }

  // ----- what the application does -----

  /** What a fill of the connection sends: the queue and the new numbers, in full segments, as
      many as the window allows once the SYN is acknowledged. */
  ghost predicate SentNew(c: Connection, s: Sender, c': Connection, news: seq<TcpSegment>)
    requires c'.Valid()
  {
    && SentOut(c, c', s.out + news)
    && Sequence(c'.sender.isn, c'.sender.stream, news, s.next, c'.sender.next)
    && (s.next > 0 ==> Packed(news))
    && (s.bif < s.next ==> Filled(c'.sender))
    && c'.receiver == c.receiver
  }

  lemma SameStart(c1: Connection, c: Connection, c': Connection, segs: seq<TcpSegment>)
    requires c'.Valid() && SentOut(c1, c', segs) && c1.out == c.out
    ensures SentOut(c, c', segs)
  {
  }

  lemma FillSendsPacked(s: Sender) returns (news: seq<TcpSegment>)
    requires Tiling(s)
    ensures var e := FillWindow(s);
            && e.out == s.out + news && Plain(news) && e.isn == s.isn && e.stream == s.stream.(nread := e.stream.nread)
            && Sequence(e.isn, e.stream, news, s.next, e.next) && (s.next > 0 ==> Packed(news))
  {
    news := FillSends(s);
    if s.next > 0 {
      var packed := FillFillsWindow(s);
      assert FillWindow(s).out[|s.out|..] == news == packed;
    }
  }

  lemma FillAndSendSends(c: Connection, c1: Connection) returns (news: seq<TcpSegment>)
    requires c1.Valid() && c1.out == c.out && c1.receiver == c.receiver && Tiling(c1.sender) && Plain(c1.sender.out)
    ensures SentNew(c, c1.sender, SendData(Fill(c1)), news)
    ensures SendData(Fill(c1)).sender.stream == c1.sender.stream.(nread := SendData(Fill(c1)).sender.stream.nread)
  {
    var s := c1.sender;
    news := FillSendsPacked(s);
    if s.bif < s.next {
      FillIsFilled(s);
      FillIgnoresQueue(FillWindow(s));
    }
    SendDataSends(Fill(c1));
    SameStart(c1, c, SendData(Fill(c1)), s.out + news);
  }

  /** A write takes the longest prefix there is room for, and sends what the window allows. */
  lemma WriteSends(c: Connection, data: seq<byte>) returns (news: seq<TcpSegment>)
    requires Inv(c) && !c.sender.stream.ended && data != []
    ensures var c' := Write(c, data);
            var room := c.sender.stream.capacity - (|c.sender.stream.log| - c.sender.stream.nread);
            && c'.sender.stream.log == c.sender.stream.log + (if |data| <= room then data else data[..room])
            && SentNew(c, c.sender, c', news)
  {
    var stream := c.sender.stream.Write(data);
    GrowthKeepsTiling(c.sender, stream);
    assert data[..|data|] == data;
    news := FillAndSendSends(c, c.(sender := c.sender.(stream := stream)));
  }

  /** An empty write does nothing, not even open the connection. */
  lemma EmptyWriteIsNothing(c: Connection)
    requires c.Valid()
    ensures Write(c, []) == c
  {
  }

  lemma EndInputSends(c: Connection) returns (news: seq<TcpSegment>)
    requires Inv(c)
    ensures SentNew(c, c.sender, EndInput(c), news) && EndInput(c).sender.stream.ended
  {
    var stream := c.sender.stream.(ended := true);
    GrowthKeepsTiling(c.sender, stream);
    news := FillAndSendSends(c, c.(sender := c.sender.(stream := stream)));
  }

  /** Opening sends the SYN. */
  lemma ConnectSendsSyn(c: Connection)
    requires Inv(c) && c.sender.next == 0 && c.sender.out == [] && !c.sender.stream.ended
    ensures SentOut(c, Connect(c), [TcpSegment(EMPTY_HEADER.(syn := true, seqno := c.sender.isn), [])])
    ensures Connect(c).sender.next == 1
  {
    FirstFillSendsSyn(c.sender);
    var news := FillSends(c.sender);
    SendDataSends(Fill(c));
  }

  /** Opening a connection that is open already, like any fill, sends what it can. */
  lemma ConnectSends(c: Connection) returns (news: seq<TcpSegment>)
    requires Inv(c)
    ensures SentNew(c, c.sender, Connect(c), news)
  {
    news := FillAndSendSends(c, c);
  }

  /** The application's read takes the oldest bytes and opens the window by as many. */
  lemma ReadOpensWindow(c: Connection, len: nat)
    requires c.Valid()
    ensures var c', out := ReadInbound(c, len), c.receiver.Out();
            var n := if len <= |out.log| - out.nread then len else |out.log| - out.nread;
            && c'.receiver.WindowSize() == c.receiver.WindowSize() + n
            && c'.receiver.Out() == out.(nread := out.nread + n)
            && c' == c.(receiver := c'.receiver) && c'.receiver.reassembler.segments == c.receiver.reassembler.segments
  {
  }

  // ----- time -----

  lemma ElapsedQueue(c: Connection, ms: nat)
    requires Inv(c) && c.active
    ensures var s, due := Elapse(c, ms).sender, SenderRuns.Due(c.sender, ms);
            && s.out == c.sender.out + (if due then [c.sender.cache[SenderRuns.Oldest(c.sender)]] else [])
            && Plain(s.out) && s.stream == c.sender.stream
            && (s.retx > 8 <==> due && c.sender.retx == 8 && c.sender.peerWin != 0)
  {
    TickStaysPlain(c.sender, ms);
    SenderRuns.TickSendsOldest(c.sender, ms);
    assert c.sender.out + [] == c.sender.out;
    TickCounts(c.sender, ms);
  }

  lemma TickCounts(s: Sender, ms: nat)
    requires s.Valid() && s.retx <= 8
    ensures var e := TcpSenders.Tick(s, ms);
            e.stream == s.stream && (e.retx > 8 <==> SenderRuns.Due(s, ms) && s.retx == 8 && s.peerWin != 0)
  {
  }

  /** A tick resets the connection exactly when the ninth retransmission is due, to an open
      window; then one RST goes out. Otherwise the queue goes out, and the oldest outstanding
      segment after it when its timeout has passed. */
  lemma TickSends(c: Connection, ms: nat)
    requires Inv(c) && c.active
    ensures var c' := TcpConnections.Tick(c, ms);
            var due := SenderRuns.Due(c.sender, ms);
            && c'.sinceReceived == c.sinceReceived + ms
            && if due && c.sender.retx == 8 && c.sender.peerWin != 0 then
                 StateOf(c') == Official(RESET) && c'.out == c.out + [TcpSegment(EMPTY_HEADER.(rst := true), [])]
               else
                 && SentOut(c, c', c.sender.out + (if due then [c.sender.cache[SenderRuns.Oldest(c.sender)]] else []))
                 && !c'.sender.stream.error && !c'.receiver.Out().error
                 && c'.sender == TcpSenders.Tick(c.sender, ms).(out := [])
  {
    var c1 := Elapse(c, ms);
    ElapsedQueue(c, ms);
    if c1.sender.retx > 8 {
      assert TcpConnections.Tick(c, ms) == ResetConnection(c1);
    } else {
      assert TcpConnections.Tick(c, ms) == SendData(c1);
      SendDataSends(c1);
    }
  }

  /** What ticks leave of a connection that probes a closed window: its clock at `k`, and every
      ring of it another copy of the oldest segment on the wire. */
  ghost predicate Probing(c: Connection, k: Clock, c': Connection)
    requires c.sender.cache != map[]
  {
    && Inv(c') && c'.active && c'.receiver == c.receiver
    && c'.sender == c.sender.(time := k.time, out := c'.sender.out)
    && |c'.out| + |c'.sender.out| == |c.out| + |c.sender.out| + k.rang
    && forall i :: |c.out| + |c.sender.out| <= i < |c'.out| ==>
         c'.out[i] == OnTheWire(c.receiver, c.sender.cache[SenderRuns.Oldest(c.sender)])
  }

  /** One tick against a closed window. */
  lemma ProbingTick(c: Connection, ms: nat)
    requires Inv(c) && c.active && c.sender.cache != map[] && c.sender.peerWin == 0
    ensures var e := TcpConnections.Tick(c, ms);
            var due := c.sender.time + ms >= c.sender.rto;
            && Inv(e) && e.active && e.receiver == c.receiver
            && e.sender == c.sender.(time := if due then 0 else c.sender.time + ms, out := [])
            && SentOut(c, e, c.sender.out + (if due then [c.sender.cache[SenderRuns.Oldest(c.sender)]] else []))
  {
    TickSends(c, ms);
    TickKeepsInv(c, ms);
    NothingInFlightIff(c.sender);
  }

  lemma WireGrows(c: Connection, e: Connection, from: nat, queue: seq<TcpSegment>, segs: seq<TcpSegment>, x: TcpSegment)
    requires e.Valid() && SentOut(c, e, queue + segs) && from <= |c.out| + |queue|
    requires forall seg :: seg in segs ==> seg == x
    requires queue == [] || from == |c.out| + |queue|
    requires forall i :: from <= i < |c.out| ==> c.out[i] == OnTheWire(e.receiver, x)
    ensures forall i :: from <= i < |e.out| ==> e.out[i] == OnTheWire(e.receiver, x)
  {
    forall i | from <= i < |e.out| ensures e.out[i] == OnTheWire(e.receiver, x) {
      if i >= |c.out| {
        var j := i - |c.out|;
        assert e.out[|c.out| + j] == OnTheWire(e.receiver, (queue + segs)[j]);
        assert (queue + segs)[j] == segs[j - |queue|] && segs[j - |queue|] in segs;
      } else {
        assert e.out[i] == c.out[i];
      }
    }
  }

  lemma ProbesOnce(c: Connection, k: Clock, c': Connection, ms: nat)
    requires c.sender.cache != map[] && c.sender.peerWin == 0
    requires Probing(c, k, c') && k.period == c.sender.rto
    requires c'.sender.out == [] || (c'.sender.out == c.sender.out && c'.out == c.out)
    ensures Probing(c, Steady(k, ms), TcpConnections.Tick(c', ms)) && TcpConnections.Tick(c', ms).sender.out == []
  {
    var e, oldest := TcpConnections.Tick(c', ms), c.sender.cache[SenderRuns.Oldest(c.sender)];
    ProbingTick(c', ms);
    WireGrows(c', e, |c.out| + |c.sender.out|, c'.sender.out, if k.time + ms >= k.period then [oldest] else [], oldest);
  }

  /** Ticks against a closed window never reset a connection, however long they go on: they send
      the oldest segment again whenever the timeout has passed, and count no retransmission. */
  lemma {:induction false} ProbingNeverResets(c: Connection, ms: seq<nat>)
    requires Inv(c) && c.active && c.sender.cache != map[] && c.sender.peerWin == 0
    ensures Probing(c, SteadyAll(Clock(c.sender.rto, c.sender.time, 0), ms), Ticks(c, ms))
    ensures SteadyAll(Clock(c.sender.rto, c.sender.time, 0), ms).period == c.sender.rto
    ensures if ms == [] then Ticks(c, ms) == c else Ticks(c, ms).sender.out == []
    decreases |ms|
  {
    if ms != [] {
      var front := ms[..|ms| - 1];
      ProbingNeverResets(c, front);
      ProbesOnce(c, SteadyAll(Clock(c.sender.rto, c.sender.time, 0), front), Ticks(c, front), ms[|ms| - 1]);
    }
  }
}
