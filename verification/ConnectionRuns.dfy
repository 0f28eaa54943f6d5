/** Whole runs of a connection: the official states, shutdown, giving up, TIME-WAIT and the
    acknowledgments it sends. */
module ConnectionRuns {
  import opened Numbers
  import opened ByteStreams
  import opened TcpSegments
  import Rx = TcpReceivers
  import opened TcpSenders
  import opened SenderProofs
  import opened SenderRuns
  import opened TcpConnections
  import opened TcpStates
  import opened ConnectionProofs

  datatype Event =
    | Arrive(seg: TcpSegment) | WriteBytes(data: seq<byte>) | Pass(ms: nat) | Finish | Open | ReadBytes(len: nat)

  function After(c: Connection, e: Event): (c': Connection)
    requires c.Valid()
    ensures c'.Valid()
  {
    match e
    case Arrive(seg) => SegmentReceived(c, seg)
    case WriteBytes(data) => TcpConnections.Write(c, data)
    case Pass(ms) => TcpConnections.Tick(c, ms)
    case Finish => EndInput(c)
    case Open => Connect(c)
    case ReadBytes(len) => ReadInbound(c, len)
  }

  /** What the owner and the network owe the connection: no write after the end of input, and
      no arriving ackno from before the initial sequence number while data is outstanding. */
  predicate Allowed(c: Connection, e: Event)
    requires c.Valid()
  {
    match e
    case Arrive(seg) => LegalSegment(c, seg)
    case WriteBytes(_) => !c.sender.stream.ended
    case _ => true
  }

  lemma EventKeepsInv(c: Connection, e: Event)
    requires ConnectionProofs.Inv(c) && Allowed(c, e)
    ensures ConnectionProofs.Inv(After(c, e))
  {
    match e
    case Arrive(seg) => SegmentKeepsInv(c, seg);
    case WriteBytes(data) => WriteKeepsInv(c, data);
    case Pass(ms) => TickKeepsInv(c, ms);
    case Finish => EndInputKeepsInv(c);
    case Open => ConnectKeepsInv(c);
    case ReadBytes(len) => ReadKeepsInv(c, len);
  }

  /** The ack of an arriving segment covers an outstanding segment. */
  predicate Advances(c: Connection, e: Event)
    requires c.Valid()
  {
    e.Arrive? && UsesAck(c, e.seg) && Advancing(c.sender, AckOp(e.seg.header.ackno, e.seg.header.win))
  }

  /** The absolute ackno put on what is sent now. */
  function CurrentAck(r: Rx.Receiver): Option<nat> {
    if r.synReceived then Some(r.AbsAckno()) else None
  }

  function Repeat<T>(x: T, n: nat): (xs: seq<T>)
    ensures |xs| == n && forall i :: 0 <= i < n ==> xs[i] == x
  {
    if n == 0 then [] else Repeat(x, n - 1) + [x]
  }

  /** A connection, the absolute ackno of each segment it ever sent, and the time since an ack
      last advanced. Its `out` is never emptied here, so it holds everything sent. */
  datatype ConnectionHistory = ConnectionHistory(c: Connection, acks: seq<Option<nat>>, sinceAck: nat)

  function Next(h: ConnectionHistory, e: Event): (h': ConnectionHistory)
    requires h.c.Valid()
    ensures h'.c.Valid()
  {
    var c' := After(h.c, e);
    var sent := if |c'.out| >= |h.c.out| then |c'.out| - |h.c.out| else 0;
    ConnectionHistory(c', h.acks + Repeat(CurrentAck(c'.receiver), sent),
                      if Advances(h.c, e) then 0 else h.sinceAck + (if e.Pass? then e.ms else 0))
  }

  datatype Config = Config(rtTimeout: u16, recvCapacity: nat, sendCapacity: nat, isn: u32)

  function Begin(g: Config): (h: ConnectionHistory)
    ensures h.c.Valid()
  {
    ConnectionHistory(FreshConnection(g.rtTimeout, g.recvCapacity, g.sendCapacity, g.isn), [], 0)
  }

  /** Event number `i` was allowed and led from state `i` to the next one. */
  ghost predicate StepAt(es: seq<Event>, hs: seq<ConnectionHistory>, i: nat) {
    && i < |es| && i + 1 < |hs| && hs[i].c.Valid()
    && Allowed(hs[i].c, es[i])
    && hs[i + 1] == Next(hs[i], es[i])
  }

  /** `hs` are the states of a run on the events `es`: each event was allowed where it came. */
  ghost predicate IsRun(g: Config, es: seq<Event>, hs: seq<ConnectionHistory>) {
    && |hs| == |es| + 1
    && hs[0] == Begin(g)
    && (forall i: nat :: i < |es| ==> StepAt(es, hs, i))
    && (forall i :: 0 <= i < |hs| ==> hs[i].c.Valid())
  }

  /** Runs exist: one event more, allowed in the last state, gives a longer run. */
  lemma RunExtends(g: Config, es: seq<Event>, hs: seq<ConnectionHistory>, e: Event)
    requires IsRun(g, es, hs) && Allowed(hs[|es|].c, e)
    ensures IsRun(g, es + [e], hs + [Next(hs[|es|], e)])
  {
    var es', hs' := es + [e], hs + [Next(hs[|es|], e)];
    forall i: nat | i < |es'| ensures StepAt(es', hs', i) {
      assert i < |es| ==> StepAt(es, hs, i);
    }
  }

  /** Every state of a run satisfies the invariant. */
  lemma {:induction false} RunKeepsInv(g: Config, es: seq<Event>, hs: seq<ConnectionHistory>, n: nat)
    requires IsRun(g, es, hs) && n <= |es|
    ensures ConnectionProofs.Inv(hs[n].c)
  {
    if n == 0 {
      FreshInv(g.rtTimeout, g.recvCapacity, g.sendCapacity, g.isn);
    } else {
      RunKeepsInv(g, es, hs, n - 1);
      assert StepAt(es, hs, n - 1);
      EventKeepsInv(hs[n - 1].c, es[n - 1]);
    }
  }

  // ----- shutdown -----

  lemma InactiveState(c: Connection)
    requires ConnectionProofs.Inv(c) && !c.active
    ensures StateOf(c) == Official(CLOSED) <==> CleanlyClosed(c)
    ensures StateOf(c) == Official(RESET) <==> c.Failed()
  {
  }

  /** Shutdown: a reachable connection that is not active is in state CLOSED or RESET. It is
      CLOSED only when the inbound stream has ended, the FIN was sent, every number up to it
      was acknowledged, and lingering was switched off or long enough. */
  lemma ShutdownIsOfficial(g: Config, es: seq<Event>, hs: seq<ConnectionHistory>)
    requires IsRun(g, es, hs) && !hs[|es|].c.active
    ensures var c := hs[|es|].c;
            && (StateOf(c) == Official(CLOSED) || StateOf(c) == Official(RESET))
            && (StateOf(c) == Official(CLOSED) ==>
                  && c.InboundEnded() && c.sender.stream.ended
                  && c.sender.next == |c.sender.stream.log| + 2 == AckedUpTo(c.sender)
                  && (!c.linger || c.sinceReceived >= 10 * c.rtTimeout))
  {
    RunKeepsInv(g, es, hs, |es|);
    InactiveState(hs[|es|].c);
  }

  // ----- the chain of tests against the official states -----

  /** The part of the invariant that the tests and the names depend on. */
  ghost predicate Countable(c: Connection)
    requires c.Valid()
  {
    var s, r := c.sender, c.receiver;
    && s.bif <= s.next
    && (s.next == 0 ==> !r.synReceived && c.linger)
    && (s.next > 0 ==> s.next == s.stream.nread + 1 || (s.next == s.stream.nread + 2 && c.Eof()))
    && (s.next > 0 && c.Eof() && s.bif == 0 ==> SenderProofs.FinSent(s))
    && (s.next > s.bif ==> r.synReceived)
    && (!r.synReceived ==> !c.InboundEnded())
    && (!c.InboundEnded() ==> c.linger)
    && (c.InboundEnded() && c.Eof() && s.bif == 0 ==> c.linger)
    && !s.stream.error && !r.Out().error
  }

  lemma InvCounts(c: Connection)
    requires ConnectionProofs.Inv(c) && c.active
    ensures Countable(c)
  {
    NothingInFlightIff(c.sender);
  }

  lemma DispatchOpening(c: Connection)
    requires c.Valid() && Countable(c) && c.active
    ensures Dispatch(c) == InListen <==> StateOf(c) == Official(LISTEN)
    ensures Dispatch(c) == InSynSent <==> StateOf(c) == Official(SYN_SENT)
    ensures Dispatch(c) == InSynRcvd <==> StateOf(c) == Official(SYN_RCVD)
  {
  }

  lemma DispatchClosing(c: Connection)
    requires c.Valid() && Countable(c) && c.active
    ensures Dispatch(c) == InFinWait1 <==> StateOf(c) == Official(FIN_WAIT_1)
    ensures Dispatch(c) == InFinWait2 <==> StateOf(c) == Official(FIN_WAIT_2)
    ensures Dispatch(c) == InTimeWait <==> StateOf(c) == Official(TIME_WAIT)
  {
  }

  lemma DispatchOpen(c: Connection)
    requires c.Valid() && Countable(c) && c.active
    ensures Dispatch(c) == InEstablished <==> StateOf(c).sender == SynAcked && !c.Eof()
    ensures StateOf(c).sender == SynAcked && c.Eof() <==> c.sender.FinPending() && c.sender.next > c.sender.bif
  {
  }

  /** For each of these names, the branch taken for a segment is the named one exactly when the
      connection is in the official state of that name. The ESTABLISHED branch is taken exactly
      when the SYN is acknowledged and the own stream is not over; in the states with that
      summary, ESTABLISHED and CLOSE-WAIT among them, it is over exactly while its FIN is due. */
  lemma DispatchIsOfficial(g: Config, es: seq<Event>, hs: seq<ConnectionHistory>)
    requires IsRun(g, es, hs) && hs[|es|].c.active
    ensures var c := hs[|es|].c;
            && (Dispatch(c) == InListen <==> StateOf(c) == Official(LISTEN))
            && (Dispatch(c) == InSynSent <==> StateOf(c) == Official(SYN_SENT))
            && (Dispatch(c) == InSynRcvd <==> StateOf(c) == Official(SYN_RCVD))
            && (Dispatch(c) == InFinWait1 <==> StateOf(c) == Official(FIN_WAIT_1))
            && (Dispatch(c) == InFinWait2 <==> StateOf(c) == Official(FIN_WAIT_2))
            && (Dispatch(c) == InTimeWait <==> StateOf(c) == Official(TIME_WAIT))
            && (Dispatch(c) == InEstablished <==> StateOf(c).sender == SynAcked && !c.Eof())
            && (StateOf(c).sender == SynAcked && c.Eof() <==> c.sender.FinPending() && c.sender.next > c.sender.bif)
  {
    var c := hs[|es|].c;
    RunKeepsInv(g, es, hs, |es|);
    InvCounts(c);
    DispatchOpening(c);
    DispatchClosing(c);
    DispatchOpen(c);
  }

  // ----- which active states have an official name -----

  ghost predicate HasName(c: Connection)
    requires c.Valid()
  {
    exists n :: StateOf(c) == Official(n)
  }

  /** The peer's stream is over although our SYN was never acknowledged, or it is over, our own
      is not, and lingering was not switched off. */
  predicate OffTheMap(c: Connection)
    requires c.Valid()
  {
    c.InboundEnded() && (c.sender.next == c.sender.bif || (c.linger && (!c.Eof() || c.sender.FinPending())))
  }

  lemma NameOf(c: Connection, n: Name)
    requires c.Valid() && StateOf(c) == Official(n)
    ensures HasName(c)
  {
  }

  lemma OnTheMapHasName(c: Connection)
    requires c.Valid() && Countable(c) && c.active && !OffTheMap(c)
    ensures HasName(c)
  {
    match StateOf(c)
    case TcpState(Closed, _, _, _) => NameOf(c, LISTEN);
    case TcpState(SynSent, receiver, _, _) => NameOf(c, if receiver == Listen then SYN_SENT else SYN_RCVD);
    case TcpState(SynAcked, receiver, _, _) => NameOf(c, if receiver == SynRecv then ESTABLISHED else CLOSE_WAIT);
    case TcpState(FinSent, receiver, _, linger) =>
      NameOf(c, if receiver == SynRecv then FIN_WAIT_1 else if linger then CLOSING else LAST_ACK);
    case TcpState(FinAcked, receiver, _, _) => NameOf(c, if receiver == SynRecv then FIN_WAIT_2 else TIME_WAIT);
  }

  lemma OffTheMapHasNone(c: Connection, n: Name)
    requires c.Valid() && Countable(c) && c.active && OffTheMap(c)
    ensures StateOf(c) != Official(n)
  {
  }

  /** In every reachable active state: it is an official one exactly when it is not off the map. */
  lemma NamedIff(g: Config, es: seq<Event>, hs: seq<ConnectionHistory>)
    requires IsRun(g, es, hs) && hs[|es|].c.active
    ensures HasName(hs[|es|].c) <==> !OffTheMap(hs[|es|].c)
  {
    var c := hs[|es|].c;
    RunKeepsInv(g, es, hs, |es|);
    InvCounts(c);
    if OffTheMap(c) {
      forall n ensures StateOf(c) != Official(n) {
        OffTheMapHasNone(c, n);
      }
    } else {
      OnTheMapHasName(c);
    }
  }

  /** A sender that has not started goes with a receiver in LISTEN, and an acknowledged SYN
      with a receiver that has the peer's SYN. */
  lemma HalvesAgree(g: Config, es: seq<Event>, hs: seq<ConnectionHistory>)
    requires IsRun(g, es, hs)
    ensures var c := hs[|es|].c;
            && (SummaryOfSender(c.sender) == Closed ==> c.receiver.Ackno().None?)
            && (AckedUpTo(c.sender) > 0 ==> c.receiver.Ackno().Some?)
            && c.sender.bif <= 0xffff
  {
    RunKeepsInv(g, es, hs, |es|);
  }

  // ----- TIME-WAIT -----

  function Ticks(c: Connection, ms: seq<nat>): (c': Connection)
    requires c.Valid()
    ensures c'.Valid()
  {
    if ms == [] then c else TcpConnections.Tick(Ticks(c, ms[..|ms| - 1]), ms[|ms| - 1])
  }

  function Total(ms: seq<nat>): nat {
    if ms == [] then 0 else Total(ms[..|ms| - 1]) + ms[|ms| - 1]
  }

  /** In TIME-WAIT with nothing cached, a tick only advances the clock and may close. */
  lemma TickInTimeWait(c: Connection, ms: nat)
    requires ConnectionProofs.Inv(c) && c.active && Dispatch(c) == InTimeWait
    ensures var c' := TcpConnections.Tick(c, ms);
            && ConnectionProofs.Inv(c')
            && c'.sinceReceived == c.sinceReceived + ms && c'.rtTimeout == c.rtTimeout
            && (c'.active <==> c.sinceReceived + ms < 10 * c.rtTimeout)
            && Dispatch(c') == InTimeWait
  {
    NothingInFlightIff(c.sender);
    TickKeepsInv(c, ms);
  }

  /** TIME-WAIT progress: with no segment arriving, the connection stays active as long as the
      time since the last segment is below ten timeouts, and is inactive from the first tick
      that reaches it. */
  lemma {:induction false} TimeWaitEnds(c: Connection, ms: seq<nat>)
    requires ConnectionProofs.Inv(c) && c.active && Dispatch(c) == InTimeWait && ms != []
    ensures Ticks(c, ms).active <==> c.sinceReceived + Total(ms) < 10 * c.rtTimeout
    ensures Ticks(c, ms).active ==>
              var c' := Ticks(c, ms);
              ConnectionProofs.Inv(c') && Dispatch(c') == InTimeWait &&
              c'.sinceReceived == c.sinceReceived + Total(ms) && c'.rtTimeout == c.rtTimeout
    decreases |ms|
  {
    var front := ms[..|ms| - 1];
    if front == [] {
      assert Total(front) == 0;
      TickInTimeWait(c, ms[0]);
    } else {
      TimeWaitEnds(c, front);
      if Ticks(c, front).active {
        TickInTimeWait(Ticks(c, front), ms[|ms| - 1]);
      }
    }
  }

  // ----- giving up -----

  /** Nothing sent, read or acknowledged is taken back. */
  ghost predicate Moves(s: Sender, s': Sender) {
    && s.Valid() && s'.Valid()
    && s'.isn == s.isn && s.next <= s'.next && AckedUpTo(s) <= AckedUpTo(s')
    && Grows(s.stream, s'.stream) && s.stream.nread <= s'.stream.nread
    && (s.stream.error ==> s'.stream.error)
  }

  /** `s'` is `s` as far as the retransmission timer is concerned, and only moves forward. */
  ghost predicate SameTimer(s: Sender, s': Sender) {
    && s'.defaultRto == s.defaultRto && s'.retx == s.retx && s'.time == s.time
    && Moves(s, s')
  }

  /** The sender after its part in a segment's handling. */
  function Acknowledged(c: Connection, seg: TcpSegment): (s: Sender)
    requires c.Valid()
    ensures s.Valid()
  {
    if UsesAck(c, seg) then AckReceived(c.sender, seg.header.ackno, seg.header.win) else c.sender
  }

  lemma MovesFurther(s: Sender, s1: Sender, s2: Sender)
    requires Moves(s, s1) && Moves(s1, s2)
    ensures Moves(s, s2)
  {
  }

  lemma FillMoves(s: Sender)
    requires Tiling(s) && Timer(s)
    ensures SameTimer(s, FillWindow(s))
  {
    FillKeepsTimer(s);
    var news := FillSends(s);
  }

  lemma FillSameTimer(c: Connection)
    requires c.Valid() && Tiling(c.sender) && Timer(c.sender)
    ensures SameTimer(c.sender, SendData(Fill(c)).sender)
  {
    FillMoves(c.sender);
  }

  /** Whatever follows once a segment was taken leaves the timer alone. */
  lemma AnswerSameTimer(c: Connection, c': Connection)
    requires c.Valid() && Tiling(c.sender) && Timer(c.sender) && Answers(c, c')
    ensures SameTimer(c.sender, c'.sender)
  {
    SameTiling(c.sender, SendEmpty(c.sender));
    if c' == SendData(Fill(c)) {
      FillSameTimer(c);
    } else if c' == SendData(Fill(QueueEmpty(c))) {
      FillSameTimer(QueueEmpty(c));
    }
  }

  lemma HandleTimer(c: Connection, seg: TcpSegment)
    requires c.Valid() && Tiling(c.sender) && WindowBounded(c.sender) && Timer(c.sender)
    requires c.active && LegalSegment(c, seg) && !seg.header.rst
    ensures SameTimer(Acknowledged(c, seg), Handle(c, seg).sender)
  {
    if UsesAck(c, seg) {
      var news := AckKeepsTiling(c.sender, seg.header.ackno, seg.header.win);
      AckTimer(c.sender, seg.header.ackno, seg.header.win);
      AckedAnswers(c, seg);
      AnswerSameTimer(TakeBoth(c, seg), Handle(c, seg));
    } else {
      UnackedAnswers(c, seg);
      if Handle(c, seg) != c {
        AnswerSameTimer(TakeSegment(c, seg), Handle(c, seg));
      }
    }
  }

  lemma SameTimerBacksOff(s: Sender, s': Sender, sinceAck: nat)
    requires BackedOff(s, sinceAck) && SameTimer(s, s')
    ensures BackedOff(s', sinceAck)
  {
  }

  lemma ArrivalBacksOff(c: Connection, seg: TcpSegment, sinceAck: nat)
    requires ConnectionProofs.Inv(c) && LegalSegment(c, seg) && BackedOff(c.sender, sinceAck)
    ensures BackedOff(SegmentReceived(c, seg).sender, if Advances(c, Arrive(seg)) then 0 else sinceAck)
    ensures SegmentReceived(c, seg).sender.defaultRto == c.sender.defaultRto
  {
    if c.active && !seg.header.rst {
      var c1 := c.(sinceReceived := 0);
      RestartedUse(c, seg);
      HandleTimer(c1, seg);
      var since := if Advances(c, Arrive(seg)) then 0 else sinceAck;
      if UsesAck(c, seg) {
        AckKeepsTimer(c.sender, seg.header.ackno, seg.header.win, sinceAck);
      }
      SameTimerBacksOff(Acknowledged(c1, seg), Handle(c1, seg).sender, since);
    }
  }

  /** No event takes back anything the sender did. */
  lemma EventMoves(c: Connection, e: Event)
    requires ConnectionProofs.Inv(c) && Allowed(c, e)
    ensures Moves(c.sender, After(c, e).sender)
  {
    match e
    case Arrive(seg) => ArrivalMoves(c, seg);
    case WriteBytes(data) => WriteMoves(c, data);
    case Pass(ms) => TickMoves(c, ms);
    case Finish => FillSameTimerOn(c, c.sender.stream.(ended := true));
    case Open => FillSameTimer(c);
    case ReadBytes(len) =>
  }

  lemma TickMoves(c: Connection, ms: nat)
    requires c.Valid()
    ensures Moves(c.sender, TcpConnections.Tick(c, ms).sender)
  {
    if c.active {
      TickEndsWith(c, ms);
      ClockMoves(c.sender, ms);
    }
  }

  lemma ClockMoves(s: Sender, ms: nat)
    requires s.Valid()
    ensures Moves(s, TcpSenders.Tick(s, ms))
  {
  }

  /** Apart from its queue and its error mark, a ticking connection's sender only ticks. */
  lemma TickEndsWith(c: Connection, ms: nat)
    requires c.Valid() && c.active
    ensures var s, s' := TcpSenders.Tick(c.sender, ms), TcpConnections.Tick(c, ms).sender;
            s' == s.(out := s'.out, stream := s.stream.(error := s'.stream.error)) && (s.stream.error ==> s'.stream.error)
  {
  }

  lemma WriteMoves(c: Connection, data: seq<byte>)
    requires ConnectionProofs.Inv(c) && !c.sender.stream.ended
    ensures Moves(c.sender, TcpConnections.Write(c, data).sender)
  {
    if data != [] {
      FillSameTimerOn(c, c.sender.stream.Write(data));
    }
  }

  lemma ArrivalMoves(c: Connection, seg: TcpSegment)
    requires ConnectionProofs.Inv(c) && LegalSegment(c, seg)
    ensures Moves(c.sender, SegmentReceived(c, seg).sender)
  {
    if c.active && !seg.header.rst {
      var c1 := c.(sinceReceived := 0);
      RestartedUse(c, seg);
      HandleTimer(c1, seg);
      AcknowledgedMoves(c1, seg);
      MovesFurther(c.sender, Acknowledged(c1, seg), Handle(c1, seg).sender);
    }
  }

  lemma AcknowledgedMoves(c: Connection, seg: TcpSegment)
    requires c.Valid() && Tiling(c.sender) && WindowBounded(c.sender) && LegalSegment(c, seg)
    ensures Moves(c.sender, Acknowledged(c, seg))
  {
    if UsesAck(c, seg) {
      var news := AckKeepsTiling(c.sender, seg.header.ackno, seg.header.win);
    }
  }

  lemma EventBacksOff(c: Connection, e: Event, sinceAck: nat)
    requires ConnectionProofs.Inv(c) && Allowed(c, e) && BackedOff(c.sender, sinceAck)
    ensures BackedOff(After(c, e).sender,
                      if Advances(c, e) then 0 else sinceAck + (if e.Pass? then e.ms else 0))
    ensures After(c, e).sender.defaultRto == c.sender.defaultRto
  {
    match e
    case Arrive(seg) => ArrivalBacksOff(c, seg, sinceAck);
    case WriteBytes(data) => WriteBacksOff(c, data, sinceAck);
    case Pass(ms) => PassBacksOff(c, ms, sinceAck);
    case Finish => FillSameTimerOn(c, c.sender.stream.(ended := true));
    case Open => FillSameTimer(c);
    case ReadBytes(len) =>
  }

  lemma WriteBacksOff(c: Connection, data: seq<byte>, sinceAck: nat)
    requires ConnectionProofs.Inv(c) && !c.sender.stream.ended && BackedOff(c.sender, sinceAck)
    ensures BackedOff(TcpConnections.Write(c, data).sender, sinceAck)
    ensures TcpConnections.Write(c, data).sender.defaultRto == c.sender.defaultRto
  {
    if data != [] {
      FillSameTimerOn(c, c.sender.stream.Write(data));
    }
  }

  lemma PassBacksOff(c: Connection, ms: nat, sinceAck: nat)
    requires ConnectionProofs.Inv(c) && BackedOff(c.sender, sinceAck)
    ensures BackedOff(TcpConnections.Tick(c, ms).sender, sinceAck + ms)
    ensures TcpConnections.Tick(c, ms).sender.defaultRto == c.sender.defaultRto
  {
    if c.active {
      TickEndsWith(c, ms);
      TickKeepsTimer(c.sender, ms, sinceAck);
    }
  }

  lemma FillSameTimerOn(c: Connection, stream: Stream)
    requires Core(c) && stream.Valid() && Grows(c.sender.stream, stream) && stream.nread == c.sender.stream.nread
    requires stream.error == c.sender.stream.error
    ensures SameTimer(c.sender, SendData(Fill(c.(sender := c.sender.(stream := stream)))).sender)
  {
    var c1 := c.(sender := c.sender.(stream := stream));
    GrowthKeepsTiling(c.sender, stream);
    FillSameTimer(c1);
    MovesFurther(c.sender, c1.sender, SendData(Fill(c1)).sender);
  }

  lemma {:induction false} RunBacksOff(g: Config, es: seq<Event>, hs: seq<ConnectionHistory>, n: nat)
    requires IsRun(g, es, hs) && n <= |es|
    ensures BackedOff(hs[n].c.sender, hs[n].sinceAck) && hs[n].c.sender.defaultRto == g.rtTimeout
  {
    if n > 0 {
      RunBacksOff(g, es, hs, n - 1);
      RunKeepsInv(g, es, hs, n - 1);
      assert StepAt(es, hs, n - 1);
      EventBacksOff(hs[n - 1].c, es[n - 1], hs[n - 1].sinceAck);
    }
  }

  /** Giving up: the tick on which a reachable connection exceeds its retransmissions adds just
      one RST to what it sent, closes it with errors, and comes at least 511 initial timeouts
      after the last ack that advanced. */
  lemma GivingUp(g: Config, es: seq<Event>, hs: seq<ConnectionHistory>, ms: nat)
    requires IsRun(g, es, hs) && hs[|es|].c.active
    requires TcpSenders.Tick(hs[|es|].c.sender, ms).retx > MAX_RETX_ATTEMPTS
    ensures var h := hs[|es|];
            var c' := TcpConnections.Tick(h.c, ms);
            && c'.out == h.c.out + [RST_SEGMENT]
            && StateOf(c') == Official(RESET)
            && h.sinceAck + ms >= 511 * g.rtTimeout
  {
    RunBacksOff(g, es, hs, |es|);
    RunKeepsInv(g, es, hs, |es|);
    GivingUpTick(hs[|es|].c, ms, hs[|es|].sinceAck);
  }

  lemma GivingUpTick(c: Connection, ms: nat, sinceAck: nat)
    requires ConnectionProofs.Inv(c) && c.active && BackedOff(c.sender, sinceAck)
    requires TcpSenders.Tick(c.sender, ms).retx > MAX_RETX_ATTEMPTS
    ensures TcpConnections.Tick(c, ms) == ResetConnection(Elapse(c, ms))
    ensures StateOf(TcpConnections.Tick(c, ms)) == Official(RESET)
    ensures sinceAck + ms >= 511 * c.sender.defaultRto
  {
    TickKeepsTimer(c.sender, ms, sinceAck);
    GivingUpTakesLong(TcpSenders.Tick(c.sender, ms), sinceAck + ms);
  }
}
