/** Whether what was written can still be delivered, from wherever a run of a sender and a
    receiver over the unreliable network has led: after the loss of everything under way exactly
    as long as the sender has not used up its retransmissions of a segment the receiver lacks. */
module EndToEndProgress {
  import opened Numbers
  import opened WrappingIntegers
  import opened ByteStreams
  import opened OrderedMaps
  import opened StreamReassemblers
  import opened ReassemblerProofs
  import opened TcpSegments
  import Rx = TcpReceivers
  import opened TcpSenders
  import opened SenderProofs
  import SenderRuns
  import opened Deliveries
  import opened EndToEnd

  // ----- what every run keeps besides -----

  /** No outstanding segment spans more than a window. */
  ghost predicate Spans(s: Sender) {
    forall k :: k in s.cache ==> s.cache[k].LengthInSequenceSpace() <= 0xffff
  }

  /** What the sender's part of it is: the timer, and the spans. */
  ghost predicate Steady(s: Sender) { SenderRuns.Timer(s) && Spans(s) }

  ghost predicate Ready(y: System) { Inv(y) && Steady(y.sender) }

  lemma {:induction false} SequenceSpans(isn: u32, s: Stream, segs: seq<TcpSegment>, lo: nat, hi: nat)
    requires Sequence(isn, s, segs, lo, hi)
    ensures lo <= hi && forall seg :: seg in segs ==> seg.LengthInSequenceSpace() <= hi - lo
    decreases |segs|
  {
    if segs != [] {
      var last, front := segs[|segs| - 1], segs[..|segs| - 1];
      SequenceSpans(isn, s, front, lo, hi - last.LengthInSequenceSpace());
      assert segs == front + [last];
    }
  }

  lemma FillSpans(s: Sender)
    requires Tiling(s) && Spans(s)
    ensures Spans(FillWindow(s))
  {
    var e := FillWindow(s);
    var news := FillSends(s);
    SequenceSpans(e.isn, e.stream, news, s.next, e.next);
    NothingInFlightIff(s);
  }

  lemma AckSpans(s: Sender, ackno: u32, win: u16)
    requires Tiling(s) && Short(s) && WindowBounded(s) && Acceptable(s, ackno) && Spans(s)
    ensures Spans(AckReceived(s, ackno, win))
  {
    if LeftInFlight(s, ackno) >= 0 && Acked(s, ackno) != {} {
      AcknowledgeTiles(s, ackno, win);
      AckIsFill(s, ackno, win);
      FillSpans(Acknowledge(s, ackno, win));
    } else {
      IdleAck(s, ackno, win);
    }
  }

  /** An ack of the receiver's is acceptable to the sender. */
  lemma DeliveredAckIsAcceptable(y: System, ack: AckMessage)
    requires Inv(y) && Possible(y, DeliverAck(ack))
    ensures Acceptable(y.sender, ack.ackno)
  {
    AckIsSentBytes(y);
    OffsetOfWraps(y.sender.next, ack.number, y.sender.isn);
  }

  lemma FillKeepsSteady(s: Sender)
    requires Tiling(s) && Steady(s)
    ensures Steady(FillWindow(s).(out := []))
  {
    FillSpans(s);
    SenderRuns.FillKeepsTimer(s);
  }

  lemma AckKeepsSteady(s: Sender, ackno: u32, win: u16)
    requires Tiling(s) && Short(s) && WindowBounded(s) && Acceptable(s, ackno) && Steady(s)
    ensures Steady(AckReceived(s, ackno, win).(out := []))
  {
    AckSpans(s, ackno, win);
    SenderRuns.AckTimer(s, ackno, win);
  }

  lemma TickKeepsSteady(s: Sender, ms: nat)
    requires s.Valid() && Steady(s)
    ensures Steady(Tick(s, ms).(out := []))
  {
    SenderRuns.TickKeepsTimer(s, ms, SenderRuns.Expired(s.defaultRto, s.retx) + s.time);
  }

  lemma ActKeepsReady(y: System, a: Action)
    requires Ready(y) && Possible(y, a)
    ensures Ready(Act(y, a))
  {
    ActKeepsInv(y, a);
    match a
    case FillAction => FillKeepsSteady(y.sender);
    case DeliverAck(ack) =>
      DeliveredAckIsAcceptable(y, ack);
      AckKeepsSteady(y.sender, ack.ackno, ack.win);
    case TickAction(ms) => TickKeepsSteady(y.sender, ms);
    case _ =>
  }

  /** Every outstanding segment is on the wire. */
  ghost predicate Retained(y: System) {
    forall k :: k in y.sender.cache ==> y.sender.cache[k] in y.wire
  }

  lemma FillRetains(s: Sender, wire: set<TcpSegment>)
    requires Tiling(s) && s.out == [] && forall k :: k in s.cache ==> s.cache[k] in wire
    ensures var e := FillWindow(s); forall k :: k in e.cache ==> e.cache[k] in wire + Segments(e.out)
  {
    var news := FillSends(s);
    assert FillWindow(s).out == news;
  }

  lemma ActKeepsRetained(y: System, a: Action)
    requires Ready(y) && Retained(y) && Possible(y, a)
    ensures Retained(Act(y, a))
  {
    match a
    case FillAction => FillRetains(y.sender, y.wire);
    case DeliverAck(ack) => AckRetains(y, ack);
    case TickAction(ms) => assert Act(y, a).sender.cache == y.sender.cache && y.wire <= Act(y, a).wire;
    case _ =>
  }

  lemma AckRetains(y: System, ack: AckMessage)
    requires Ready(y) && Retained(y) && Possible(y, DeliverAck(ack))
    ensures Retained(Act(y, DeliverAck(ack)))
  {
    var s := y.sender;
    DeliveredAckIsAcceptable(y, ack);
    if LeftInFlight(s, ack.ackno) >= 0 && Acked(s, ack.ackno) != {} {
      AcknowledgeTiles(s, ack.ackno, ack.win);
      AckIsFill(s, ack.ackno, ack.win);
      FillRetains(Acknowledge(s, ack.ackno, ack.win), y.wire);
    } else {
      IdleAck(s, ack.ackno, ack.win);
    }
  }

  lemma ActKeepsCapacity(y: System, a: Action)
    requires Ready(y) && Possible(y, a)
    ensures Act(y, a).receiver.Out().capacity == y.receiver.Out().capacity
  {
    if a.DeliverSegment? {
      Rx.ReceiveKeepsInv(y.receiver, a.seg);
    }
  }

  /** What every state of a run from the start satisfies. */
  ghost predicate Sound(y: System, capacity: nat) {
    Ready(y) && Retained(y) && y.receiver.Out().capacity == capacity
  }

  lemma ActKeepsSound(y: System, a: Action, capacity: nat)
    requires Sound(y, capacity) && Possible(y, a)
    ensures Sound(Act(y, a), capacity)
  {
    ActKeepsReady(y, a);
    ActKeepsRetained(y, a);
    ActKeepsCapacity(y, a);
  }

  lemma StepKeepsSound(acts: seq<Action>, ys: seq<System>, capacity: nat, i: nat)
    requires StepAt(acts, ys, i) && Sound(ys[i], capacity)
    ensures Sound(ys[i + 1], capacity)
  {
    ActKeepsSound(ys[i], acts[i], capacity);
  }

  /** Each state follows from the one before it. */
  ghost predicate Steps(acts: seq<Action>, ys: seq<System>) {
    |ys| == |acts| + 1 && forall i: nat :: i < |acts| ==> StepAt(acts, ys, i)
  }

  lemma {:induction false} StepsAreSound(acts: seq<Action>, ys: seq<System>, capacity: nat, n: nat)
    requires Steps(acts, ys) && Sound(ys[0], capacity) && n <= |acts|
    ensures Sound(ys[n], capacity)
  {
    if n > 0 {
      StepsAreSound(acts, ys, capacity, n - 1);
      StepKeepsSound(acts, ys, capacity, n - 1);
    }
  }

  /** Every state of every run. */
  lemma ReachableIsSound(sendCapacity: nat, recvCapacity: nat, timeout: u16, isn: u32, acts: seq<Action>, ys: seq<System>)
    requires IsRun(Start(sendCapacity, recvCapacity, timeout, isn), acts, ys)
    ensures Sound(ys[|acts|], recvCapacity)
  {
    StartInv(sendCapacity, recvCapacity, timeout, isn);
    StepsAreSound(acts, ys, recvCapacity, |acts|);
  }

  // ----- the state after a loss -----

  /** Everything under way, both ways, is lost. */
  function Lost(y: System): System { y.(wire := {}, acks := {}) }

  lemma LossKeepsReady(y: System)
    requires Ready(y)
    ensures Ready(Lost(y))
  {
  }

  /** The first number the receiver does not have. */
  function Wants(r: Rx.Receiver): nat { if r.synReceived then r.AbsAckno() else 0 }

  /** The sender can still get its oldest segment across by itself: nothing is outstanding, the
      receiver has it already, or it may be retransmitted. */
  predicate Recoverable(y: System) {
    || y.sender.cache == map[]
    || SenderRuns.Oldest(y.sender) <= Wants(y.receiver)
    || y.sender.retx <= MAX_RETX_ATTEMPTS
  }

  /** A copy of the oldest outstanding segment is on the wire. */
  predicate Copied(y: System) {
    y.sender.cache != map[] && y.sender.cache[SenderRuns.Oldest(y.sender)] in y.wire
  }

  predicate Live(y: System) { Recoverable(y) || Copied(y) }

  // ----- one step nearer -----

  /** With nothing in flight a fill sends something, unless everything was sent. */
  lemma FillSendsSomething(s: Sender)
    requires Tiling(s) && s.cache == map[] && FillWindow(s).cache == map[]
    ensures s.next > 0 && s.stream.BufferSize() == 0 && (s.stream.ended ==> FinSent(s))
  {
    var e := FillWindow(s);
    var news := FillSends(s);
    NothingInFlightIff(s);
    NothingInFlightIff(e);
    assert e == s;
    if s.stream.BufferSize() > 0 {
      FillSendsBytes(s);
    }
  }

  lemma FillSendsBytes(s: Sender)
    requires Tiling(s) && s.next > 0 && s.bif == 0 && s.stream.BufferSize() > 0
    ensures FillWindow(s).next > s.next
  {
    FillIsLoop(s);
    LoopSendsBytes(s, s.Window());
    FinOnlyAdds(SendLoop(s, s.Window()));
  }

  lemma FillIsLoop(s: Sender)
    requires s.Valid() && s.next > 0 && s.bif == 0 && s.stream.BufferSize() > 0
    ensures FillWindow(s) == SendFin(SendLoop(s, s.Window()))
  {
  }

  lemma FinOnlyAdds(s: Sender)
    requires s.Valid()
    ensures SendFin(s).next >= s.next
  {
  }

  lemma LoopSendsBytes(s: Sender, w: nat)
    requires Tiling(s) && s.next > 0 && s.stream.BufferSize() > 0 && w > 0 && s.bif + w <= s.Window()
    ensures SendLoop(s, w).next > s.next
  {
    var c, left := SendChunk(s, w), w - ChunkSegment(s, w).LengthInSequenceSpace();
    SendsNothing(s);
    ChunkSends(s, s, [], w);
    ChunkIsNew(s, w);
    SendsNothing(c);
    var rest := LoopSends(c, c, [], left);
  }

  lemma ChunkIsNew(s: Sender, w: nat)
    requires s.Valid() && s.stream.BufferSize() > 0 && w > 0
    ensures s.stream.Peek(Min(MAX_PAYLOAD_SIZE, w)) != [] && SendChunk(s, w).next > s.next
    ensures SendLoop(s, w) == SendLoop(SendChunk(s, w), w - ChunkSegment(s, w).LengthInSequenceSpace())
  {
  }

  /** The oldest outstanding segment is not too old to be read right. */
  lemma OldestIsPossible(y: System)
    requires Ready(y) && Copied(y)
    ensures Possible(y, DeliverSegment(y.sender.cache[SenderRuns.Oldest(y.sender)]))
  {
    var s, k := y.sender, SenderRuns.Oldest(y.sender);
    var lo := SenderRuns.OldestOccupies(s);
    ReceiverSafeMeans(s, y.receiver);
    assert s.cache[k].LengthInSequenceSpace() <= 0xffff;
    assert y.receiver.checkpoint <= s.next <= AckedUpTo(s) + 0xffff;
    assert RecentSegment(y, s.cache[k]);
  }

  function Unacked(y: System): int { |y.sender.stream.log| + 2 - AckedUpTo(y.sender) }

  function Missing(y: System): nat {
    if y.sender.cache == map[] || SenderRuns.Oldest(y.sender) <= Wants(y.receiver) then 0
    else SenderRuns.Oldest(y.sender) - Wants(y.receiver)
  }

  /** The timer and the queue apart, the sender is the same. */
  predicate SameOutstanding(s': Sender, s: Sender) {
    s'.cache == s.cache && s'.stream == s.stream && s'.next == s.next && s'.bif == s.bif
  }

  /** `y'` is nearer to having everything acknowledged than `y`: by fewer numbers not
      acknowledged; or by something outstanding at last; or, with the same outstanding, by less
      missing of the oldest segment, an opened window, an ack sent, or a copy sent. */
  ghost predicate Nearer(y': System, y: System)
    requires Valid(y) && Valid(y')
  {
    || Unacked(y') < Unacked(y)
    || (Unacked(y') == Unacked(y) && y.sender.cache == map[] && y'.sender.cache != map[])
    || (SameOutstanding(y'.sender, y.sender) &&
          (|| Missing(y') < Missing(y)
           || (Missing(y') == Missing(y) && y.receiver.WindowSize() == 0 < y'.receiver.WindowSize())
           || (y'.receiver == y.receiver &&
                 (|| (CurrentAck(y.receiver) !in y.acks && CurrentAck(y'.receiver) in y'.acks)
                  || (y'.acks == y.acks && !Copied(y) && Copied(y'))))))
  }

  /** Everything written was delivered and acknowledged, and so was the end, if it was. */
  ghost predicate Finished(y: System) {
    && y.sender.cache == map[]
    && y.receiver.Out().log == y.sender.stream.log
    && (y.sender.stream.ended ==> y.receiver.Out().ended)
  }

  lemma NothingLeftIsFinished(y: System)
    requires Ready(y) && y.sender.cache == map[] && FillWindow(y.sender).cache == map[]
    ensures Finished(y)
  {
    NothingInFlightIff(y.sender);
    FillSendsSomething(y.sender);
    ReceiverSafeMeans(y.sender, y.receiver);
  }

  /** What the applications wrote and what the receiver can hold stay as they are. */
  ghost predicate SameStreams(y: System, z: System) {
    && z.sender.stream.log == y.sender.stream.log && z.sender.stream.ended == y.sender.stream.ended
    && z.receiver.Out().capacity == y.receiver.Out().capacity
  }

  ghost predicate StepsOn(y: System, y': System)
    requires Valid(y) && Valid(y')
  {
    Nearer(y', y) && SameStreams(y, y') && Live(y')
  }

  lemma FillStepsOn(y: System)
    requires Ready(y) && y.sender.cache == map[] && FillWindow(y.sender).cache != map[]
    ensures StepsOn(y, Act(y, FillAction))
  {
    var news := FillSends(y.sender);
    SenderRuns.FillKeepsTimer(y.sender);
  }

  lemma ReadStepsOn(y: System)
    requires Ready(y) && Live(y) && y.sender.cache != map[]
    requires y.receiver.WindowSize() == 0 && y.receiver.Out().capacity > 0
    ensures StepsOn(y, Act(y, AppRead(y.receiver.Out().BufferSize())))
  {
    var y' := Act(y, AppRead(y.receiver.Out().BufferSize()));
    assert y'.sender == y.sender && Wants(y'.receiver) == Wants(y.receiver) && y'.wire == y.wire;
  }

  lemma DeliveryStepsOn(y: System)
    requires Ready(y) && Copied(y)
    requires Wants(y.receiver) < SenderRuns.Oldest(y.sender) && y.receiver.WindowSize() > 0
    ensures var a := DeliverSegment(y.sender.cache[SenderRuns.Oldest(y.sender)]);
            Possible(y, a) && StepsOn(y, Act(y, a))
  {
    var seg := y.sender.cache[SenderRuns.Oldest(y.sender)];
    OldestIsPossible(y);
    OldestGetsThrough(y, seg);
    Rx.ReceiveKeepsInv(y.receiver, seg);
  }

  lemma AckSentStepsOn(y: System)
    requires Ready(y) && y.sender.cache != map[]
    requires SenderRuns.Oldest(y.sender) <= Wants(y.receiver) && CurrentAck(y.receiver) !in y.acks
    ensures StepsOn(y, Act(y, SendAck))
  {
    NothingInFlightIff(y.sender);
  }

  lemma AckRestartsTimer(s: Sender, ackno: u32, win: u16)
    requires Tiling(s) && SenderRuns.Timer(s) && Short(s) && WindowBounded(s)
    requires 0 <= LeftInFlight(s, ackno) <= s.next && Acked(s, ackno) != {}
    ensures AckReceived(s, ackno, win).retx == 0
  {
    var s1 := Acknowledge(s, ackno, win);
    AcknowledgeTiles(s, ackno, win);
    AckIsFill(s, ackno, win);
    var news := FillSends(s1);
  }

  lemma AckStepsOn(y: System)
    requires Ready(y) && y.sender.cache != map[]
    requires SenderRuns.Oldest(y.sender) <= Wants(y.receiver) && CurrentAck(y.receiver) in y.acks
    ensures var a := DeliverAck(CurrentAck(y.receiver));
            Possible(y, a) && StepsOn(y, Act(y, a))
  {
    var s, ack := y.sender, CurrentAck(y.receiver);
    NothingInFlightIff(s);
    AckIsSentBytes(y);
    AckGetsThrough(y);
    OffsetOfWraps(s.next, ack.number, s.isn);
    AckedUpToNumber(s, ack.ackno, SenderRuns.Oldest(s));
    AckRestartsTimer(s, ack.ackno, ack.win);
    var news := AckKeepsTiling(s, ack.ackno, ack.win);
  }

  /** The retransmission: a tick that lasts the whole timeout. */
  lemma TickStepsOn(y: System)
    requires Ready(y) && y.sender.cache != map[] && !Copied(y) && y.sender.retx <= MAX_RETX_ATTEMPTS
    ensures StepsOn(y, Act(y, TickAction(y.sender.rto)))
  {
    var s, ms := y.sender, y.sender.rto;
    var y' := Act(y, TickAction(ms));
    SenderRuns.TickSendsOldest(s, ms);
    assert SameOutstanding(y'.sender, s);
    assert s.cache[SenderRuns.Oldest(s)] in y'.wire;
  }

  lemma StepNearer(y: System) returns (a: Action)
    requires Ready(y) && Live(y) && !Finished(y) && y.receiver.Out().capacity > 0
    ensures Possible(y, a) && StepsOn(y, Act(y, a))
  {
    var s, r := y.sender, y.receiver;
    if s.cache == map[] {
      if FillWindow(s).cache == map[] {
        NothingLeftIsFinished(y);
      }
      a := FillAction;
      FillStepsOn(y);
    } else if SenderRuns.Oldest(s) <= Wants(r) {
      if CurrentAck(r) in y.acks {
        a := DeliverAck(CurrentAck(r));
        AckStepsOn(y);
      } else {
        a := SendAck;
        AckSentStepsOn(y);
      }
    } else if !Copied(y) {
      a := TickAction(s.rto);
      TickStepsOn(y);
    } else if r.WindowSize() == 0 {
      a := AppRead(r.Out().BufferSize());
      ReadStepsOn(y);
    } else {
      a := DeliverSegment(s.cache[SenderRuns.Oldest(s)]);
      DeliveryStepsOn(y);
    }
  }

  // ----- all the way -----

  /** `z` can be reached from `y` by the actions `acts`. */
  ghost predicate Leads(y: System, acts: seq<Action>, z: System)
    decreases |acts|
  {
    if acts == [] then z == y
    else Valid(y) && Possible(y, acts[0]) && Leads(Act(y, acts[0]), acts[1..], z)
  }

  lemma Bounds(y: System)
    requires Inv(y)
    ensures Unacked(y) >= 0
  {
    NothingInFlightIff(y.sender);
  }

  /** From every live state there is a way on to having everything delivered. */
  lemma {:induction false} Finish(y: System) returns (acts: seq<Action>, z: System)
    requires Ready(y) && Live(y) && y.receiver.Out().capacity > 0
    ensures Leads(y, acts, z) && Finished(z) && SameStreams(y, z)
    decreases if Unacked(y) < 0 then 0 else Unacked(y), if y.sender.cache == map[] then 1 else 0, Missing(y),
              if y.receiver.WindowSize() == 0 then 1 else 0, if CurrentAck(y.receiver) in y.acks then 0 else 1,
              if Copied(y) then 0 else 1
  {
    if Finished(y) {
      acts, z := [], y;
    } else {
      var a := StepNearer(y);
      ActKeepsReady(y, a);
      Bounds(y);
      Bounds(Act(y, a));
      var rest;
      rest, z := Finish(Act(y, a));
      acts := [a] + rest;
      assert acts[1..] == rest;
    }
  }

  // ----- the sender has given up -----

  /** `seg` holds only numbers past the one the receiver wants. */
  ghost predicate Ahead(y: System, seg: TcpSegment) {
    exists lo: nat, hi: nat ::
      Occupies(y.sender.isn, y.sender.stream, seg, lo, hi) && hi <= y.sender.next && lo > Wants(y.receiver)
  }

  /** The receiver lacks something that will not be sent again, and nothing under way has it. */
  ghost predicate Dead(y: System) {
    && Ready(y)
    && y.sender.cache != map[] && y.sender.retx > MAX_RETX_ATTEMPTS
    && (forall k :: k in y.sender.cache ==> Wants(y.receiver) < k)
    && (forall seg :: seg in y.wire ==> Ahead(y, seg))
  }

  lemma AheadLater(y: System, y': System, seg: TcpSegment)
    requires Ahead(y, seg) && LaterSender(y.sender, y'.sender) && Wants(y'.receiver) == Wants(y.receiver)
    ensures Ahead(y', seg)
  {
    var lo: nat, hi: nat :| Occupies(y.sender.isn, y.sender.stream, seg, lo, hi) && hi <= y.sender.next &&
      lo > Wants(y.receiver);
    OccupiesGrows(y.sender.isn, y.sender.stream, y'.sender.stream, seg, lo, hi);
  }

  lemma {:induction false} SequenceIsAhead(y: System, segs: seq<TcpSegment>, lo: nat, hi: nat)
    requires Sequence(y.sender.isn, y.sender.stream, segs, lo, hi) && hi <= y.sender.next && lo > Wants(y.receiver)
    ensures forall seg :: seg in segs ==> Ahead(y, seg)
    decreases |segs|
  {
    if segs != [] {
      var last, front := segs[|segs| - 1], segs[..|segs| - 1];
      var n := last.LengthInSequenceSpace();
      SequenceIsAhead(y, front, lo, hi - n);
      SequenceSpans(y.sender.isn, y.sender.stream, front, lo, hi - n);
      assert Occupies(y.sender.isn, y.sender.stream, last, hi - n, hi);
      assert segs == front + [last];
    }
  }

  /** A fill adds to what is outstanding only what is new. */
  lemma FillOnlyAdds(s: Sender, w: nat)
    requires Tiling(s) && SenderRuns.Timer(s) && s.cache != map[] && forall k :: k in s.cache ==> w < k
    ensures var e := FillWindow(s);
            && e.cache != map[] && e.retx == s.retx && s.next > w
            && forall k :: k in e.cache ==> w < k
  {
    var news := FillSends(s);
    NothingInFlightIff(s);
    var k :| k in s.cache;
    assert k in FillWindow(s).cache.Keys;
  }

  lemma FillIsAhead(y: System)
    requires Inv(y) && y.sender.next > Wants(y.receiver)
    ensures forall seg :: seg in FillWindow(y.sender).out ==> Ahead(Act(y, FillAction), seg)
  {
    var s := y.sender;
    var e := FillWindow(s);
    var news := FillSends(s);
    assert e.out == news;
    SequenceIsAhead(Act(y, FillAction), news, s.next, e.next);
  }

  lemma FillStaysDead(y: System)
    requires Dead(y)
    ensures Dead(Act(y, FillAction))
  {
    var y' := Act(y, FillAction);
    FillIsSent(y.sender);
    ActKeepsReady(y, FillAction);
    FillOnlyAdds(y.sender, Wants(y.receiver));
    FillIsAhead(y);
    forall seg | seg in y'.wire ensures Ahead(y', seg) {
      if seg in y.wire {
        AheadLater(y, y', seg);
      }
    }
  }

  lemma TickStaysDead(y: System, ms: nat)
    requires Dead(y)
    ensures Dead(Act(y, TickAction(ms)))
  {
    var y' := Act(y, TickAction(ms));
    ActKeepsReady(y, TickAction(ms));
    SenderRuns.TickSendsOldest(y.sender, ms);
    QuietStaysDead(y, y');
  }

  /** The wire as it was, and nothing outstanding covered or added. */
  lemma QuietStaysDead(y: System, y': System)
    requires Dead(y) && Ready(y') && LaterSender(y.sender, y'.sender)
    requires y'.wire == y.wire && y'.sender.cache == y.sender.cache && y'.sender.retx == y.sender.retx
    requires Wants(y'.receiver) == Wants(y.receiver)
    ensures Dead(y')
  {
    forall seg | seg in y'.wire ensures Ahead(y', seg) {
      AheadLater(y, y', seg);
    }
  }

  lemma AckStaysDead(y: System, ack: AckMessage)
    requires Dead(y) && Possible(y, DeliverAck(ack))
    ensures Dead(Act(y, DeliverAck(ack)))
  {
    var s, y' := y.sender, Act(y, DeliverAck(ack));
    ActKeepsReady(y, DeliverAck(ack));
    AckIsSentBytes(y);
    OffsetOfWraps(s.next, ack.number, s.isn);
    forall k ensures k !in Acked(s, ack.ackno) {
      AckedUpToNumber(s, ack.ackno, k);
    }
    assert Acked(s, ack.ackno) == {};
    IdleAck(s, ack.ackno, ack.win);
    QuietStaysDead(y, y');
  }

  /** A segment ahead of the ackno moves nothing into the output. */
  lemma AheadIsOnlyCached(r: Rx.Receiver, seg: TcpSegment, lo: nat)
    requires Rx.Inv(r) && 0 < lo < TWO64 && !seg.header.syn && lo > Wants(r)
    requires r.synReceived ==> Rx.StreamIndex(r, seg) == lo
    ensures Wants(Rx.SegmentReceived(r, seg)) == Wants(r)
  {
    if r.synReceived && !r.Out().ended && Rx.Wanted(r, seg) {
      Rx.IndexOfPayload(r, seg, lo);
      Rx.FarPush(r.reassembler, seg.payload, lo - 1, seg.header.fin);
    }
  }

  lemma DeliveryStaysDead(y: System, seg: TcpSegment)
    requires Dead(y) && Possible(y, DeliverSegment(seg))
    ensures Dead(Act(y, DeliverSegment(seg)))
  {
    var s, r := y.sender, y.receiver;
    ActKeepsReady(y, DeliverSegment(seg));
    assert Ahead(y, seg);
    var lo: nat, hi: nat :| Occupies(s.isn, s.stream, seg, lo, hi) && hi <= s.next && lo > Wants(r);
    ReceiverSafeMeans(s, r);
    DeliveredNumber(y, seg, lo, hi);
    AheadIsOnlyCached(r, seg, lo);
    QuietStaysDead(y, Act(y, DeliverSegment(seg)));
  }

  lemma StreamStaysDead(y: System, a: Action)
    requires Dead(y) && Possible(y, a) && (a.AppWrite? || a.AppEnd?)
    ensures Dead(Act(y, a))
  {
    ActKeepsReady(y, a);
    QuietStaysDead(y, Act(y, a));
  }

  /** Nothing possible brings it back. */
  lemma ActStaysDead(y: System, a: Action)
    requires Dead(y) && Possible(y, a)
    ensures Dead(Act(y, a))
  {
    match a
    case AppWrite(_) => StreamStaysDead(y, a);
    case AppEnd => StreamStaysDead(y, a);
    case FillAction => FillStaysDead(y);
    case TickAction(ms) => TickStaysDead(y, ms);
    case DeliverSegment(seg) => DeliveryStaysDead(y, seg);
    case DeliverAck(ack) => AckStaysDead(y, ack);
    case SendAck =>
      ActKeepsReady(y, a);
      QuietStaysDead(y, Act(y, a));
    case AppRead(_) =>
      ActKeepsReady(y, a);
      QuietStaysDead(y, Act(y, a));
  }

  lemma {:induction false} DeadNeverFinishes(y: System, acts: seq<Action>, z: System)
    requires Dead(y) && Leads(y, acts, z)
    ensures !Finished(z)
    decreases |acts|
  {
    if acts != [] {
      ActStaysDead(y, acts[0]);
      DeadNeverFinishes(Act(y, acts[0]), acts[1..], z);
    }
  }

  lemma LossIsDead(y: System)
    requires Ready(y) && !Recoverable(y)
    ensures Dead(Lost(y))
  {
    LossKeepsReady(y);
  }

  /** Some way on leads to having everything delivered. */
  ghost predicate CanFinish(y: System) {
    exists more, z :: Leads(y, more, z) && Finished(z)
  }

  lemma DeadCannotFinish(y: System)
    requires Dead(y)
    ensures !CanFinish(y)
  {
    forall more, z | Leads(y, more, z) ensures !Finished(z) {
      DeadNeverFinishes(y, more, z);
    }
  }

  /** After the loss of everything under way, what was written can still be delivered and
      acknowledged exactly when the sender can get its oldest segment across by itself: nothing
      is outstanding, the receiver has that segment already, or its retransmissions are not
      used up. For every run with a receiver that can hold a byte. */
  lemma RecoversIff(sendCapacity: nat, recvCapacity: nat, timeout: u16, isn: u32, acts: seq<Action>, ys: seq<System>)
    requires IsRun(Start(sendCapacity, recvCapacity, timeout, isn), acts, ys) && recvCapacity > 0
    ensures Recoverable(ys[|acts|]) <==> CanFinish(Lost(ys[|acts|]))
  {
    var y := ys[|acts|];
    ReachableIsSound(sendCapacity, recvCapacity, timeout, isn, acts, ys);
    LossKeepsReady(y);
    if Recoverable(y) {
      var more, z := Finish(Lost(y));
    } else {
      LossIsDead(y);
      DeadCannotFinish(Lost(y));
    }
  }

  // ----- nine lost retransmissions -----

  /** The SYN was sent, and again `n` times, and never arrived. */
  ghost predicate Unheard(y: System, n: nat) {
    && y.sender.cache != map[] && y.sender.retx == n && y.sender.peerWin == 1
    && !y.receiver.synReceived
  }

  lemma SynUnheard(sendCapacity: nat, recvCapacity: nat, timeout: u16, isn: u32)
    ensures Unheard(Act(Start(sendCapacity, recvCapacity, timeout, isn), FillAction), 0)
  {
    var s := FreshSender(sendCapacity, timeout, isn);
    assert FillWindow(s) == SendSyn(s);
    assert 1 in SendSyn(s).cache;
  }

  lemma {:induction false} Retransmits(sendCapacity: nat, recvCapacity: nat, timeout: u16, isn: u32, n: nat)
    returns (acts: seq<Action>, ys: seq<System>)
    requires n <= MAX_RETX_ATTEMPTS + 1
    ensures IsRun(Start(sendCapacity, recvCapacity, timeout, isn), acts, ys) && Unheard(ys[|acts|], n)
  {
    var start := Start(sendCapacity, recvCapacity, timeout, isn);
    if n == 0 {
      SynUnheard(sendCapacity, recvCapacity, timeout, isn);
      OneMore(start, [], [start], FillAction);
      acts, ys := [] + [FillAction], [start] + [Act(start, FillAction)];
    } else {
      var before, zs := Retransmits(sendCapacity, recvCapacity, timeout, isn, n - 1);
      var y := zs[|before|];
      OneMore(start, before, zs, TickAction(y.sender.rto));
      acts, ys := before + [TickAction(y.sender.rto)], zs + [Act(y, TickAction(y.sender.rto))];
    }
  }

  /** The state that cannot be recovered from is reached, for every configuration: the SYN and
      nine retransmissions of it lost. */
  lemma GivenUpIsStuck(sendCapacity: nat, recvCapacity: nat, timeout: u16, isn: u32)
    returns (acts: seq<Action>, ys: seq<System>)
    ensures IsRun(Start(sendCapacity, recvCapacity, timeout, isn), acts, ys)
    ensures !CanFinish(Lost(ys[|acts|]))
  {
    acts, ys := Retransmits(sendCapacity, recvCapacity, timeout, isn, MAX_RETX_ATTEMPTS + 1);
    var y := ys[|acts|];
    ReachableIsSound(sendCapacity, recvCapacity, timeout, isn, acts, ys);
    NothingInFlightIff(y.sender);
    LossIsDead(y);
    DeadCannotFinish(Lost(y));
  }

  // ----- a network that still has a copy of everything -----

  lemma OneMore(start: System, acts: seq<Action>, ys: seq<System>, a: Action)
    requires IsRun(start, acts, ys) && Possible(ys[|acts|], a)
    ensures IsRun(start, acts + [a], ys + [Act(ys[|acts|], a)])
  {
    var acts', ys' := acts + [a], ys + [Act(ys[|acts|], a)];
    forall i: nat | i < |acts'| ensures StepAt(acts', ys', i) {
      assert i < |acts| ==> StepAt(acts, ys, i);
    }
  }

  /** A run of `acts` and `ys` that ends in `z`. */
  ghost predicate RunTo(start: System, acts: seq<Action>, ys: seq<System>, z: System) {
    IsRun(start, acts, ys) && ys[|acts|] == z
  }

  lemma {:induction false} LeadsIsRun(start: System, acts: seq<Action>, ys: seq<System>, more: seq<Action>, z: System)
    returns (zs: seq<System>)
    requires IsRun(start, acts, ys) && Leads(ys[|acts|], more, z)
    ensures RunTo(start, acts + more, ys + zs, z)
    decreases |more|
  {
    if more == [] {
      zs := [];
      assert acts + more == acts && ys + zs == ys;
    } else {
      var y' := Act(ys[|acts|], more[0]);
      OneMore(start, acts, ys, more[0]);
      var rest := LeadsIsRun(start, acts + [more[0]], ys + [y'], more[1..], z);
      zs := [y'] + rest;
      assert acts + more == (acts + [more[0]]) + more[1..];
      assert ys + zs == (ys + [y']) + rest;
    }
  }

  /** While the network still has a copy of everything sent and delivers it in the end, the
      sender need not retransmit: as long as the receiver can hold a byte, every run, with
      everything sent in it still under way, goes on to one in which everything written so far
      is delivered and acknowledged, and the end of the stream too if it was marked. */
  lemma NeverStuck(sendCapacity: nat, recvCapacity: nat, timeout: u16, isn: u32, acts: seq<Action>, ys: seq<System>)
    returns (more: seq<Action>, zs: seq<System>)
    requires IsRun(Start(sendCapacity, recvCapacity, timeout, isn), acts, ys) && recvCapacity > 0
    ensures IsRun(Start(sendCapacity, recvCapacity, timeout, isn), acts + more, ys + zs)
    ensures var z := (ys + zs)[|acts + more|];
            Finished(z) && z.sender.stream.log == ys[|acts|].sender.stream.log
  {
    var start := Start(sendCapacity, recvCapacity, timeout, isn);
    ReachableIsSound(sendCapacity, recvCapacity, timeout, isn, acts, ys);
    var z;
    more, z := Finish(ys[|acts|]);
    zs := LeadsIsRun(start, acts, ys, more, z);
  }

  /** The receiver cannot hold a byte, and has none. */
  ghost predicate Barren(y: System) { Sound(y, 0) && y.receiver.Out().log == [] }

  lemma StepStaysBarren(acts: seq<Action>, ys: seq<System>, i: nat)
    requires StepAt(acts, ys, i) && Barren(ys[i])
    ensures Barren(ys[i + 1])
  {
    StepKeepsSound(acts, ys, 0, i);
    if acts[i].DeliverSegment? {
      Rx.ReceiveKeepsInv(ys[i].receiver, acts[i].seg);
    }
  }

  /** A receiver that cannot hold a byte never receives one, whatever happens: then nothing
      written is ever delivered. */
  lemma {:induction false} NothingFitsNothing(acts: seq<Action>, ys: seq<System>, n: nat)
    requires Steps(acts, ys) && Barren(ys[0]) && n <= |acts|
    ensures Barren(ys[n])
  {
    if n > 0 {
      NothingFitsNothing(acts, ys, n - 1);
      StepStaysBarren(acts, ys, n - 1);
    }
  }

  /** With a copy of everything still under way, something written can be delivered whole
      exactly when the receiver can hold a byte. */
  lemma DeliverableIff(sendCapacity: nat, recvCapacity: nat, timeout: u16, isn: u32, acts: seq<Action>, ys: seq<System>)
    requires IsRun(Start(sendCapacity, recvCapacity, timeout, isn), acts, ys)
    requires ys[|acts|].sender.stream.log != []
    ensures recvCapacity > 0 <==>
              exists more, zs ::
                && IsRun(Start(sendCapacity, recvCapacity, timeout, isn), acts + more, ys + zs)
                && Finished((ys + zs)[|acts + more|])
                && (ys + zs)[|acts + more|].sender.stream.log == ys[|acts|].sender.stream.log
  {
    var start := Start(sendCapacity, recvCapacity, timeout, isn);
    StartInv(sendCapacity, recvCapacity, timeout, isn);
    if recvCapacity > 0 {
      var more, zs := NeverStuck(sendCapacity, recvCapacity, timeout, isn, acts, ys);
    } else {
      forall more, zs | IsRun(start, acts + more, ys + zs)
        ensures (ys + zs)[|acts + more|].receiver.Out().log == []
      {
        NothingFitsNothing(acts + more, ys + zs, |acts + more|);
      }
    }
  }
}
