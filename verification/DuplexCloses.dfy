/** Two connections that open, exchange what they have to say and close: fair runs that end with
    both sides CLOSED exist, whatever the initial numbers and timeouts. */
module DuplexCloses {
  import opened Numbers
  import opened WrappingIntegers
  import opened ByteStreams
  import opened ReassemblerProofs
  import opened TcpSegments
  import Rx = TcpReceivers
  import opened TcpSenders
  import opened TcpConnections
  import opened TcpStates
  import ConnectionProofs
  import opened ConnectionRuns
  import opened ConnectionLimits
  import opened ConnectionSends
  import opened Duplex
  import opened DuplexAcks

  /** One segment carries all of `d` and the FIN: it fits the payload limit, the stream, and the
      window that the peer advertises in 16 bits, a closed one counting as one. */
  predicate FitsOnce(g: Config, h: Config, d: seq<byte>) {
    var win := h.recvCapacity % TWO16;
    && |d| <= MAX_PAYLOAD_SIZE && |d| <= g.sendCapacity
    && 0 < h.recvCapacity && |d| < if win == 0 then 1 else win
  }

  // ----- a sender that has one segment to send -----

  function Base(g: Config): Sender { FreshSender(g.sendCapacity, g.rtTimeout, g.isn) }

  /** The SYN is outstanding, and `stream` is yet to be sent. */
  function Opening(g: Config, stream: Stream): Sender {
    Base(g).(stream := stream, next := 1, bif := 1, cache := map[1 := BareSyn(g.isn)])
  }

  function Written(g: Config, d: seq<byte>): Stream { Stream(g.sendCapacity, d, 0, true, false) }

  /** All of `d` and the FIN. */
  function Whole(g: Config, d: seq<byte>): TcpSegment {
    TcpSegment(EMPTY_HEADER.(seqno := Wrap(1, g.isn), fin := true), d)
  }

  function Sending(g: Config, d: seq<byte>, win: u16): Sender {
    Base(g).(stream := Stream(g.sendCapacity, d, |d|, true, false), peerWin := win,
             next := |d| + 2, bif := |d| + 1, cache := map[|d| + 2 := Whole(g, d)])
  }

  function Spent(g: Config, d: seq<byte>, win: u16): Sender {
    Sending(g, d, win).(bif := 0, cache := map[])
  }

  lemma OpensWithSyn(g: Config)
    ensures FillWindow(Base(g)) == Opening(g, Base(g).stream).(out := [BareSyn(g.isn)])
  {
    assert map[][1 := BareSyn(g.isn)] == map[1 := BareSyn(g.isn)];
  }

  /** Until the SYN is acknowledged nothing else is sent. */
  lemma OpeningWaits(g: Config, stream: Stream)
    requires stream.Valid()
    ensures FillWindow(Opening(g, stream)) == Opening(g, stream)
  {
  }

  lemma SynIsCovered(g: Config, d: seq<byte>, win: u16)
    requires |d| <= g.sendCapacity
    ensures var s := Opening(g, Written(g, d));
            AckReceived(s, Wrap(1, g.isn), win) == FillWindow(s.(cache := map[], bif := 0, peerWin := win))
  {
    var s := Opening(g, Written(g, d));
    OffsetOfWraps(1, 1, g.isn);
    UnwrapWrap(1, g.isn, 1);
    assert LeftInFlight(s, Wrap(1, g.isn)) == 0;
    assert Acked(s, Wrap(1, g.isn)) == {1};
    assert s.cache - {1} == map[];
  }

  lemma LoopStops(s: Sender, w: nat)
    requires s.Valid() && s.stream.BufferSize() == 0
    ensures SendLoop(s, w) == s
  {
  }

  lemma SendsWhole(g: Config, d: seq<byte>, win: u16)
    requires |d| <= g.sendCapacity && |d| <= MAX_PAYLOAD_SIZE && |d| < if win == 0 then 1 else win
    ensures FillWindow(Opening(g, Written(g, d)).(cache := map[], bif := 0, peerWin := win)) ==
              Sending(g, d, win).(out := [Whole(g, d)])
  {
    var s := Opening(g, Written(g, d)).(cache := map[], bif := 0, peerWin := win);
    assert map[][|d| + 2 := Whole(g, d)] == map[|d| + 2 := Whole(g, d)];
    if d == [] {
      assert SendFin(s) == Sending(g, d, win).(out := [Whole(g, d)]);
    } else {
      assert d[..|d|] == d;
      assert ChunkSegment(s, s.Window()) == Whole(g, d);
      var e := SendChunk(s, s.Window());
      assert e == Sending(g, d, win).(out := [Whole(g, d)]);
      LoopStops(e, s.Window() - |d| - 1);
      assert SendLoop(s, s.Window()) == e && SendFin(e) == e;
      assert FillWindow(s) == SendFin(SendLoop(s, s.Window()));
    }
  }

  /** The ack of the SYN brings out everything at once. */
  lemma SynAckSendsWhole(g: Config, d: seq<byte>, win: u16)
    requires |d| <= g.sendCapacity && |d| <= MAX_PAYLOAD_SIZE && |d| < if win == 0 then 1 else win
    ensures AckReceived(Opening(g, Written(g, d)), Wrap(1, g.isn), win) == Sending(g, d, win).(out := [Whole(g, d)])
  {
    SynIsCovered(g, d, win);
    SendsWhole(g, d, win);
  }

  lemma WholeIsCovered(g: Config, d: seq<byte>, win: u16, win': u16)
    requires |d| <= g.sendCapacity && |d| <= MAX_PAYLOAD_SIZE
    ensures AckReceived(Sending(g, d, win), Wrap(|d| + 2, g.isn), win') == Spent(g, d, win')
  {
    var s, n := Sending(g, d, win), |d| + 2;
    OffsetOfWraps(n, n, g.isn);
    UnwrapWrap(n, g.isn, n);
    assert LeftInFlight(s, Wrap(n, g.isn)) == 0;
    assert Acked(s, Wrap(n, g.isn)) == {n};
    assert s.cache - {n} == map[];
  }

  // ----- a receiver that hears it -----

  function Heard(h: Config, isn: u32): Rx.Receiver {
    Rx.FreshReceiver(h.recvCapacity).(synReceived := true, isn := isn)
  }

  /** `r` has received `d` whole and the end after it. */
  predicate Full(r: Rx.Receiver, h: Config, isn: u32, d: seq<byte>) {
    && r.Valid() && r.synReceived && r.isn == isn && r.checkpoint == |d|
    && r.Out() == Stream(h.recvCapacity, d, 0, true, false)
  }

  lemma WholeArrives(g: Config, h: Config, d: seq<byte>, seg: TcpSegment)
    requires FitsOnce(g, h, d) && Unstamped(seg) == Whole(g, d)
    ensures Full(Rx.SegmentReceived(Heard(h, g.isn), seg), h, g.isn, d)
  {
    var r := Heard(h, g.isn);
    UnwrapWrap(1, g.isn, 0);
    assert Rx.Wanted(r, seg) && Rx.PayloadIndex(r, seg) == 0;
    LastPushEnds(r.reassembler, d);
    assert [] + d == d;
  }

  lemma SynAckArrives(h: Config, seg: TcpSegment, isn: u32)
    requires Unstamped(seg) == BareSyn(isn)
    ensures Rx.SegmentReceived(Rx.FreshReceiver(h.recvCapacity), seg) == Heard(h, isn)
  {
    FirstSynReceived(h.recvCapacity, isn);
    StampIsNotRead(Rx.FreshReceiver(h.recvCapacity), seg);
  }

  // ----- one side, step by step -----

  /** Not closing yet; `seg` is on its wire. */
  predicate Holds(c: Connection, s: Sender, r: Rx.Receiver, seg: TcpSegment) {
    c.Valid() && c.active && c.linger && c.sender == s && c.receiver == r && seg in c.out
  }

  lemma DrainsOne(c: Connection, seg: TcpSegment)
    requires c.Valid() && seg in c.sender.out
    ensures Stamp(c.receiver, seg) in SendData(c).out
  {
    StampedIn(c.receiver, c.sender.out, seg);
  }

  lemma {:induction false} StampedIn(r: Rx.Receiver, segs: seq<TcpSegment>, seg: TcpSegment)
    requires r.Valid() && seg in segs
    ensures Stamp(r, seg) in StampAll(r, segs)
  {
    if seg != segs[|segs| - 1] {
      StampedIn(r, segs[..|segs| - 1], seg);
    }
  }

  lemma OpenStep(g: Config)
    ensures Holds(After(Begin(g).c, Open), Opening(g, Base(g).stream), Rx.FreshReceiver(g.recvCapacity), BareSyn(g.isn))
  {
    OpensWithSyn(g);
    DrainsOne(Fill(Begin(g).c), BareSyn(g.isn));
  }

  lemma ListenStep(g: Config, h: Config)
    ensures Holds(After(Begin(h).c, Arrive(BareSyn(g.isn))), Opening(h, Base(h).stream), Heard(h, g.isn),
                 Stamp(Heard(h, g.isn), BareSyn(h.isn)))
  {
    OpensWithSyn(h);
    SynAckArrives(h, BareSyn(g.isn), g.isn);
    DrainsOne(Fill(Begin(h).c.(receiver := Heard(h, g.isn))), BareSyn(h.isn));
  }

  /** Written to and ended before its SYN was acknowledged, a side sends nothing. */
  lemma WriteStep(g: Config, d: seq<byte>, c: Connection, r: Rx.Receiver, seg: TcpSegment)
    requires Holds(c, Opening(g, Base(g).stream), r, seg) && |d| <= g.sendCapacity && !r.Out().ended
    ensures Holds(After(After(c, WriteBytes(d)), Finish), Opening(g, Written(g, d)), r, seg)
  {
    var stream := Base(g).stream.Write(d);
    assert stream == Base(g).stream.(log := d);
    OpeningWaits(g, stream);
    OpeningWaits(g, Written(g, d));
  }

  /** The SYN-ACK brings out the first side's data. */
  lemma SynSentStep(g: Config, h: Config, d: seq<byte>, c: Connection, seg: TcpSegment)
    requires Holds(c, Opening(g, Written(g, d)), Rx.FreshReceiver(g.recvCapacity), seg) && FitsOnce(g, h, d)
    ensures var r, win := Heard(g, h.isn), h.recvCapacity % TWO16;
            Holds(After(c, Arrive(Stamp(Heard(h, g.isn), BareSyn(h.isn)))), Sending(g, d, win), r,
                  Stamp(r, Whole(g, d)))
  {
    var r, win, a := Heard(g, h.isn), h.recvCapacity % TWO16, Stamp(Heard(h, g.isn), BareSyn(h.isn));
    SynAckSendsWhole(g, d, win);
    SynAckArrives(g, a, h.isn);
    var c1 := QueueEmpty(TakeBoth(c.(sinceReceived := 0), a));
    assert Whole(g, d) in c1.sender.out;
    DrainsOne(c1, Whole(g, d));
    assert After(c, Arrive(a)) == SendData(c1);
  }

  /** The other side, still waiting for the ack of its SYN, gets that, the data and the FIN in
      one segment; its own data is queued, and moved out with the owner's next call. */
  lemma SynRcvdStep(g: Config, h: Config, d: seq<byte>, e: seq<byte>, c: Connection, seg: TcpSegment)
    returns (r: Rx.Receiver)
    requires Holds(c, Opening(h, Written(h, e)), Heard(h, g.isn), seg) && FitsOnce(g, h, d) && FitsOnce(h, g, e)
    ensures Full(r, h, g.isn, d)
    ensures Holds(After(After(c, Arrive(Stamp(Heard(g, h.isn), Whole(g, d)))), Finish),
                 Sending(h, e, g.recvCapacity % TWO16), r, Stamp(r, Whole(h, e)))
  {
    var win, a := g.recvCapacity % TWO16, Stamp(Heard(g, h.isn), Whole(g, d));
    SynAckSendsWhole(h, e, win);
    WholeArrives(g, h, d, a);
    r := Rx.SegmentReceived(Heard(h, g.isn), a);
    var c1 := After(c, Arrive(a));
    assert c1 == TakeBoth(c.(sinceReceived := 0), a);
    assert c1.sender == Sending(h, e, win).(out := [Whole(h, e)]) && c1.receiver == r;
    var c2 := Fill(c1.(sender := c1.sender.(stream := c1.sender.stream.(ended := true))));
    assert c2.sender == c1.sender;
    DrainsOne(c2, Whole(h, e));
  }

  /** Everything was sent, received and acknowledged; only lingering is left. */
  predicate Quiet(c: Connection, s: Sender, r: Rx.Receiver) {
    c.Valid() && c.sender == s && c.receiver == r && (c.active ==> c.linger)
  }

  function LastAck(g: Config, d: seq<byte>): TcpSegment {
    TcpSegment(EMPTY_HEADER.(seqno := Wrap(|d| + 2, g.isn)), [])
  }

  lemma FinWaitStep(g: Config, h: Config, d: seq<byte>, e: seq<byte>, c: Connection, seg: TcpSegment, r: Rx.Receiver)
    returns (r': Rx.Receiver)
    requires Holds(c, Sending(g, d, h.recvCapacity % TWO16), Heard(g, h.isn), seg)
    requires Full(r, h, g.isn, d) && FitsOnce(g, h, d) && FitsOnce(h, g, e)
    ensures Full(r', g, h.isn, e)
    ensures var c' := After(c, Arrive(Stamp(r, Whole(h, e))));
            Quiet(c', Spent(g, d, r.WindowSize() % TWO16), r') && Stamp(r', LastAck(g, d)) in c'.out
  {
    var win', a := r.WindowSize() % TWO16, Stamp(r, Whole(h, e));
    WholeIsCovered(g, d, h.recvCapacity % TWO16, win');
    WholeArrives(h, g, e, a);
    r' := Rx.SegmentReceived(Heard(g, h.isn), a);
    var c1 := QueueEmpty(TakeBoth(c.(sinceReceived := 0), a));
    assert c1.sender == Spent(g, d, win').(out := [LastAck(g, d)]);
    assert After(c, Arrive(a)) == SendData(c1);
    DrainsOne(c1, LastAck(g, d));
  }

  lemma ClosingStep(g: Config, h: Config, d: seq<byte>, e: seq<byte>, c: Connection, seg: TcpSegment, r: Rx.Receiver,
        r': Rx.Receiver)
    requires Holds(c, Sending(h, e, g.recvCapacity % TWO16), r, seg)
    requires Full(r, h, g.isn, d) && Full(r', g, h.isn, e) && FitsOnce(g, h, d) && FitsOnce(h, g, e)
    ensures Quiet(After(c, Arrive(Stamp(r', LastAck(g, d)))), Spent(h, e, r'.WindowSize() % TWO16), r)
  {
    var win', a := r'.WindowSize() % TWO16, Stamp(r', LastAck(g, d));
    WholeIsCovered(h, e, g.recvCapacity % TWO16, win');
    var c1 := TakeBoth(c.(sinceReceived := 0), a);
    assert c1.sender == Spent(h, e, win') && c1.receiver == r;
    assert FillWindow(c1.sender) == c1.sender;
    assert After(c, Arrive(a)) == SendData(Fill(c1));
  }

  lemma LingerStep(g: Config, h: Config, d: seq<byte>, e: seq<byte>, c: Connection, win: u16, r: Rx.Receiver)
    requires Quiet(c, Spent(g, d, win), r) && Full(r, g, h.isn, e) && |d| <= g.sendCapacity
    ensures var c' := After(c, Pass(10 * c.rtTimeout));
            StateOf(c') == Official(CLOSED) && c'.receiver.Out() == Stream(g.recvCapacity, e, 0, true, false)
  {
  }

  // ----- the run -----

  /** A fair run leads to `p`. */
  ghost predicate Reached(g: Config, h: Config, p: Pair) {
    exists acts, ps :: FairTo(g, h, acts, ps, p)
  }

  ghost predicate FairTo(g: Config, h: Config, acts: seq<Action>, ps: seq<Pair>, p: Pair) {
    IsFairRun(g, h, acts, ps) && ps[|acts|] == p
  }

  lemma StartReached(g: Config, h: Config)
    ensures Reached(g, h, Duplex.Start(g, h))
  {
    assert FairTo(g, h, [], [Duplex.Start(g, h)], Duplex.Start(g, h));
  }

  lemma OneMore(g: Config, h: Config, p: Pair, act: Action)
    requires Reached(g, h, p) && p.Valid() && Fair(p, act)
    ensures Reached(g, h, Duplex.Act(p, act))
  {
    var acts, ps :| FairTo(g, h, acts, ps, p);
    var acts', ps' := acts + [act], ps + [Duplex.Act(p, act)];
    forall i: nat | i < |acts'| ensures FairAt(acts', ps', i) {
      assert i < |acts| ==> FairAt(acts, ps, i);
    }
    assert FairTo(g, h, acts', ps', Duplex.Act(p, act));
  }

  /** A segment on the wire that acknowledges `n`, if anything, may arrive. */
  lemma OneArrival(g: Config, h: Config, p: Pair, x: Duplex.Side, seg: TcpSegment, n: nat)
    requires Reached(g, h, p) && p.Valid() && seg in p.Peer(x).out && !seg.header.rst
    requires p.At(x).receiver.checkpoint <= TWO31 && p.At(x).sender.next < n + TWO31
    requires ConnectionProofs.UsesAck(p.At(x), seg) ==> seg.header.ack && AckOf(p.Peer(x).receiver, seg, n)
    ensures Reached(g, h, Duplex.Act(p, Action(x, Arrive(seg))))
  {
    var acts, ps :| FairTo(g, h, acts, ps, p);
    FairRunKeepsInv(g, h, acts, ps, |acts|);
    var i :| 0 <= i < |p.Peer(x).out| && p.Peer(x).out[i] == seg;
    assert Sent(p.Peer(x).sender, p.Peer(x).out[i]);
    var lo: nat :| SentAt(p.Peer(x).sender, seg, lo);
    assert ArrivingLate(p, x, seg);
    OneMore(g, h, p, Action(x, Arrive(seg)));
  }

  /** Both SYNs are out, and everything is written and ended. */
  lemma BothOpen(g: Config, h: Config, d: seq<byte>, e: seq<byte>) returns (p: Pair)
    requires FitsOnce(g, h, d) && FitsOnce(h, g, e)
    ensures Reached(g, h, p)
    ensures Holds(p.left, Opening(g, Written(g, d)), Rx.FreshReceiver(g.recvCapacity), BareSyn(g.isn))
    ensures Holds(p.right, Opening(h, Written(h, e)), Heard(h, g.isn), Stamp(Heard(h, g.isn), BareSyn(h.isn)))
  {
    var p0 := Duplex.Start(g, h);
    StartReached(g, h);
    OneMore(g, h, p0, Action(Left, Open));
    var p1 := Duplex.Act(p0, Action(Left, Open));
    OpenStep(g);
    OneArrival(g, h, p1, Right, BareSyn(g.isn), 0);
    var p2 := Duplex.Act(p1, Action(Right, Arrive(BareSyn(g.isn))));
    ListenStep(g, h);
    p := WriteBoth(g, h, d, e, p2);
  }

  lemma WriteBoth(g: Config, h: Config, d: seq<byte>, e: seq<byte>, p2: Pair) returns (p: Pair)
    requires FitsOnce(g, h, d) && FitsOnce(h, g, e) && Reached(g, h, p2)
    requires Holds(p2.left, Opening(g, Base(g).stream), Rx.FreshReceiver(g.recvCapacity), BareSyn(g.isn))
    requires Holds(p2.right, Opening(h, Base(h).stream), Heard(h, g.isn), Stamp(Heard(h, g.isn), BareSyn(h.isn)))
    ensures Reached(g, h, p)
    ensures Holds(p.left, Opening(g, Written(g, d)), Rx.FreshReceiver(g.recvCapacity), BareSyn(g.isn))
    ensures Holds(p.right, Opening(h, Written(h, e)), Heard(h, g.isn), Stamp(Heard(h, g.isn), BareSyn(h.isn)))
  {
    WriteStep(g, d, p2.left, Rx.FreshReceiver(g.recvCapacity), BareSyn(g.isn));
    var p3 := WriteOne(g, h, p2, Left, d);
    WriteStep(h, e, p3.right, Heard(h, g.isn), Stamp(Heard(h, g.isn), BareSyn(h.isn)));
    p := WriteOne(g, h, p3, Right, e);
  }

  lemma WriteOne(g: Config, h: Config, p: Pair, x: Duplex.Side, d: seq<byte>) returns (p': Pair)
    requires Reached(g, h, p) && p.Valid() && |d| <= MAX_PAYLOAD_SIZE
    requires p.At(x).sender.stream.log == [] && !p.At(x).sender.stream.ended
    ensures p' == p.With(x, After(After(p.At(x), WriteBytes(d)), Finish)) && Reached(g, h, p')
  {
    OneMore(g, h, p, Action(x, WriteBytes(d)));
    var q := Duplex.Act(p, Action(x, WriteBytes(d)));
    OneMore(g, h, q, Action(x, Finish));
    p' := Duplex.Act(q, Action(x, Finish));
  }

  /** Each side's data and FIN are on the wire, and the left one's arrived. */
  lemma BothSend(g: Config, h: Config, d: seq<byte>, e: seq<byte>, p: Pair)
    returns (p': Pair, r: Rx.Receiver, seg: TcpSegment)
    requires FitsOnce(g, h, d) && FitsOnce(h, g, e) && Reached(g, h, p)
    requires Holds(p.left, Opening(g, Written(g, d)), Rx.FreshReceiver(g.recvCapacity), BareSyn(g.isn))
    requires Holds(p.right, Opening(h, Written(h, e)), Heard(h, g.isn), Stamp(Heard(h, g.isn), BareSyn(h.isn)))
    ensures Reached(g, h, p') && Full(r, h, g.isn, d)
    ensures Holds(p'.left, Sending(g, d, h.recvCapacity % TWO16), Heard(g, h.isn), seg)
    ensures Holds(p'.right, Sending(h, e, g.recvCapacity % TWO16), r, Stamp(r, Whole(h, e)))
  {
    var synAck := Stamp(Heard(h, g.isn), BareSyn(h.isn));
    SynSentStep(g, h, d, p.left, BareSyn(g.isn));
    OneArrival(g, h, p, Left, synAck, 1);
    var p1 := Duplex.Act(p, Action(Left, Arrive(synAck)));
    seg := Stamp(Heard(g, h.isn), Whole(g, d));
    r := SynRcvdStep(g, h, d, e, p1.right, synAck);
    OneArrival(g, h, p1, Right, seg, 1);
    var p2 := Duplex.Act(p1, Action(Right, Arrive(seg)));
    OneMore(g, h, p2, Action(Right, Finish));
    p' := Duplex.Act(p2, Action(Right, Finish));
  }

  /** Each side has all of the other's and knows its own to be acknowledged. */
  lemma BothReceive(g: Config, h: Config, d: seq<byte>, e: seq<byte>, p: Pair, r: Rx.Receiver, seg: TcpSegment)
    returns (p': Pair, r': Rx.Receiver)
    requires FitsOnce(g, h, d) && FitsOnce(h, g, e) && Reached(g, h, p) && Full(r, h, g.isn, d)
    requires Holds(p.left, Sending(g, d, h.recvCapacity % TWO16), Heard(g, h.isn), seg)
    requires Holds(p.right, Sending(h, e, g.recvCapacity % TWO16), r, Stamp(r, Whole(h, e)))
    ensures Reached(g, h, p') && Full(r', g, h.isn, e)
    ensures Quiet(p'.left, Spent(g, d, r.WindowSize() % TWO16), r')
    ensures Quiet(p'.right, Spent(h, e, r'.WindowSize() % TWO16), r)
  {
    var whole := Stamp(r, Whole(h, e));
    r' := FinWaitStep(g, h, d, e, p.left, seg, r);
    OneArrival(g, h, p, Left, whole, |d| + 2);
    var p1 := Duplex.Act(p, Action(Left, Arrive(whole)));
    ClosingStep(g, h, d, e, p1.right, whole, r, r');
    OneArrival(g, h, p1, Right, Stamp(r', LastAck(g, d)), |e| + 2);
    p' := Duplex.Act(p1, Action(Right, Arrive(Stamp(r', LastAck(g, d)))));
  }

  /** Whatever the configurations, and whatever either side has to say that fits one segment and
      the other's window: a fair run leads to both sides CLOSED, with all of it received. */
  lemma CloseIsReached(g: Config, h: Config, d: seq<byte>, e: seq<byte>)
    returns (acts: seq<Action>, ps: seq<Pair>)
    requires FitsOnce(g, h, d) && FitsOnce(h, g, e)
    ensures IsFairRun(g, h, acts, ps)
    ensures StateOf(ps[|acts|].left) == Official(CLOSED) && StateOf(ps[|acts|].right) == Official(CLOSED)
    ensures ps[|acts|].left.receiver.Out().log == e && ps[|acts|].right.receiver.Out().log == d
  {
    var p := BothOpen(g, h, d, e);
    var p1, r, seg := BothSend(g, h, d, e, p);
    var p2, r' := BothReceive(g, h, d, e, p1, r, seg);
    var left, right := Action(Left, Pass(10 * p2.left.rtTimeout)), Action(Right, Pass(10 * p2.right.rtTimeout));
    LingerStep(g, h, d, e, p2.left, r.WindowSize() % TWO16, r');
    OneMore(g, h, p2, left);
    var p3 := Duplex.Act(p2, left);
    LingerStep(h, g, e, d, p2.right, r'.WindowSize() % TWO16, r);
    OneMore(g, h, p3, right);
    var p4 := Duplex.Act(p3, right);
    acts, ps :| FairTo(g, h, acts, ps, p4);
  }
}
