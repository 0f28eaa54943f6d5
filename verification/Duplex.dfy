/** Two whole connections over a network that may lose, duplicate and reorder whatever either of
    them sends. */
module Duplex {
  import opened Numbers
  import opened WrappingIntegers
  import opened ByteStreams
  import opened ReassemblyRuns
  import opened TcpSegments
  import Rx = TcpReceivers
  import opened TcpSenders
  import opened Deliveries
  import opened TcpConnections
  import opened TcpStates
  import ConnectionProofs
  import opened ConnectionRuns
  import ConnectionAcks
  import opened ConnectionSends

  datatype Side = Left | Right

  /** A connection's outbound queue is never emptied here, so it holds everything it ever sent:
      what is not delivered is lost or late, what is delivered twice is duplicated. */
  datatype Pair = Pair(left: Connection, right: Connection) {
    predicate Valid() { left.Valid() && right.Valid() }
    function At(x: Side): Connection { if x == Left then left else right }
    function Peer(x: Side): Connection { if x == Left then right else left }

    function With(x: Side, c: Connection): Pair {
      if x == Left then this.(left := c) else this.(right := c)
    }
  }

  /** Something happens at one of the sides. */
  datatype Action = Action(side: Side, event: Event)

  function Start(g: ConnectionRuns.Config, h: ConnectionRuns.Config): (p: Pair)
    ensures p.Valid()
  {
    Pair(Begin(g).c, Begin(h).c)
  }

  function Act(p: Pair, act: Action): (p': Pair)
    requires p.Valid()
    ensures p'.Valid()
  {
    p.With(act.side, After(p.At(act.side), act.event))
  }

  predicate Near(n: nat, checkpoint: nat) { -TWO31 <= n - checkpoint < TWO31 }

  /** `seg` is on the peer's wire, and was sent at a number within 2^31 of what was received. */
  ghost predicate Arriving(p: Pair, x: Side, seg: TcpSegment) {
    && seg in p.Peer(x).out
    && (seg.header.rst || exists lo: nat :: SentAt(p.Peer(x).sender, seg, lo) && Near(lo, p.At(x).receiver.checkpoint))
  }

  /** The application writes no more than the longest stream considered. */
  predicate Bounded(c: Connection, e: Event)
    requires c.Valid()
  {
    e.WriteBytes? ==> |c.sender.stream.Write(e.data).log| <= LONGEST
  }

  /** What the owners and the network do: besides what each connection asks of its owner, only
      segments that the peer sent arrive, none of them from half the number space away. */
  ghost predicate Possible(p: Pair, act: Action)
    requires p.Valid()
  {
    var c, e := p.At(act.side), act.event;
    && Allowed(c, e) && Bounded(c, e)
    && (e.Arrive? ==> Arriving(p, act.side, e.seg))
  }

  /** Action number `i` was possible and led from state `i` to the next one. */
  ghost predicate StepAt(acts: seq<Action>, ps: seq<Pair>, i: nat) {
    && i < |acts| && i + 1 < |ps| && ps[i].Valid()
    && Possible(ps[i], acts[i])
    && ps[i + 1] == Act(ps[i], acts[i])
  }

  /** `ps` are the states of a run of two connections on the actions `acts`. */
  ghost predicate IsRun(g: ConnectionRuns.Config, h: ConnectionRuns.Config, acts: seq<Action>, ps: seq<Pair>) {
    && |ps| == |acts| + 1
    && ps[0] == Start(g, h)
    && (forall i: nat :: i < |acts| ==> StepAt(acts, ps, i))
    && (forall i :: 0 <= i < |ps| ==> ps[i].Valid())
  }

  // ----- the invariant -----

  ghost predicate SideOk(c: Connection) {
    ConnectionProofs.Inv(c) && OutSent(c) && |c.sender.stream.log| <= LONGEST
  }

  ghost predicate Inv(p: Pair) {
    && SideOk(p.left) && SideOk(p.right)
    && ReceiverSafe(p.left.sender, p.right.receiver)
    && ReceiverSafe(p.right.sender, p.left.receiver)
  }

  lemma StartInv(g: ConnectionRuns.Config, h: ConnectionRuns.Config)
    ensures Inv(Start(g, h))
  {
    ConnectionProofs.FreshInv(g.rtTimeout, g.recvCapacity, g.sendCapacity, g.isn);
    ConnectionProofs.FreshInv(h.rtTimeout, h.recvCapacity, h.sendCapacity, h.isn);
  }

  // ----- what a side's receiver does -----

  function Marked(r: Rx.Receiver): Rx.Receiver {
    r.(reassembler := r.reassembler.(output := r.Out().(error := true)))
  }

  /** The receiver after an event: it took the segment or the application's read, it was marked
      as failed, or nothing happened to it. */
  ghost predicate Received(r: Rx.Receiver, e: Event, r': Rx.Receiver)
    requires r.Valid()
  {
    || r' == r || r' == Marked(r)
    || (e.Arrive? && !e.seg.header.rst && r' == Rx.SegmentReceived(r, e.seg))
    || (e.ReadBytes? && r' == Rx.Take(r, e.len))
  }

  lemma EventReceives(c: Connection, e: Event)
    requires c.Valid()
    ensures Received(c.receiver, e, After(c, e).receiver)
  {
    match e
    case Arrive(seg) =>
      if c.active && !seg.header.rst { ConnectionAcks.HandleReceives(c.(sinceReceived := 0), seg); }
    case WriteBytes(_) =>
    case Pass(_) =>
    case Finish =>
    case Open =>
    case ReadBytes(_) =>
  }

  /** The receiver does not look at what the stamp fills in. */
  lemma StampIsNotRead(r: Rx.Receiver, seg: TcpSegment)
    requires r.Valid()
    ensures Rx.SegmentReceived(r, seg) == Rx.SegmentReceived(r, Unstamped(seg))
  {
  }

  lemma ArrivalKeepsSafe(s: Sender, r: Rx.Receiver, seg: TcpSegment, lo: nat)
    requires SenderGood(s) && ReceiverSafe(s, r) && SentAt(s, seg, lo) && Near(lo, r.checkpoint)
    ensures ReceiverSafe(s, Rx.SegmentReceived(r, seg))
  {
    var n := seg.LengthInSequenceSpace();
    if n == 0 {
      EmptyKeepsSafe(s, r, seg);
    } else {
      assert s.next <= LONGEST + 2;
      UnwrapWrap(lo, s.isn, r.checkpoint);
      DeliveryKeepsSafe(s, r, Unstamped(seg), lo, lo + n);
      StampIsNotRead(r, seg);
    }
  }

  lemma MarkedStaysSafe(s: Sender, r: Rx.Receiver)
    requires s.Valid() && ReceiverSafe(s, r)
    ensures ReceiverSafe(s, Marked(r))
  {
  }

  lemma TakeStaysSafe(s: Sender, r: Rx.Receiver, len: nat)
    requires s.Valid() && ReceiverSafe(s, r)
    ensures ReceiverSafe(s, Rx.Take(r, len))
  {
  }

  lemma EventKeepsSafe(p: Pair, x: Side, e: Event)
    requires p.Valid() && SenderGood(p.Peer(x).sender) && ReceiverSafe(p.Peer(x).sender, p.At(x).receiver)
    requires e.Arrive? ==> Arriving(p, x, e.seg)
    ensures ReceiverSafe(p.Peer(x).sender, After(p.At(x), e).receiver)
  {
    var s, r, r' := p.Peer(x).sender, p.At(x).receiver, After(p.At(x), e).receiver;
    EventReceives(p.At(x), e);
    if r' == r {
    } else if r' == Marked(r) {
      MarkedStaysSafe(s, r);
    } else if e.Arrive? {
      var lo: nat :| SentAt(s, e.seg, lo) && Near(lo, r.checkpoint);
      ArrivalKeepsSafe(s, r, e.seg, lo);
    } else {
      TakeStaysSafe(s, r, e.len);
    }
  }

  // ----- one action -----

  lemma SideStaysOk(c: Connection, e: Event)
    requires SideOk(c) && Allowed(c, e) && Bounded(c, e)
    ensures SideOk(After(c, e)) && LaterSender(c.sender, After(c, e).sender)
  {
    EventKeepsInv(c, e);
    EventSends(c, e);
  }

  lemma ActKeepsInv(p: Pair, act: Action)
    requires Inv(p) && Possible(p, act)
    ensures Inv(Act(p, act))
  {
    var c, peer := p.At(act.side), p.Peer(act.side);
    SideStaysOk(c, act.event);
    EventKeepsSafe(p, act.side, act.event);
    LaterKeepsSafe(c.sender, After(c, act.event).sender, peer.receiver);
  }

  lemma {:induction false} RunKeepsInv(g: ConnectionRuns.Config, h: ConnectionRuns.Config, acts: seq<Action>, ps: seq<Pair>, n: nat)
    requires IsRun(g, h, acts, ps) && n <= |acts|
    ensures Inv(ps[n])
  {
    if n == 0 {
      StartInv(g, h);
    } else {
      RunKeepsInv(g, h, acts, ps, n - 1);
      assert StepAt(acts, ps, n - 1);
      ActKeepsInv(ps[n - 1], acts[n - 1]);
    }
  }

  /** What was received is a prefix of what was written, and all of it once it has ended. */
  predicate Delivered(written: Stream, received: Stream) {
    received.log <= written.log && (received.ended ==> written.ended && received.log == written.log)
  }

  /** Safety of two connections. In every run of both, whatever the network does with what
      they send: what each has received is a prefix of what the other has written; it has ended
      only if the other ended its stream and all of it is there; and what each acknowledges
      the other has sent. */
  lemma DuplexSafety(g: ConnectionRuns.Config, h: ConnectionRuns.Config, acts: seq<Action>, ps: seq<Pair>, x: Side)
    requires IsRun(g, h, acts, ps)
    ensures var c, peer := ps[|acts|].At(x), ps[|acts|].Peer(x);
            && Delivered(c.sender.stream, peer.receiver.Out())
            && (peer.receiver.synReceived ==> peer.receiver.isn == c.sender.isn && peer.receiver.AbsAckno() <= c.sender.next)
  {
    var p := ps[|acts|];
    RunKeepsInv(g, h, acts, ps, |acts|);
    ReceiverSafeMeans(p.At(x).sender, p.Peer(x).receiver);
  }

  /** A side that is CLOSED has received everything its peer ever wrote. */
  lemma ClosedHasReceivedAll(g: ConnectionRuns.Config, h: ConnectionRuns.Config, acts: seq<Action>, ps: seq<Pair>, x: Side)
    requires IsRun(g, h, acts, ps) && StateOf(ps[|acts|].At(x)) == Official(CLOSED)
    ensures var c, peer := ps[|acts|].At(x), ps[|acts|].Peer(x);
            peer.sender.stream.ended && c.receiver.Out().log == peer.sender.stream.log
  {
    var p := ps[|acts|];
    RunKeepsInv(g, h, acts, ps, |acts|);
    ReceiverSafeMeans(p.Peer(x).sender, p.At(x).receiver);
  }
}
