/** Two connections that take acknowledgments only from segments with the ACK flag. Then nothing
    has to be assumed of the acknowledgments themselves, everything acknowledged was received,
    and a clean close means that both streams arrived whole. */
module DuplexAcks {
  import opened Numbers
  import opened WrappingIntegers
  import opened ByteStreams
  import opened TcpSegments
  import Rx = TcpReceivers
  import opened TcpSenders
  import opened SenderProofs
  import opened Deliveries
  import opened TcpConnections
  import opened TcpStates
  import ConnectionProofs
  import opened ConnectionRuns
  import ConnectionAcks
  import opened ConnectionSends
  import opened Duplex

  /** `seg` carries the ackno that `r` has, or had, for number `n`. */
  predicate AckOf(r: Rx.Receiver, seg: TcpSegment, n: nat) {
    r.synReceived && 1 <= n <= r.AbsAckno() && seg.header.ackno == Wrap(n, r.isn)
  }

  ghost predicate Genuine(r: Rx.Receiver, seg: TcpSegment) {
    seg.header.rst || !seg.header.ack || exists n: nat :: AckOf(r, seg, n)
  }

  /** Every acknowledgment ever sent was of something received. */
  ghost predicate AcksGenuine(c: Connection) {
    forall i :: 0 <= i < |c.out| ==> Genuine(c.receiver, c.out[i])
  }

  lemma GenuineLater(r: Rx.Receiver, r': Rx.Receiver, seg: TcpSegment)
    requires Genuine(r, seg) && ConnectionAcks.Later(r, r')
    ensures Genuine(r', seg)
  {
    if !seg.header.rst && seg.header.ack {
      var n: nat :| AckOf(r, seg, n);
      assert AckOf(r', seg, n);
    }
  }

  lemma StampedIsGenuine(r: Rx.Receiver, seg: TcpSegment)
    requires r.Valid() && ConnectionProofs.Stamped(r, seg)
    ensures Genuine(r, seg)
  {
    if !seg.header.rst && seg.header.ack {
      assert AckOf(r, seg, r.AbsAckno());
    }
  }

  lemma EventKeepsGenuine(c: Connection, e: Event)
    requires ConnectionProofs.Inv(c) && Allowed(c, e) && AcksGenuine(c)
    ensures AcksGenuine(After(c, e))
  {
    var c' := After(c, e);
    ConnectionAcks.EventIsLater(c, e);
    ConnectionAcks.EventEmits(c, e);
    forall i | 0 <= i < |c'.out| ensures Genuine(c'.receiver, c'.out[i]) {
      if i < |c.out| {
        assert c'.out[i] == c.out[i];
        GenuineLater(c.receiver, c'.receiver, c.out[i]);
      } else {
        StampedIsGenuine(c'.receiver, c'.out[i]);
      }
    }
  }

  /** What `s` takes for acknowledged, `r` has received. */
  predicate AckedIsReceived(s: Sender, r: Rx.Receiver) {
    AckedUpTo(s) <= if r.synReceived then r.AbsAckno() else 0
  }

  ghost predicate AckInv(p: Pair) {
    && AcksGenuine(p.left) && AcksGenuine(p.right)
    && AckedIsReceived(p.left.sender, p.right.receiver)
    && AckedIsReceived(p.right.sender, p.left.receiver)
  }

  // ----- fair runs -----

  /** `seg` is on the peer's wire, and was sent no more than 2^31 numbers before what was
      received. */
  ghost predicate ArrivingLate(p: Pair, x: Side, seg: TcpSegment) {
    && seg in p.Peer(x).out
    && (seg.header.rst ||
        exists lo: nat :: SentAt(p.Peer(x).sender, seg, lo) && p.At(x).receiver.checkpoint <= lo + TWO31)
  }

  /** If the connection uses the segment's ackno then it is an ack, of a number less than 2^31
      before what was sent. */
  ghost predicate Heeded(p: Pair, x: Side, seg: TcpSegment)
    requires p.Valid()
  {
    ConnectionProofs.UsesAck(p.At(x), seg) ==>
      && seg.header.ack
      && exists n: nat :: AckOf(p.Peer(x).receiver, seg, n) && p.At(x).sender.next < n + TWO31
  }

  /** What owners and network do, with nothing said about which acknos are harmless. */
  ghost predicate Fair(p: Pair, act: Action)
    requires p.Valid()
  {
    var c, e := p.At(act.side), act.event;
    && Bounded(c, e)
    && (e.WriteBytes? ==> !c.sender.stream.ended)
    && (e.Arrive? ==> ArrivingLate(p, act.side, e.seg) && Heeded(p, act.side, e.seg))
  }

  ghost predicate FairAt(acts: seq<Action>, ps: seq<Pair>, i: nat) {
    && i < |acts| && i + 1 < |ps| && ps[i].Valid()
    && Fair(ps[i], acts[i])
    && ps[i + 1] == Act(ps[i], acts[i])
  }

  ghost predicate IsFairRun(g: ConnectionRuns.Config, h: ConnectionRuns.Config, acts: seq<Action>, ps: seq<Pair>) {
    && |ps| == |acts| + 1
    && ps[0] == Start(g, h)
    && (forall i: nat :: i < |acts| ==> FairAt(acts, ps, i))
    && (forall i :: 0 <= i < |ps| ==> ps[i].Valid())
  }

  /** An ack of something received leaves in flight exactly what was sent after it. */
  lemma AckLeaves(s: Sender, r: Rx.Receiver, seg: TcpSegment, n: nat)
    requires SenderGood(s) && ReceiverSafe(s, r) && AckOf(r, seg, n) && s.next < n + TWO31
    ensures LeftInFlight(s, seg.header.ackno) == s.next - n >= 0
  {
    ReceiverSafeMeans(s, r);
    OffsetOfWraps(s.next, n, s.isn);
  }

  lemma HeededIsLegal(p: Pair, x: Side, seg: TcpSegment)
    requires Duplex.Inv(p) && Heeded(p, x, seg)
    ensures ConnectionProofs.LegalSegment(p.At(x), seg)
  {
    var s, r := p.At(x).sender, p.Peer(x).receiver;
    if ConnectionProofs.UsesAck(p.At(x), seg) {
      var n: nat :| AckOf(r, seg, n) && s.next < n + TWO31;
      AckLeaves(s, r, seg, n);
    }
  }

  /** The window bound keeps what is sent from running ahead of what was received. */
  lemma LateIsNear(s: Sender, r: Rx.Receiver, lo: nat)
    requires Tiling(s) && WindowBounded(s) && Rx.Inv(r) && AckedIsReceived(s, r)
    requires lo <= s.next && r.checkpoint <= lo + TWO31
    ensures Near(lo, r.checkpoint)
  {
  }

  lemma LateIsArriving(p: Pair, x: Side, seg: TcpSegment)
    requires Duplex.Inv(p) && AckInv(p) && ArrivingLate(p, x, seg)
    ensures Arriving(p, x, seg)
  {
    if !seg.header.rst {
      var s, r := p.Peer(x).sender, p.At(x).receiver;
      var lo: nat :| SentAt(s, seg, lo) && r.checkpoint <= lo + TWO31;
      LateIsNear(s, r, lo);
    }
  }

  /** A fair action is a possible one: no arriving ackno can do harm. */
  lemma FairIsPossible(p: Pair, act: Action)
    requires Duplex.Inv(p) && AckInv(p) && Fair(p, act)
    ensures Possible(p, act)
  {
    if act.event.Arrive? {
      HeededIsLegal(p, act.side, act.event.seg);
      LateIsArriving(p, act.side, act.event.seg);
    }
  }

  lemma AckedAfterIsReceived(p: Pair, x: Side, e: Event)
    requires Duplex.Inv(p) && AckInv(p) && Allowed(p.At(x), e)
    requires e.Arrive? ==> Heeded(p, x, e.seg)
    ensures AckedAfter(p.At(x), e) <= if p.Peer(x).receiver.synReceived then p.Peer(x).receiver.AbsAckno() else 0
  {
    var s, r := p.At(x).sender, p.Peer(x).receiver;
    if e.Arrive? && ConnectionProofs.UsesAck(p.At(x), e.seg) {
      var n: nat :| AckOf(r, e.seg, n) && s.next < n + TWO31;
      AckLeaves(s, r, e.seg, n);
      var news := AckKeepsTiling(s, e.seg.header.ackno, e.seg.header.win);
    }
  }

  lemma FairKeepsAckInv(p: Pair, act: Action)
    requires Duplex.Inv(p) && AckInv(p) && Fair(p, act)
    ensures AckInv(Act(p, act))
  {
    var c, e := p.At(act.side), act.event;
    FairIsPossible(p, act);
    EventKeepsGenuine(c, e);
    EventSends(c, e);
    AckedAfterIsReceived(p, act.side, e);
    ConnectionAcks.EventIsLater(c, e);
  }

  lemma {:induction false} FairRunKeepsInv(g: ConnectionRuns.Config, h: ConnectionRuns.Config, acts: seq<Action>, ps: seq<Pair>, n: nat)
    requires IsFairRun(g, h, acts, ps) && n <= |acts|
    ensures Duplex.Inv(ps[n]) && AckInv(ps[n])
  {
    if n == 0 {
      StartInv(g, h);
    } else {
      FairRunKeepsInv(g, h, acts, ps, n - 1);
      assert FairAt(acts, ps, n - 1);
      FairIsPossible(ps[n - 1], acts[n - 1]);
      ActKeepsInv(ps[n - 1], acts[n - 1]);
      FairKeepsAckInv(ps[n - 1], acts[n - 1]);
    }
  }

  /** In a fair run every arriving segment is one the connection may be given: the condition on
      acknos that a single connection asks of the network is met by its peer. */
  lemma FairRunsAreRuns(g: ConnectionRuns.Config, h: ConnectionRuns.Config, acts: seq<Action>, ps: seq<Pair>)
    requires IsFairRun(g, h, acts, ps)
    ensures Duplex.IsRun(g, h, acts, ps)
  {
    forall i: nat | i < |acts| ensures Duplex.StepAt(acts, ps, i) {
      FairRunKeepsInv(g, h, acts, ps, i);
      assert FairAt(acts, ps, i);
      FairIsPossible(ps[i], acts[i]);
    }
  }

  /** Whatever a side takes for acknowledged its peer has received, and no ack on the wire is
      of more than that. */
  lemma AckedWasReceived(g: ConnectionRuns.Config, h: ConnectionRuns.Config, acts: seq<Action>, ps: seq<Pair>, x: Side)
    requires IsFairRun(g, h, acts, ps)
    ensures var c, peer := ps[|acts|].At(x), ps[|acts|].Peer(x);
            && AckedIsReceived(c.sender, peer.receiver)
            && AcksGenuine(c)
            && (c.receiver.synReceived ==> c.receiver.AbsAckno() <= peer.sender.next)
  {
    FairRunKeepsInv(g, h, acts, ps, |acts|);
    ReceiverSafeMeans(ps[|acts|].Peer(x).sender, ps[|acts|].At(x).receiver);
  }

  lemma AllAckedIsAllReceived(s: Sender, r: Rx.Receiver)
    requires SenderGood(s) && ReceiverSafe(s, r) && AckedIsReceived(s, r)
    requires s.next > 0 && SenderProofs.FinSent(s) && s.bif == 0
    ensures r.Out().ended && r.Out().log == s.stream.log
  {
    ReceiverSafeMeans(s, r);
  }

  /** A clean close is a complete one: once either side is CLOSED, each side has received all
      that the other wrote, to its end. */
  lemma CleanCloseIsComplete(g: ConnectionRuns.Config, h: ConnectionRuns.Config, acts: seq<Action>, ps: seq<Pair>, x: Side)
    requires IsFairRun(g, h, acts, ps) && StateOf(ps[|acts|].At(x)) == Official(CLOSED)
    ensures var c, peer := ps[|acts|].At(x), ps[|acts|].Peer(x);
            && c.sender.stream.ended && peer.sender.stream.ended
            && c.receiver.Out().ended && c.receiver.Out().log == peer.sender.stream.log
            && peer.receiver.Out().ended && peer.receiver.Out().log == c.sender.stream.log
  {
    var c, peer := ps[|acts|].At(x), ps[|acts|].Peer(x);
    FairRunKeepsInv(g, h, acts, ps, |acts|);
    InactiveState(c);
    ReceiverSafeMeans(peer.sender, c.receiver);
    AllAckedIsAllReceived(c.sender, peer.receiver);
  }
}
