/** The acknowledgments a connection sends never go backwards. */
module ConnectionAcks {
  import opened Numbers
  import opened WrappingIntegers
  import opened TcpSegments
  import Rx = TcpReceivers
  import opened TcpConnections
  import opened ConnectionProofs
  import opened ConnectionRuns

  /** No later than: nothing is earlier than everything. */
  predicate Leq(a: Option<nat>, b: Option<nat>) {
    a.None? || (b.Some? && a.value <= b.value)
  }

  /** `r'` has everything `r` had, under the same numbering. */
  ghost predicate Later(r: Rx.Receiver, r': Rx.Receiver) {
    && Leq(CurrentAck(r), CurrentAck(r')) && (r.synReceived ==> r'.isn == r.isn)
    && (r.Out().ended ==> r'.Out().ended) && (r.Out().error ==> r'.Out().error)
  }

  lemma HandleReceives(c: Connection, seg: TcpSegment)
    requires c.Valid() && c.active && !seg.header.rst
    ensures Handle(c, seg).receiver == c.receiver ||
            Handle(c, seg).receiver == Rx.SegmentReceived(c.receiver, seg)
  {
    if UsesAck(c, seg) {
      AckedAnswers(c, seg);
    } else {
      UnackedAnswers(c, seg);
    }
  }

  lemma ArrivalReceives(c: Connection, seg: TcpSegment)
    requires c.Valid()
    ensures var r' := SegmentReceived(c, seg).receiver;
            || r' == c.receiver || r' == Rx.SegmentReceived(c.receiver, seg)
            || r' == SetErrors(c).receiver
  {
    if c.active && !seg.header.rst {
      HandleReceives(c.(sinceReceived := 0), seg);
    }
  }

  lemma TickReceives(c: Connection, ms: nat)
    requires c.Valid()
    ensures Later(c.receiver, TcpConnections.Tick(c, ms).receiver)
  {
  }

  lemma EventIsLater(c: Connection, e: Event)
    requires ConnectionProofs.Inv(c) && Allowed(c, e)
    ensures Later(c.receiver, After(c, e).receiver)
  {
    match e
    case Arrive(seg) =>
      ArrivalReceives(c, seg);
      Rx.ReceiveKeepsInv(c.receiver, seg);
    case WriteBytes(data) =>
    case Pass(ms) => TickReceives(c, ms);
    case Finish =>
    case Open =>
    case ReadBytes(len) =>
  }

  /** `seg` went out with the absolute ackno `ack`, or before there was any. */
  predicate Carries(seg: TcpSegment, ack: Option<nat>, isn: u32) {
    seg.header.rst ||
    if ack.Some? then seg.header.ack && seg.header.ackno == Wrap(ack.value, isn) else !seg.header.ack
  }

  ghost predicate Recorded(h: ConnectionHistory)
    requires h.c.Valid()
  {
    && |h.acks| == |h.c.out|
    && (forall i :: 0 <= i < |h.acks| ==> Leq(h.acks[i], CurrentAck(h.c.receiver)))
    && (forall i :: 0 <= i < |h.acks| ==> Carries(h.c.out[i], h.acks[i], h.c.receiver.isn))
    && (forall i, j :: 0 <= i < j < |h.acks| ==> Leq(h.acks[i], h.acks[j]))
  }

  lemma NextIsRecorded(h: ConnectionHistory, e: Event)
    requires ConnectionProofs.Inv(h.c) && Allowed(h.c, e) && Recorded(h)
    ensures Recorded(Next(h, e))
  {
    var h' := Next(h, e);
    EventIsLater(h.c, e);
    EventEmits(h.c, e);
    var ack := CurrentAck(h'.c.receiver);
    forall i | 0 <= i < |h'.acks|
      ensures Leq(h'.acks[i], ack) && (i >= |h.acks| ==> h'.acks[i] == ack)
      ensures Carries(h'.c.out[i], h'.acks[i], h'.c.receiver.isn)
    {
      if i < |h.acks| {
        assert h'.c.out[i] == h.c.out[i] && h'.acks[i] == h.acks[i];
        assert Leq(h.acks[i], CurrentAck(h.c.receiver));
      } else {
        assert Stamped(h'.c.receiver, h'.c.out[i]);
      }
    }
  }

  lemma EventEmits(c: Connection, e: Event)
    requires ConnectionProofs.Inv(c) && Allowed(c, e)
    ensures Emits(c.out, After(c, e))
  {
    match e
    case Arrive(seg) => SegmentKeepsInv(c, seg);
    case WriteBytes(data) => WriteKeepsInv(c, data);
    case Pass(ms) => TickKeepsInv(c, ms);
    case Finish => EndInputKeepsInv(c);
    case Open => ConnectKeepsInv(c);
    case ReadBytes(len) =>
  }

  lemma BeginIsRecorded(g: Config)
    ensures Recorded(Begin(g))
  {
  }

  lemma {:induction false} RunIsRecorded(g: Config, es: seq<Event>, hs: seq<ConnectionHistory>, n: nat)
    requires IsRun(g, es, hs) && n <= |es|
    ensures Recorded(hs[n])
  {
    if n == 0 {
      BeginIsRecorded(g);
    } else {
      RunIsRecorded(g, es, hs, n - 1);
      RunKeepsInv(g, es, hs, n - 1);
      assert StepAt(es, hs, n - 1);
      NextIsRecorded(hs[n - 1], es[n - 1]);
    }
  }

  /** Over any run, the absolute acknos put on the segments that are no RST never decrease, and
      each is the one behind the segment's 32-bit ackno; segments sent before the peer's SYN
      arrived carry none. */
  lemma AcksNeverGoBackwards(g: Config, es: seq<Event>, hs: seq<ConnectionHistory>, i: nat, j: nat)
    requires IsRun(g, es, hs) && i <= j < |hs[|es|].c.out|
    requires !hs[|es|].c.out[i].header.rst && !hs[|es|].c.out[j].header.rst
    ensures var h := hs[|es|];
            && |h.acks| == |h.c.out|
            && Carries(h.c.out[i], h.acks[i], h.c.receiver.isn)
            && Carries(h.c.out[j], h.acks[j], h.c.receiver.isn)
            && Leq(h.acks[i], h.acks[j])
            && Leq(h.acks[j], CurrentAck(h.c.receiver))
  {
    RunIsRecorded(g, es, hs, |es|);
  }
}
