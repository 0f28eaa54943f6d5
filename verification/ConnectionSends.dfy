/** What a connection ever puts on the wire: resets, segments that hold numbers its sender has
    given out, and empty ones. */
module ConnectionSends {
  import opened Numbers
  import opened WrappingIntegers
  import opened ByteStreams
  import opened TcpSegments
  import Rx = TcpReceivers
  import opened TcpSenders
  import opened SenderProofs
  import SenderRuns
  import opened Deliveries
  import opened TcpConnections
  import opened ConnectionProofs
  import opened ConnectionRuns

  /** The segment as the sender queued it, before it was stamped. */
  function Unstamped(seg: TcpSegment): TcpSegment {
    seg.(header := seg.header.(ack := false, ackno := 0, win := 0))
  }

  /** `seg`, stamped or not, is one that `s` sent at number `lo`: it holds the numbers from
      there on, or none. */
  ghost predicate SentAt(s: Sender, seg: TcpSegment, lo: nat) {
    var n := seg.LengthInSequenceSpace();
    && lo + n <= s.next
    && if n == 0 then Unstamped(seg) == TcpSegment(EMPTY_HEADER.(seqno := Wrap(lo, s.isn)), [])
       else Occupies(s.isn, s.stream, Unstamped(seg), lo, lo + n)
  }

  ghost predicate Sent(s: Sender, seg: TcpSegment) {
    seg.header.rst || exists lo: nat :: SentAt(s, seg, lo)
  }

  ghost predicate AllSent(s: Sender, segs: seq<TcpSegment>) {
    forall i :: 0 <= i < |segs| ==> Sent(s, segs[i])
  }

  lemma SentLater(s: Sender, s': Sender, seg: TcpSegment)
    requires Sent(s, seg) && LaterSender(s, s')
    ensures Sent(s', seg)
  {
    if !seg.header.rst {
      var lo: nat :| SentAt(s, seg, lo);
      var n := seg.LengthInSequenceSpace();
      if n > 0 {
        OccupiesGrows(s.isn, s.stream, s'.stream, Unstamped(seg), lo, lo + n);
      }
      assert SentAt(s', seg, lo);
    }
  }

  lemma AllSentLater(s: Sender, s': Sender, segs: seq<TcpSegment>)
    requires AllSent(s, segs) && LaterSender(s, s')
    ensures AllSent(s', segs)
  {
    forall i | 0 <= i < |segs| ensures Sent(s', segs[i]) {
      SentLater(s, s', segs[i]);
    }
  }

  lemma AllSentConcat(s: Sender, a: seq<TcpSegment>, b: seq<TcpSegment>)
    requires AllSent(s, a) && AllSent(s, b)
    ensures AllSent(s, a + b)
  {
  }

  // ----- the sender's operations -----

  lemma OccupiedIsSent(s: Sender, seg: TcpSegment, lo: nat, hi: nat)
    requires Occupies(s.isn, s.stream, seg, lo, hi) && hi <= s.next
    ensures Sent(s, seg)
  {
    assert Unstamped(seg) == seg;
    assert SentAt(s, seg, lo);
  }

  lemma {:induction false} SequenceIsSent(s: Sender, segs: seq<TcpSegment>, lo: nat, hi: nat)
    requires Sequence(s.isn, s.stream, segs, lo, hi) && hi <= s.next
    ensures AllSent(s, segs)
    decreases |segs|
  {
    if segs != [] {
      var last, front := segs[|segs| - 1], segs[..|segs| - 1];
      var n := last.LengthInSequenceSpace();
      SequenceIsSent(s, front, lo, hi - n);
      OccupiedIsSent(s, last, hi - n, hi);
      assert segs == front + [last];
    }
  }

  lemma FillIsSent(s: Sender)
    requires Tiling(s) && AllSent(s, s.out)
    ensures LaterSender(s, FillWindow(s)) && Tiling(FillWindow(s)) && AckedUpTo(FillWindow(s)) == AckedUpTo(s)
    ensures FillWindow(s).stream.log == s.stream.log
    ensures AllSent(FillWindow(s), FillWindow(s).out)
  {
    var e := FillWindow(s);
    var news := FillSends(s);
    AllSentLater(s, e, s.out);
    SequenceIsSent(e, news, s.next, e.next);
    AllSentConcat(e, s.out, news);
  }

  lemma AckIsSent(s: Sender, ackno: u32, win: u16)
    requires Tiling(s) && Short(s) && WindowBounded(s) && Harmless(s, ackno) && AllSent(s, s.out)
    ensures var e := AckReceived(s, ackno, win);
            LaterSender(s, e) && Tiling(e) && AllSent(e, e.out) && e.stream.log == s.stream.log
  {
    var e := AckReceived(s, ackno, win);
    var news := AckKeepsTiling(s, ackno, win);
    AllSentLater(s, e, s.out);
    SequenceIsSent(e, news, s.next, e.next);
    AllSentConcat(e, s.out, news);
  }

  lemma TickIsSent(s: Sender, ms: nat)
    requires Tiling(s) && AllSent(s, s.out)
    ensures var e := TcpSenders.Tick(s, ms);
            LaterSender(s, e) && AckedUpTo(e) == AckedUpTo(s) && AllSent(e, e.out)
  {
    var e := TcpSenders.Tick(s, ms);
    AllSentLater(s, e, s.out);
    if e.out != s.out {
      var seg := RetransmittedIsSent(s, ms);
      AllSentConcat(e, s.out, [seg]);
    }
  }

  lemma RetransmittedIsSent(s: Sender, ms: nat) returns (seg: TcpSegment)
    requires Tiling(s) && TcpSenders.Tick(s, ms).out != s.out
    ensures TcpSenders.Tick(s, ms).out == s.out + [seg] && Sent(TcpSenders.Tick(s, ms), seg)
  {
    SenderRuns.TickRetransmitsOldest(s, ms);
    var x, lo: nat, hi :| Occupies(s.isn, s.stream, x, lo, hi) && hi in s.cache &&
      TcpSenders.Tick(s, ms).out == s.out + [x];
    seg := x;
    NothingInFlightIff(s);
    OccupiedIsSent(TcpSenders.Tick(s, ms), seg, lo, hi);
  }

  lemma EmptyIsSent(s: Sender)
    requires Tiling(s) && AllSent(s, s.out)
    ensures LaterSender(s, SendEmpty(s)) && AllSent(SendEmpty(s), SendEmpty(s).out)
  {
    var e := SendEmpty(s);
    var seg := TcpSegment(EMPTY_HEADER.(seqno := s.NextSeqno()), []);
    AllSentLater(s, e, s.out);
    assert SentAt(e, seg, s.next);
    AllSentConcat(e, s.out, [seg]);
  }

  // ----- the connection's operations -----

  /** Everything queued and everything on the wire was sent. */
  ghost predicate OutSent(c: Connection) {
    AllSent(c.sender, c.sender.out) && AllSent(c.sender, c.out)
  }

  lemma {:induction false} StampedIsSent(s: Sender, r: Rx.Receiver, segs: seq<TcpSegment>)
    requires r.Valid() && AllSent(s, segs)
    ensures AllSent(s, StampAll(r, segs))
    decreases |segs|
  {
    if segs != [] {
      var last, front := segs[|segs| - 1], segs[..|segs| - 1];
      assert AllSent(s, front) by {
        forall i | 0 <= i < |front| ensures Sent(s, front[i]) {
          assert Sent(s, segs[i]);
        }
      }
      StampedIsSent(s, r, front);
      StampIsSent(s, r, last);
      AllSentConcat(s, StampAll(r, front), [Stamp(r, last)]);
    }
  }

  lemma StampIsSent(s: Sender, r: Rx.Receiver, seg: TcpSegment)
    requires r.Valid() && Sent(s, seg)
    ensures Sent(s, Stamp(r, seg))
  {
    if !seg.header.rst {
      var lo: nat :| SentAt(s, seg, lo);
      assert Unstamped(Stamp(r, seg)) == Unstamped(seg);
      assert SentAt(s, Stamp(r, seg), lo);
    }
  }

  /** The sender of `c'` is a later one that still tiles, with nothing more written to it, and
      everything sent so far was sent. */
  ghost predicate SendsOn(c: Connection, c': Connection) {
    && LaterSender(c.sender, c'.sender) && Tiling(c'.sender) && c'.Valid() && OutSent(c')
    && c'.sender.stream.log == c.sender.stream.log
  }

  lemma SendsOnward(c: Connection, c1: Connection, c2: Connection)
    requires SendsOn(c, c1) && SendsOn(c1, c2)
    ensures SendsOn(c, c2)
  {
  }

  lemma SendDataSends(c: Connection)
    requires c.Valid() && Tiling(c.sender) && OutSent(c)
    ensures SendsOn(c, SendData(c)) && AckedUpTo(SendData(c).sender) == AckedUpTo(c.sender)
  {
    var c' := SendData(c);
    SameTiling(c.sender, c'.sender);
    StampedIsSent(c.sender, c.receiver, c.sender.out);
    AllSentConcat(c.sender, c.out, StampAll(c.receiver, c.sender.out));
    assert c'.out == c.out + StampAll(c.receiver, c.sender.out);
    AllSentLater(c.sender, c'.sender, c'.out);
  }

  lemma FillAndSendSends(c: Connection)
    requires c.Valid() && Tiling(c.sender) && OutSent(c)
    ensures var c' := SendData(Fill(c)); SendsOn(c, c') && AckedUpTo(c'.sender) == AckedUpTo(c.sender)
  {
    FillIsSent(c.sender);
    AllSentLater(c.sender, Fill(c).sender, c.out);
    SendDataSends(Fill(c));
    SendsOnward(c, Fill(c), SendData(Fill(c)));
  }

  lemma QueueEmptySends(c: Connection)
    requires c.Valid() && Tiling(c.sender) && OutSent(c)
    ensures SendsOn(c, QueueEmpty(c)) && AckedUpTo(QueueEmpty(c).sender) == AckedUpTo(c.sender)
  {
    EmptyIsSent(c.sender);
    SameTiling(c.sender, SendEmpty(c.sender));
    AllSentLater(c.sender, SendEmpty(c.sender), c.out);
  }

  lemma EmptyAndSendSends(c: Connection)
    requires c.Valid() && Tiling(c.sender) && OutSent(c)
    ensures var c' := SendData(QueueEmpty(c)); SendsOn(c, c') && AckedUpTo(c'.sender) == AckedUpTo(c.sender)
  {
    QueueEmptySends(c);
    SendDataSends(QueueEmpty(c));
    SendsOnward(c, QueueEmpty(c), SendData(QueueEmpty(c)));
  }

  lemma TakeBothSends(c: Connection, seg: TcpSegment)
    requires c.Valid() && Tiling(c.sender) && WindowBounded(c.sender) && OutSent(c)
    requires Short(c.sender) && Harmless(c.sender, seg.header.ackno)
    ensures SendsOn(c, TakeBoth(c, seg))
    ensures TakeBoth(c, seg).sender == AckReceived(c.sender, seg.header.ackno, seg.header.win)
  {
    var e := TakeAck(c, seg);
    AckIsSent(c.sender, seg.header.ackno, seg.header.win);
    AllSentLater(c.sender, e.sender, c.out);
  }

  /** How far the sender's numbers are acknowledged after an event. */
  function AckedAfter(c: Connection, e: Event): int
    requires c.Valid()
  {
    if e.Arrive? && UsesAck(c, e.seg) then AckedUpTo(AckReceived(c.sender, e.seg.header.ackno, e.seg.header.win))
    else AckedUpTo(c.sender)
  }

  lemma AnswerSends(c: Connection, c1: Connection, c': Connection)
    requires SendsOn(c, c1) && Answers(c1, c')
    ensures SendsOn(c, c') && AckedUpTo(c'.sender) == AckedUpTo(c1.sender)
  {
    QueueEmptySends(c1);
    if c' == SendData(c1) {
      SendDataSends(c1);
    } else if c' == SendData(QueueEmpty(c1)) {
      EmptyAndSendSends(c1);
    } else if c' == SendData(Fill(c1)) {
      FillAndSendSends(c1);
    } else if c' == SendData(Fill(QueueEmpty(c1))) {
      FillAndSendSends(QueueEmpty(c1));
      SendsOnward(c1, QueueEmpty(c1), c');
    }
    if c' != c1 {
      SendsOnward(c, c1, c');
    }
  }

  lemma HandleSends(c: Connection, seg: TcpSegment)
    requires c.Valid() && Tiling(c.sender) && WindowBounded(c.sender) && OutSent(c)
    requires c.active && LegalSegment(c, seg) && !seg.header.rst
    ensures SendsOn(c, Handle(c, seg)) && AckedUpTo(Handle(c, seg).sender) == AckedAfter(c, Arrive(seg))
  {
    if UsesAck(c, seg) {
      AckedAnswers(c, seg);
      TakeBothSends(c, seg);
      AnswerSends(c, TakeBoth(c, seg), Handle(c, seg));
    } else {
      UnackedAnswers(c, seg);
      if Handle(c, seg) != c {
        AnswerSends(c, TakeSegment(c, seg), Handle(c, seg));
      }
    }
  }

  lemma SetErrorsSends(c: Connection)
    requires c.Valid() && Tiling(c.sender) && OutSent(c)
    ensures SendsOn(c, SetErrors(c)) && AckedUpTo(SetErrors(c).sender) == AckedUpTo(c.sender)
  {
    GrowthKeepsTiling(c.sender, SetErrors(c).sender.stream);
    AllSentLater(c.sender, SetErrors(c).sender, c.sender.out);
    AllSentLater(c.sender, SetErrors(c).sender, c.out);
  }

  lemma ArrivalSends(c: Connection, seg: TcpSegment)
    requires ConnectionProofs.Inv(c) && LegalSegment(c, seg) && OutSent(c)
    ensures var c' := SegmentReceived(c, seg);
            SendsOn(c, c') && AckedUpTo(c'.sender) == AckedAfter(c, Arrive(seg))
  {
    if c.active {
      var c1 := c.(sinceReceived := 0);
      RestartedUse(c, seg);
      if seg.header.rst {
        SetErrorsSends(c1);
      } else {
        HandleSends(c1, seg);
      }
    }
  }

  lemma TickSends(c: Connection, ms: nat)
    requires ConnectionProofs.Inv(c) && OutSent(c)
    ensures var c' := TcpConnections.Tick(c, ms); SendsOn(c, c') && AckedUpTo(c'.sender) == AckedUpTo(c.sender)
  {
    if c.active {
      var c1 := Elapse(c, ms);
      SameTiling(c.sender, c1.sender);
      TickIsSent(c.sender, ms);
      AllSentLater(c.sender, c1.sender, c.out);
      if c1.sender.retx > MAX_RETX_ATTEMPTS {
        AllSentConcat(c1.sender, c1.out, [RST_SEGMENT]);
        SetErrorsSends(c1.(out := c1.out + [RST_SEGMENT]));
      } else {
        SendDataSends(c1);
        SendsOnward(c, c1, SendData(c1));
      }
    }
  }

  /** Writing or ending the stream, and what is sent then. */
  lemma StreamSends(c: Connection, stream: Stream)
    requires c.Valid() && Tiling(c.sender) && OutSent(c) && stream.Valid()
    requires Grows(c.sender.stream, stream) && stream.nread == c.sender.stream.nread
    ensures var c' := SendData(Fill(c.(sender := c.sender.(stream := stream))));
            && LaterSender(c.sender, c'.sender) && OutSent(c')
            && c'.sender.stream.log == stream.log && AckedUpTo(c'.sender) == AckedUpTo(c.sender)
  {
    var s1 := c.sender.(stream := stream);
    var c1 := c.(sender := s1);
    GrowthKeepsTiling(c.sender, stream);
    AllSentLater(c.sender, s1, c.sender.out);
    AllSentLater(c.sender, s1, c.out);
    FillAndSendSends(c1);
  }

  /** Every event keeps the wire honest and the sender's numbers growing; only a write makes the
      outbound stream longer; and what counts as acknowledged changes only by a segment whose
      ackno is used. */
  lemma EventSends(c: Connection, e: Event)
    requires ConnectionProofs.Inv(c) && Allowed(c, e) && OutSent(c)
    ensures var c' := After(c, e);
            && LaterSender(c.sender, c'.sender) && OutSent(c')
            && AckedUpTo(c'.sender) == AckedAfter(c, e)
            && c'.sender.stream.log == if e.WriteBytes? then c.sender.stream.Write(e.data).log else c.sender.stream.log
  {
    match e
    case Arrive(seg) => ArrivalSends(c, seg);
    case WriteBytes(data) => WriteSends(c, data);
    case Pass(ms) => TickSends(c, ms);
    case Finish => StreamSends(c, c.sender.stream.(ended := true));
    case Open => FillAndSendSends(c);
    case ReadBytes(len) =>
  }

  lemma WriteSends(c: Connection, data: seq<byte>)
    requires c.Valid() && Tiling(c.sender) && OutSent(c) && !c.sender.stream.ended
    ensures var c' := TcpConnections.Write(c, data);
            && LaterSender(c.sender, c'.sender) && OutSent(c')
            && c'.sender.stream.log == c.sender.stream.Write(data).log && AckedUpTo(c'.sender) == AckedUpTo(c.sender)
  {
    if data == [] {
      assert c.sender.stream.log + [] == c.sender.stream.log;
    } else {
      StreamSends(c, c.sender.stream.Write(data));
    }
  }
}
