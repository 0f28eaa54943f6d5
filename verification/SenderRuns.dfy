/** Whole runs of a sender: every sequence number is first sent exactly once and in order,
    the window bound holds, and the retransmission timer backs off exponentially. */
module SenderRuns {
  import opened Numbers
  import opened ByteStreams
  import opened OrderedMaps
  import opened TcpSegments
  import opened TcpSenders
  import opened SenderProofs

  // ----- the retransmission timer -----

  /** The timeout after `retx` doublings. */
  function Timeout(d: nat, retx: nat): nat {
    if retx == 0 then d else 2 * Timeout(d, retx - 1)
  }

  /** The timeouts that had to expire for `retx` doublings. */
  function Expired(d: nat, retx: nat): nat {
    if retx == 0 then 0 else Expired(d, retx - 1) + Timeout(d, retx - 1)
  }

  function Pow2(n: nat): nat { if n == 0 then 1 else 2 * Pow2(n - 1) }

  lemma {:induction false} TimeoutIsPower(d: nat, retx: nat)
    ensures Timeout(d, retx) == d * Pow2(retx)
    ensures Expired(d, retx) == d * Pow2(retx) - d
  {
    if retx > 0 {
      TimeoutIsPower(d, retx - 1);
      TimesDouble(d, Pow2(retx - 1));
    }
  }

  lemma TimesDouble(d: nat, p: nat)
    ensures d * (2 * p) == 2 * (d * p)
  {
  }

  lemma TimeoutFits(d: nat, retx: nat)
    requires d < TWO16 && retx <= MAX_RETX_ATTEMPTS + 1
    ensures Timeout(d, retx) <= d * 512 < TWO32
  {
    TimeoutIsPower(d, retx);
    Pow2Bound(retx, 9);
    assert Pow2(8) == 256;
    assert d * Pow2(retx) <= d * 512;
  }

  lemma {:induction false} Pow2Bound(n: nat, m: nat)
    requires n <= m
    ensures 1 <= Pow2(n) <= Pow2(m)
    decreases m
  {
    if n < m {
      Pow2Bound(n, m - 1);
    } else if n > 0 {
      Pow2Bound(n - 1, n - 1);
    }
  }

  /** The timeout has doubled once per retransmission, at most nine times and without
      overflow; with nothing outstanding the timer is idle. */
  ghost predicate Timer(s: Sender) {
    && s.defaultRto < TWO16
    && s.retx <= MAX_RETX_ATTEMPTS + 1
    && s.rto == Timeout(s.defaultRto, s.retx)
    && (s.cache == map[] ==> s.time == 0 && s.retx == 0)
  }

  /** `sinceAck` milliseconds account for every doubling and for the time on the timer. */
  ghost predicate BackedOff(s: Sender, sinceAck: nat) {
    sinceAck >= Expired(s.defaultRto, s.retx) + s.time
  }

  lemma TickKeepsTimer(s: Sender, ms: nat, sinceAck: nat)
    requires s.Valid() && Timer(s) && BackedOff(s, sinceAck)
    ensures Timer(Tick(s, ms)) && BackedOff(Tick(s, ms), sinceAck + ms)
    ensures Tick(s, ms).defaultRto == s.defaultRto
  {
    if s.retx <= MAX_RETX_ATTEMPTS {
      TimeoutFits(s.defaultRto, s.retx + 1);
    }
  }

  /** The oldest segment not acknowledged, the one a retransmission sends. */
  function Oldest(s: Sender): (k: nat)
    requires s.cache != map[]
    ensures IsLeast(k, s.cache.Keys)
  {
    Least(s.cache.Keys)
  }

  lemma OldestOccupies(s: Sender) returns (lo: nat)
    requires Tiling(s) && s.cache != map[]
    ensures Occupies(s.isn, s.stream, s.cache[Oldest(s)], lo, Oldest(s))
    ensures lo <= AckedUpTo(s) < Oldest(s) <= s.next
  {
    var k := Oldest(s);
    var bs :| Tiled(s, bs);
    OldestIsFirst(s.cache.Keys, bs, k);
    assert Linked(s.cache, bs, 1);
    assert Fills(s.isn, s.stream, s.cache[k], k);
    NothingInFlightIff(s);
    lo := bs[0];
  }

  /** Something is outstanding, its timeout has passed after `ms` more milliseconds, and the
      retransmissions are not used up. */
  predicate Due(s: Sender, ms: nat) {
    s.cache != map[] && s.time + ms >= s.rto && s.retx <= MAX_RETX_ATTEMPTS
  }

  /** A tick retransmits exactly when that is due, and then only the oldest outstanding segment:
      the one that holds the first number not acknowledged. */
  lemma TickRetransmitsOldest(s: Sender, ms: nat)
    requires Tiling(s)
    ensures if Due(s, ms) then
              exists seg, lo: nat, hi ::
                Occupies(s.isn, s.stream, seg, lo, hi) && lo <= AckedUpTo(s) < hi && hi in s.cache &&
                Tick(s, ms).out == s.out + [seg]
            else Tick(s, ms).out == s.out
  {
    TickSendsOldest(s, ms);
    if s.cache != map[] {
      var lo := OldestOccupies(s);
    }
  }

  lemma TickSendsOldest(s: Sender, ms: nat)
    requires s.Valid()
    ensures Tick(s, ms).out == if Due(s, ms) then s.out + [s.cache[Oldest(s)]] else s.out
  {
  }

  lemma OldestIsFirst(keys: set<nat>, bs: seq<nat>, k: nat)
    requires Cut(keys, bs) && IsLeast(k, keys)
    ensures |bs| > 1 && bs[1] == k
  {
    assert k in bs;
    assert bs[1] in keys;
  }

  // ----- runs -----

  datatype Op = WriteOp(data: seq<byte>) | EndOp | FillOp | AckOp(ackno: u32, win: u16) | ElapseOp(ms: nat) | EmptyOp

  function Step(s: Sender, op: Op): (s': Sender)
    requires s.Valid()
    ensures s'.Valid()
  {
    match op
    case WriteOp(data) => s.(stream := s.stream.Write(data))
    case EndOp => s.(stream := s.stream.(ended := true))
    case FillOp => FillWindow(s)
    case AckOp(ackno, win) => AckReceived(s, ackno, win)
    case ElapseOp(ms) => Tick(s, ms)
    case EmptyOp => SendEmpty(s)
  }

  /** What the sender may assume: no write after the end of input, no ack from before the
      initial sequence number while anything is outstanding, and a stream short enough for 64-bit numbers. */
  predicate Legal(s: Sender, op: Op) {
    && Short(s)
    && (op.WriteOp? ==> !s.stream.ended)
    && (op.AckOp? ==> Harmless(s, op.ackno))
  }

  /** The segments a step queues other than retransmissions and empty ones. */
  function News(s: Sender, op: Op): seq<TcpSegment>
    requires s.Valid()
  {
    var out := Step(s, op).out;
    if (op.FillOp? || op.AckOp?) && |s.out| <= |out| then out[|s.out|..] else []
  }

  /** The ack covers a cached segment. */
  predicate Advancing(s: Sender, op: Op) {
    op.AckOp? && LeftInFlight(s, op.ackno) >= 0 && Acked(s, op.ackno) != {}
  }

  /** A sender, everything it sent for the first time, and the time since an ack advanced. */
  datatype SenderHistory = SenderHistory(sender: Sender, firsts: seq<TcpSegment>, sinceAck: nat)

  datatype Config = Config(capacity: nat, timeout: u16, isn: u32)

  function Begin(g: Config): (h: SenderHistory)
    ensures h.sender.Valid()
  {
    SenderHistory(FreshSender(g.capacity, g.timeout, g.isn), [], 0)
  }

  function Next(h: SenderHistory, op: Op): (h': SenderHistory)
    requires h.sender.Valid()
    ensures h'.sender.Valid()
  {
    SenderHistory(Step(h.sender, op), h.firsts + News(h.sender, op),
                  if Advancing(h.sender, op) then 0 else h.sinceAck + (if op.ElapseOp? then op.ms else 0))
  }

  /** Operation number `i` was legal and led from state `i` to the next one. */
  ghost predicate StepAt(ops: seq<Op>, hs: seq<SenderHistory>, i: nat) {
    && i < |ops| && i + 1 < |hs| && hs[i].sender.Valid()
    && Legal(hs[i].sender, ops[i])
    && hs[i + 1] == Next(hs[i], ops[i])
  }

  /** `hs` are the states of a run on the operations `ops`. */
  ghost predicate IsRun(g: Config, ops: seq<Op>, hs: seq<SenderHistory>) {
    && |hs| == |ops| + 1
    && hs[0] == Begin(g)
    && (forall i: nat :: i < |ops| ==> StepAt(ops, hs, i))
    && (forall i :: 0 <= i < |hs| ==> hs[i].sender.Valid())
  }

  /** Runs exist: one legal operation more gives a longer run. */
  lemma RunExtends(g: Config, ops: seq<Op>, hs: seq<SenderHistory>, op: Op)
    requires IsRun(g, ops, hs) && Legal(hs[|ops|].sender, op)
    ensures IsRun(g, ops + [op], hs + [Next(hs[|ops|], op)])
  {
    var ops', hs' := ops + [op], hs + [Next(hs[|ops|], op)];
    forall i: nat | i < |ops'| ensures StepAt(ops', hs', i) {
      assert i < |ops| ==> StepAt(ops, hs, i);
    }
  }

  lemma FillOrAckSends(s: Sender, op: Op)
    requires Tiling(s) && WindowBounded(s) && Legal(s, op) && (op.FillOp? || op.AckOp?)
    ensures var e := Step(s, op);
            Tiling(e) && WindowBounded(e) && e.isn == s.isn && s.next <= e.next && Grows(s.stream, e.stream) &&
            Sequence(e.isn, e.stream, News(s, op), s.next, e.next)
  {
    var news;
    if op.FillOp? {
      news := FillSends(s);
    } else {
      news := AckKeepsTiling(s, op.ackno, op.win);
    }
    assert Step(s, op).out[|s.out|..] == news;
  }

  /** The other operations send no new number. */
  lemma OthersKeep(s: Sender, op: Op)
    requires Tiling(s) && WindowBounded(s) && Legal(s, op) && !op.FillOp? && !op.AckOp?
    ensures QuietStep(s, Step(s, op))
  {
    match op
    case WriteOp(data) => StreamKeeps(s, s.stream.Write(data));
    case EndOp => StreamKeeps(s, s.stream.(ended := true));
    case ElapseOp(ms) => TickIsQuiet(s, ms);
    case EmptyOp => QuietKeeps(s, SendEmpty(s));
  }

  ghost predicate QuietStep(s: Sender, e: Sender) {
    Tiling(e) && WindowBounded(e) && e.isn == s.isn && s.next == e.next && Grows(s.stream, e.stream)
  }

  lemma TickIsQuiet(s: Sender, ms: nat)
    requires Tiling(s) && WindowBounded(s)
    ensures QuietStep(s, Tick(s, ms))
  {
    QuietKeeps(s, Tick(s, ms));
  }

  lemma StreamKeeps(s: Sender, stream: Stream)
    requires Tiling(s) && WindowBounded(s) && stream.Valid()
    requires Grows(s.stream, stream) && stream.nread == s.stream.nread
    ensures QuietStep(s, s.(stream := stream))
  {
    GrowthKeepsTiling(s, stream);
  }

  lemma QuietKeeps(s: Sender, s': Sender)
    requires Tiling(s) && WindowBounded(s)
    requires s'.isn == s.isn && s'.stream == s.stream && s'.next == s.next && s'.cache == s.cache && s'.bif == s.bif
    ensures QuietStep(s, s')
  {
    SameTiling(s, s');
  }

  /** What the tiling invariant says of a history. */
  ghost predicate TiledHistory(g: Config, h: SenderHistory) {
    && Tiling(h.sender) && WindowBounded(h.sender) && h.sender.isn == g.isn
    && Sequence(g.isn, h.sender.stream, h.firsts, 0, h.sender.next)
  }

  lemma NextStaysTiled(g: Config, h: SenderHistory, op: Op)
    requires TiledHistory(g, h) && Legal(h.sender, op)
    ensures TiledHistory(g, Next(h, op))
  {
    var e := Step(h.sender, op);
    if op.FillOp? || op.AckOp? {
      FillOrAckSends(h.sender, op);
      SequenceGrows(g.isn, h.sender.stream, e.stream, h.firsts, 0, h.sender.next);
      SequenceConcat(g.isn, e.stream, h.firsts, News(h.sender, op), 0, h.sender.next, e.next);
    } else {
      OthersKeep(h.sender, op);
      SequenceGrows(g.isn, h.sender.stream, e.stream, h.firsts, 0, h.sender.next);
      assert h.firsts + [] == h.firsts;
    }
  }

  /** The tiling invariant over runs: the numbers from 0 to `next` are held, each exactly once
      and in order, by the segments sent for the first time; what is cached tiles the part
      not acknowledged; and never more than 65535 numbers are in flight. */
  lemma {:induction false} RunTiles(g: Config, ops: seq<Op>, hs: seq<SenderHistory>, n: nat)
    requires IsRun(g, ops, hs) && n <= |ops|
    ensures TiledHistory(g, hs[n])
  {
    if n == 0 {
      FreshIsTiled(g.capacity, g.timeout, g.isn);
    } else {
      RunTiles(g, ops, hs, n - 1);
      assert StepAt(ops, hs, n - 1);
      NextStaysTiled(g, hs[n - 1], ops[n - 1]);
    }
  }

  /** Window discipline: a fill that sends any new number ends with no more in flight than the
      peer's window, or one for a closed window; and once the stream is read to its end and
      all of it acknowledged, a fill does not return without the FIN sent. */
  lemma FillObeysWindow(s: Sender)
    requires Tiling(s)
    ensures var e := FillWindow(s);
            && (e.next > s.next ==> e.bif <= if s.peerWin > 1 then s.peerWin else 1)
            && (e.stream.Eof() && e.bif == 0 ==> e.next == |e.stream.log| + 2)
  {
    var news := FillSends(s);
  }

  lemma FillKeepsTimer(s: Sender)
    requires Tiling(s) && Timer(s)
    ensures Timer(FillWindow(s)) && FillWindow(s).defaultRto == s.defaultRto
    ensures FillWindow(s).retx == s.retx && FillWindow(s).time == s.time
  {
    var news := FillSends(s);
  }

  lemma AckKeepsTimer(s: Sender, ackno: u32, win: u16, sinceAck: nat)
    requires Tiling(s) && Timer(s) && WindowBounded(s) && Legal(s, AckOp(ackno, win)) && BackedOff(s, sinceAck)
    ensures var e := AckReceived(s, ackno, win);
            && Timer(e) && e.defaultRto == s.defaultRto && e.retx <= s.retx
            && BackedOff(e, if Advancing(s, AckOp(ackno, win)) then 0 else sinceAck)
  {
    if Advancing(s, AckOp(ackno, win)) {
      AcknowledgeTiles(s, ackno, win);
      var s1 := Acknowledge(s, ackno, win);
      assert Timer(s1) && AckReceived(s, ackno, win) == FillWindow(s1);
      FillKeepsTimer(s1);
    } else {
      assert LeftInFlight(s, ackno) >= 0 ==> s.cache - Acked(s, ackno) == s.cache;
    }
  }

  lemma AckTimer(s: Sender, ackno: u32, win: u16)
    requires Tiling(s) && Timer(s) && WindowBounded(s) && Short(s) && Harmless(s, ackno)
    ensures Timer(AckReceived(s, ackno, win)) && AckReceived(s, ackno, win).retx <= s.retx
  {
    AckKeepsTimer(s, ackno, win, Expired(s.defaultRto, s.retx) + s.time);
  }

  lemma StepBacksOff(s: Sender, op: Op, sinceAck: nat)
    requires Tiling(s) && WindowBounded(s) && Legal(s, op) && Timer(s) && BackedOff(s, sinceAck)
    ensures var e := Step(s, op);
            && Timer(e) && e.defaultRto == s.defaultRto
            && BackedOff(e, if Advancing(s, op) then 0 else sinceAck + (if op.ElapseOp? then op.ms else 0))
  {
    match op
    case FillOp => FillKeepsTimer(s);
    case AckOp(ackno, win) => AckKeepsTimer(s, ackno, win, sinceAck);
    case ElapseOp(ms) => TickKeepsTimer(s, ms, sinceAck);
    case WriteOp(_) =>
    case EndOp =>
    case EmptyOp =>
  }

  /** The backoff invariant over runs. */
  lemma {:induction false} RunBacksOff(g: Config, ops: seq<Op>, hs: seq<SenderHistory>, n: nat)
    requires IsRun(g, ops, hs) && n <= |ops|
    ensures Timer(hs[n].sender) && hs[n].sender.defaultRto == g.timeout && BackedOff(hs[n].sender, hs[n].sinceAck)
  {
    if n > 0 {
      RunBacksOff(g, ops, hs, n - 1);
      RunTiles(g, ops, hs, n - 1);
      assert StepAt(ops, hs, n - 1);
      StepBacksOff(hs[n - 1].sender, ops[n - 1], hs[n - 1].sinceAck);
    }
  }

  /** The backoff invariant in closed form: the timeout is the initial one times two to the
      number of retransmissions, which is at most nine; the time since the last ack that
      advanced pays for all the doublings; and a sender that has retransmitted more than
      eight times has waited at least 511 initial timeouts. */
  lemma BackoffIsExponential(g: Config, ops: seq<Op>, hs: seq<SenderHistory>)
    requires IsRun(g, ops, hs)
    ensures var h := hs[|ops|];
            var s := h.sender;
            && s.retx <= 9
            && s.rto == g.timeout * Pow2(s.retx)
            && h.sinceAck >= g.timeout * (Pow2(s.retx) - 1) + s.time
            && (s.retx > MAX_RETX_ATTEMPTS ==> h.sinceAck >= 511 * g.timeout)
  {
    var h := hs[|ops|];
    RunBacksOff(g, ops, hs, |ops|);
    TimeoutIsPower(g.timeout, h.sender.retx);
    GivingUpTakesLong(h.sender, h.sinceAck);
  }

  /** After more than eight retransmissions at least 511 initial timeouts have passed. */
  lemma GivingUpTakesLong(s: Sender, sinceAck: nat)
    requires Timer(s) && BackedOff(s, sinceAck)
    ensures s.retx > MAX_RETX_ATTEMPTS ==> sinceAck >= 511 * s.defaultRto
  {
    TimeoutIsPower(s.defaultRto, 9);
    assert Pow2(8) == 256;
  }
}
