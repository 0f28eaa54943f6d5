/** How much a sender sends: exactly what the peer's window and the stream allow, in segments as
    large as may be; what it takes from an acknowledgment; and what its timer does while the
    peer's window is closed, and while it is open. */
module SenderWindows {
  import opened Numbers
  import opened WrappingIntegers
  import opened ByteStreams
  import opened OrderedMaps
  import opened TcpSegments
  import opened TcpSenders
  import opened SenderProofs
  import opened SenderRuns

  // ----- filling the window -----

  /** The window that counts: a closed one is probed with one number. */
  function Usable(win: u16): nat { if win > 1 then win else 1 }

  /** The numbers yet to be given out: the unread bytes and the FIN. */
  function Unsent(s: Sender): nat
    requires s.Valid()
  {
    |s.stream.log| - s.stream.nread + (if s.stream.ended && s.next != s.stream.nread + 2 then 1 else 0)
  }

  /** How much a fill sends with `bif` in flight, `left` yet to be sent and a window `win`. */
  function Room(win: u16, bif: nat, left: nat): nat {
    if bif >= Usable(win) then 0 else Min(Usable(win) - bif, left)
  }

  /** Every segment but the last carries the 1452 bytes of a full payload; none carries more,
      and a segment without payload, a lone FIN, comes alone. */
  ghost predicate Packed(segs: seq<TcpSegment>) {
    && (forall i :: 0 <= i < |segs| - 1 ==> |segs[i].payload| == 1452)
    && (segs != [] ==> |segs[|segs| - 1].payload| <= 1452)
    && (segs != [] && segs[|segs| - 1].payload == [] ==> |segs| == 1)
  }

  lemma PackedCons(seg: TcpSegment, segs: seq<TcpSegment>)
    requires Packed(segs) && seg.payload != [] && |seg.payload| <= 1452
    requires segs != [] ==> |seg.payload| == 1452 && segs[|segs| - 1].payload != []
    ensures Packed([seg] + segs)
  {
    var all := [seg] + segs;
    forall i | 0 <= i < |all| - 1 ensures |all[i].payload| == 1452 {
      if i > 0 {
        assert all[i] == segs[i - 1];
      }
    }
  }

  /** From `s` to `e` as much was sent as a window of `w` numbers and the stream allow. */
  ghost predicate SentUpTo(s: Sender, w: nat, e: Sender, segs: seq<TcpSegment>) {
    && Counted(s) && Counted(e)
    && e.next == s.next + (if s.stream.BufferSize() == 0 then 0 else Min(w, Unsent(s)))
    && e.next - s.next == e.bif - s.bif && e.peerWin == s.peerWin
    && (e.stream.BufferSize() > 0 ==> e.next == s.next + w)
    && e.stream == s.stream.(nread := e.stream.nread)
    && e.out == s.out + segs && Packed(segs)
    && (segs == [] ==> e == s) && (segs != [] ==> segs[|segs| - 1].payload != [])
    && (segs != [] <==> s.stream.BufferSize() > 0 && w > 0)
  }

  /** The loop sends as much as its window and the stream allow. */
  lemma {:induction false} LoopExactly(s: Sender, w: nat) returns (segs: seq<TcpSegment>)
    requires Counted(s) && s.next > 0
    ensures SentUpTo(s, w, SendLoop(s, w), segs)
    decreases s.stream.BufferSize()
  {
    if s.stream.Peek(Min(MAX_PAYLOAD_SIZE, w)) == [] {
      segs := [];
      assert s.out + [] == s.out;
    } else {
      var seg, c := ChunkSegment(s, w), SendChunk(s, w);
      ChunkIsFull(s, w);
      var rest := LoopExactly(c, w - seg.LengthInSequenceSpace());
      segs := [seg] + rest;
      ChunkThenRest(s, w, SendLoop(s, w), rest);
    }
  }

  lemma ChunkThenRest(s: Sender, w: nat, e: Sender, rest: seq<TcpSegment>)
    requires Counted(s) && s.next > 0 && s.stream.Peek(Min(MAX_PAYLOAD_SIZE, w)) != []
    requires SentUpTo(SendChunk(s, w), w - ChunkSegment(s, w).LengthInSequenceSpace(), e, rest)
    ensures SentUpTo(s, w, e, [ChunkSegment(s, w)] + rest)
  {
    var seg := ChunkSegment(s, w);
    ChunkIsFull(s, w);
    PackedCons(seg, rest);
    assert s.out + [seg] + rest == s.out + ([seg] + rest);
  }

  /** What one chunk leaves: nothing unread, no window, or both and a full segment sent. */
  lemma ChunkIsFull(s: Sender, w: nat)
    requires Counted(s) && s.next > 0 && s.stream.Peek(Min(MAX_PAYLOAD_SIZE, w)) != []
    ensures var seg, c := ChunkSegment(s, w), SendChunk(s, w);
            var n := seg.LengthInSequenceSpace();
            && 0 < |seg.payload| <= 1452
            && Counted(c) && c.next > 0 && c.stream == s.stream.(nread := c.stream.nread) && c.peerWin == s.peerWin
            && c.out == s.out + [seg] && c.stream.BufferSize() < s.stream.BufferSize() && n <= w
            && SendLoop(s, w) == SendLoop(c, w - n)
            && c.next == s.next + n && c.bif == s.bif + n && Unsent(c) == Unsent(s) - n
            && (c.stream.BufferSize() > 0 ==> !seg.header.fin && (w == n || |seg.payload| == 1452))
            && (c.stream.BufferSize() == 0 ==> n == Min(w, Unsent(s)))
  {
    ChunkOccupies(s, w);
  }

  lemma FillIsStarted(s: Sender)
    requires Counted(s) && s.next > 0
    ensures FillWindow(s) ==
              if s.stream.Eof() || s.bif >= s.next then SendFin(s)
              else if s.bif > Usable(s.peerWin) then s
              else SendFin(SendLoop(s, Usable(s.peerWin) - s.bif))
  {
  }

  /** A lone FIN goes out exactly when it is due and there is room for it. */
  lemma FinExactly(s: Sender) returns (segs: seq<TcpSegment>)
    requires Counted(s) && s.next > 0
    ensures var e := SendFin(s);
            && e.out == s.out + segs && Packed(segs) && Counted(e)
            && e.next == s.next + (if s.stream.BufferSize() == 0 then Room(s.peerWin, s.bif, Unsent(s)) else 0)
            && e.next - s.next == e.bif - s.bif
            && e.stream == s.stream && (segs == [] ==> e == s)
  {
    if s.FinPending() && s.Window() > s.bif {
      segs := [TcpSegment(EMPTY_HEADER.(seqno := s.NextSeqno(), fin := true), [])];
    } else {
      segs := [];
      assert s.out + [] == s.out;
    }
  }

  /** May a fill send from the stream? Not before the SYN is acknowledged; a FIN that is all
      there is to send does not wait for that. */
  predicate MaySend(s: Sender)
    requires s.Valid()
  {
    s.bif < s.next || s.stream.BufferSize() == 0
  }

  /** `fill_window` fills the window: it gives out exactly as many numbers as there is room for
      and are left to send, in full segments. */
  lemma FillFillsWindow(s: Sender) returns (news: seq<TcpSegment>)
    requires Tiling(s) && s.next > 0
    ensures var e := FillWindow(s);
            && e.out == s.out + news && Packed(news)
            && Sequence(e.isn, e.stream, news, s.next, e.next)
            && e.next == s.next + (if MaySend(s) then Room(s.peerWin, s.bif, Unsent(s)) else 0)
            && e.bif == s.bif + (e.next - s.next)
  {
    var e := FillWindow(s);
    var sent := FillSends(s);
    FillIsStarted(s);
    if s.stream.Eof() || s.bif >= s.next {
      news := FinExactly(s);
    } else if s.bif > Usable(s.peerWin) {
      news := [];
      assert s.out + [] == s.out;
    } else {
      news := LoopThenFin(s);
    }
    assert news == e.out[|s.out|..] == sent;
  }

  lemma LoopThenFin(s: Sender) returns (news: seq<TcpSegment>)
    requires Counted(s) && s.next > 0 && s.bif <= Usable(s.peerWin) && !s.stream.Eof()
    ensures var e := SendFin(SendLoop(s, Usable(s.peerWin) - s.bif));
            && e.out == s.out + news && Packed(news)
            && e.next == s.next + Room(s.peerWin, s.bif, Unsent(s))
  {
    var w := Usable(s.peerWin) - s.bif;
    var e := SendLoop(s, w);
    var segs := LoopExactly(s, w);
    var fin := FinExactly(e);
    news := segs + fin;
    assert e.out + fin == s.out + news;
    if segs == [] {
      assert news == fin;
    } else {
      LoopLeavesNoFin(s, w);
      assert fin == [];
      assert news == segs;
    }
  }

  /** After data the FIN went along, or the window is used up. */
  lemma LoopLeavesNoFin(s: Sender, w: nat)
    requires Counted(s) && s.next > 0 && s.bif + w == Usable(s.peerWin) && s.stream.BufferSize() > 0 && w > 0
    ensures SendFin(SendLoop(s, w)) == SendLoop(s, w)
  {
    var e := SendLoop(s, w);
    var segs := LoopExactly(s, w);
    if e.next < s.next + w {
      assert e.next == s.next + Unsent(s);
    }
  }

  /** So a fill leaves nothing undone: everything is read or the window is full; and the FIN, if
      due, is sent or the window is full. */
  lemma WindowIsFilled(s: Sender)
    requires Tiling(s) && s.bif < s.next && s.bif <= s.Window()
    ensures var e := FillWindow(s);
            && (e.stream.BufferSize() == 0 || e.bif == e.Window())
            && (e.stream.Eof() && e.bif < e.Window() ==> FinSent(e))
  {
    var news := FillFillsWindow(s);
    var sent := FillSends(s);
  }

  /** The first fill sends the SYN, and with it at most the FIN of an empty stream. */
  lemma FirstFillSendsSyn(s: Sender)
    requires Tiling(s) && s.next == 0
    ensures var e := FillWindow(s);
            var fin := s.stream.Eof() && s.peerWin > 1;
            && e.next == e.bif == (if fin then 2 else 1)
            && e.out == s.out + [TcpSegment(EMPTY_HEADER.(syn := true, seqno := s.isn), [])] +
                 (if fin then [TcpSegment(EMPTY_HEADER.(seqno := Wrap(1, s.isn), fin := true), [])] else [])
  {
    NothingInFlightIff(s);
  }

  // ----- taking an acknowledgment -----

  lemma {:induction false} LoopKeepsWindow(s: Sender, w: nat)
    requires s.Valid()
    ensures SendLoop(s, w).peerWin == s.peerWin
    decreases s.stream.BufferSize()
  {
    if s.stream.Peek(Min(MAX_PAYLOAD_SIZE, w)) != [] {
      LoopKeepsWindow(SendChunk(s, w), w - ChunkSegment(s, w).LengthInSequenceSpace());
    }
  }

  lemma FillKeepsWindow(s: Sender)
    requires s.Valid()
    ensures FillWindow(s).peerWin == s.peerWin
  {
    var s1 := if s.next == 0 then SendSyn(s) else s;
    if s1.Window() >= s1.bif {
      LoopKeepsWindow(s1, s1.Window() - s1.bif);
    }
  }

  /** Every ack of a number not beyond the next one brings the window it carries, whether it
      acknowledges anything or not; an ack of a number beyond changes nothing at all. */
  lemma AckTakesWindow(s: Sender, ackno: u32, win: u16)
    requires s.Valid()
    ensures if Offset(Wrap(s.next, s.isn), ackno) >= 0 then AckReceived(s, ackno, win).peerWin == win
            else AckReceived(s, ackno, win) == s
  {
    if Offset(Wrap(s.next, s.isn), ackno) >= 0 {
      FillKeepsWindow(s.(cache := s.cache - Acked(s, ackno), peerWin := win, bif := Offset(Wrap(s.next, s.isn), ackno),
                         time := 0, retx := 0, rto := s.defaultRto));
    }
  }

  /** What ends at or before `a` is forgotten and nothing else; what is new lies past it all. */
  ghost predicate Forgets(s: Sender, a: int, e: Sender) {
    && (forall k :: k in s.cache ==> (k in e.cache <==> a < k))
    && (forall k :: k in e.cache ==> (k in s.cache && e.cache[k] == s.cache[k]) || s.next < k)
  }

  /** What is in flight is counted from `a`, the timer starts afresh, and the window `win` is
      filled. */
  predicate Refilled(s: Sender, a: int, win: u16, e: Sender)
    requires s.Valid() && a <= s.next
  {
    && AckedUpTo(e) == a && e.peerWin == win
    && e.time == 0 && e.retx == 0 && e.rto == s.defaultRto
    && e.next == s.next + Room(win, s.next - a, Unsent(s))
  }

  /** Some outstanding segment ends at or before `a`. */
  ghost predicate Covers(s: Sender, a: int) {
    exists k :: k in s.cache && k <= a
  }

  /** An ack of number `a`, no number beyond the next one: if it covers anything, that is
      forgotten and the window it carries is filled; if not, only the window changes. */
  lemma AckExactly(s: Sender, ackno: u32, win: u16)
    requires Tiling(s) && Short(s) && WindowBounded(s) && Harmless(s, ackno)
    requires Offset(Wrap(s.next, s.isn), ackno) >= 0
    ensures var a, e := s.next - Offset(Wrap(s.next, s.isn), ackno), AckReceived(s, ackno, win);
            if Covers(s, a) then Forgets(s, a, e) && Refilled(s, a, win, e) else e == s.(peerWin := win)
  {
    var n := LeftInFlight(s, ackno);
    if n <= s.next {
      forall k: nat ensures k in Acked(s, ackno) <==> k in s.cache && k <= s.next - n {
        AckedUpToNumber(s, ackno, k);
      }
    }
    if Acked(s, ackno) == {} {
      AckTakesWindow(s, ackno, win);
      IdleAck(s, ackno, win);
    } else {
      var k :| k in Acked(s, ackno);
      AckIsFill(s, ackno, win);
      AckRefills(s, ackno, win, k);
    }
  }

  lemma AckRefills(s: Sender, ackno: u32, win: u16, k0: nat)
    requires Tiling(s) && Short(s) && WindowBounded(s)
    requires 0 <= LeftInFlight(s, ackno) <= s.next && k0 in Acked(s, ackno)
    requires forall k: nat :: k in Acked(s, ackno) <==> k in s.cache && k <= s.next - LeftInFlight(s, ackno)
    ensures var a, e := s.next - LeftInFlight(s, ackno), FillWindow(Acknowledge(s, ackno, win));
            Forgets(s, a, e) && Refilled(s, a, win, e)
  {
    var s1, a := Acknowledge(s, ackno, win), s.next - LeftInFlight(s, ackno);
    AcknowledgeForgets(s, ackno, win, k0);
    RefillKeepsRest(s, s1, a);
    RefillCounts(s, s1, a, win);
  }

  lemma AcknowledgeForgets(s: Sender, ackno: u32, win: u16, k0: nat)
    requires Tiling(s) && Short(s) && WindowBounded(s)
    requires 0 <= LeftInFlight(s, ackno) <= s.next && k0 in Acked(s, ackno)
    requires forall k: nat :: k in Acked(s, ackno) <==> k in s.cache && k <= s.next - LeftInFlight(s, ackno)
    ensures var s1, a := Acknowledge(s, ackno, win), s.next - LeftInFlight(s, ackno);
            && Tiling(s1) && 0 < a && k0 in s.cache && k0 <= a
            && (forall k: nat :: k in s1.cache <==> k in s.cache && a < k)
            && (forall k :: k in s1.cache ==> s1.cache[k] == s.cache[k])
  {
    NothingInFlightIff(s);
    AcknowledgeTiles(s, ackno, win);
  }

  lemma RefillCounts(s: Sender, s1: Sender, a: nat, win: u16)
    requires s.Valid() && Tiling(s1) && 0 < a <= s.next
    requires s1.next == s.next && s1.bif == s.next - a && s1.stream == s.stream && s1.peerWin == win
    requires s1.time == 0 && s1.retx == 0 && s1.rto == s.defaultRto
    ensures Refilled(s, a, win, FillWindow(s1))
  {
    var news := FillFillsWindow(s1);
    FillKeepsTimerFields(s1);
  }

  lemma FillKeepsTimerFields(s: Sender)
    requires Tiling(s)
    ensures var e := FillWindow(s);
            && e.time == s.time && e.retx == s.retx && e.rto == s.rto && e.peerWin == s.peerWin
            && AckedUpTo(e) == AckedUpTo(s)
  {
    var news := FillSends(s);
  }

  /** Refilling adds only keys past those that were there. */
  lemma RefillKeepsRest(s: Sender, s1: Sender, a: nat)
    requires Tiling(s) && Tiling(s1) && s1.next == s.next
    requires forall k: nat :: k in s1.cache <==> k in s.cache && a < k
    requires forall k :: k in s1.cache ==> s1.cache[k] == s.cache[k]
    ensures Forgets(s, a, FillWindow(s1))
  {
    var e := FillWindow(s1);
    var news := FillSends(s1);
    NothingInFlightIff(s);
    forall k | k in s.cache ensures k in e.cache <==> a < k {
      assert k in s1.cache.Keys ==> k in e.cache.Keys;
    }
  }

  // ----- the timer -----

  /** Ticks of the lengths `ms`, one after the other. */
  function Elapsed(s: Sender, ms: seq<nat>): (e: Sender)
    requires s.Valid()
    ensures e.Valid()
  {
    if ms == [] then s else Tick(Elapsed(s, ms[..|ms| - 1]), ms[|ms| - 1])
  }

  /** An alarm clock: how long it runs, for how long it has, and how often it rang. */
  datatype Clock = Clock(period: nat, time: nat, rang: nat)

  /** A clock whose period stays as it is. */
  function Steady(k: Clock, ms: nat): Clock {
    if k.time + ms >= k.period then Clock(k.period, 0, k.rang + 1) else k.(time := k.time + ms)
  }

  /** A clock that runs twice as long each time it rang, and rings nine times at most, `before`
      times of which it already has. */
  function Backoff(k: Clock, before: nat, ms: nat): Clock {
    if k.time + ms >= k.period && before + k.rang < 9 then Clock(2 * k.period, 0, k.rang + 1)
    else k.(time := k.time + ms)
  }

  function SteadyAll(k: Clock, ms: seq<nat>): Clock {
    if ms == [] then k else Steady(SteadyAll(k, ms[..|ms| - 1]), ms[|ms| - 1])
  }

  function BackoffAll(k: Clock, before: nat, ms: seq<nat>): Clock {
    if ms == [] then k else Backoff(BackoffAll(k, before, ms[..|ms| - 1]), before, ms[|ms| - 1])
  }

  /** While the peer's window is closed, ticks probe it with the oldest segment whenever the
      timeout has passed, and neither the timeout nor the count of retransmissions changes,
      however long it lasts. */
  lemma {:induction false} ClosedWindowIsProbed(s: Sender, ms: seq<nat>)
    requires s.Valid() && s.cache != map[] && s.peerWin == 0 && s.retx <= 8
    ensures var k := SteadyAll(Clock(s.rto, s.time, 0), ms);
            && k.period == s.rto
            && Elapsed(s, ms) == s.(time := k.time, out := s.out + Copies(s.cache[Oldest(s)], k.rang))
    decreases |ms|
  {
    if ms == [] {
      assert s.out + [] == s.out;
    } else {
      var front := ms[..|ms| - 1];
      ClosedWindowIsProbed(s, front);
      MoreCopies(s.out, s.cache[Oldest(s)], SteadyAll(Clock(s.rto, s.time, 0), front).rang);
    }
  }

  /** `n` times `seg`. */
  function Copies(seg: TcpSegment, n: nat): seq<TcpSegment> {
    if n == 0 then [] else Copies(seg, n - 1) + [seg]
  }

  lemma MoreCopies(out: seq<TcpSegment>, seg: TcpSegment, n: nat)
    ensures out + Copies(seg, n) + [seg] == out + Copies(seg, n + 1)
  {
  }

  /** `s` after its clock got to `k`, each ring a retransmission that counts. */
  function RungTo(s: Sender, k: Clock): (e: Sender)
    requires s.Valid() && s.cache != map[] && k.period < TWO32 && s.retx + k.rang < 0x100
    ensures e.Valid()
  {
    s.(time := k.time, rto := k.period, retx := s.retx + k.rang, out := s.out + Copies(s.cache[Oldest(s)], k.rang))
  }

  lemma RingsOnce(s: Sender, k: Clock, ms: nat)
    requires s.Valid() && s.cache != map[] && s.peerWin != 0 && s.defaultRto < TWO16
    requires s.retx + k.rang <= 9 && k.period == Timeout(s.defaultRto, s.retx + k.rang) < TWO32
    ensures var k' := Backoff(k, s.retx, ms);
            && s.retx + k'.rang <= 9 && k'.period == Timeout(s.defaultRto, s.retx + k'.rang) < TWO32
            && Tick(RungTo(s, k), ms) == RungTo(s, k')
  {
    MoreCopies(s.out, s.cache[Oldest(s)], k.rang);
    if s.retx + k.rang < 9 {
      TimeoutFits(s.defaultRto, s.retx + k.rang + 1);
    }
  }

  /** While it is open, ticks retransmit the oldest segment whenever the timeout has passed, up
      to nine times; each time counts, and doubles the timeout. */
  lemma {:induction false} OpenWindowBacksOff(s: Sender, ms: seq<nat>)
    requires s.Valid() && Timer(s) && s.cache != map[] && s.peerWin != 0
    ensures var k := BackoffAll(Clock(s.rto, s.time, 0), s.retx, ms);
            && s.retx + k.rang <= 9 && k.period == Timeout(s.defaultRto, s.retx + k.rang) < TWO32
            && Elapsed(s, ms) == RungTo(s, k)
    decreases |ms|
  {
    if ms == [] {
      assert s.out + [] == s.out;
      TimeoutFits(s.defaultRto, s.retx);
    } else {
      var front := ms[..|ms| - 1];
      OpenWindowBacksOff(s, front);
      RingsOnce(s, BackoffAll(Clock(s.rto, s.time, 0), s.retx, front), ms[|ms| - 1]);
    }
  }

  /** So `n` expired timeouts, each at least twice as long as the one before, count `n`
      retransmissions more, up to nine. */
  lemma ExpiredTimeoutsCount(s: Sender, ms: seq<nat>)
    requires s.Valid() && Timer(s) && s.cache != map[] && s.peerWin != 0
    requires forall i: nat :: i < |ms| ==> ms[i] >= Timeout(s.defaultRto, s.retx + i)
    ensures Elapsed(s, ms).retx == Min(9, s.retx + |ms|)
  {
    OpenWindowBacksOff(s, ms);
    AllRing(s, ms);
  }

  lemma {:induction false} AllRing(s: Sender, ms: seq<nat>)
    requires s.rto == Timeout(s.defaultRto, s.retx) && s.retx <= 9
    requires forall i: nat :: i < |ms| ==> ms[i] >= Timeout(s.defaultRto, s.retx + i)
    ensures var k := BackoffAll(Clock(s.rto, s.time, 0), s.retx, ms);
            s.retx + k.rang == Min(9, s.retx + |ms|) && k.period == Timeout(s.defaultRto, s.retx + k.rang)
    decreases |ms|
  {
    if ms != [] {
      AllRing(s, ms[..|ms| - 1]);
    }
  }
}
