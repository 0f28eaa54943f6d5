/** The sender as an object that updates its counters, cache and queue in place. */
module SenderObjects {
  import opened Numbers
  import opened WrappingIntegers
  import opened ByteStreams
  import opened OrderedMaps
  import opened TcpSegments
  import opened TcpSenders
  import SenderProofs
  import SenderRuns
  import SenderWindows

  // What the operations keep, in the form the methods promise it.

  lemma FillKeeps(s: Sender)
    requires s.Valid()
    ensures SenderProofs.Tiling(s) ==>
              var e := TcpSenders.FillWindow(s);
              SenderProofs.Tiling(e) && (e.next > s.next ==> e.bif <= e.Window())
    ensures SenderProofs.Tiling(s) && s.bif < s.next && s.bif <= s.Window() ==>
              var e := TcpSenders.FillWindow(s); e.stream.BufferSize() == 0 || e.bif == e.Window()
  {
    if SenderProofs.Tiling(s) {
      var news := SenderProofs.FillSends(s);
      if s.bif < s.next && s.bif <= s.Window() {
        SenderWindows.WindowIsFilled(s);
      }
    }
  }

  lemma AckKeeps(s: Sender, ackno: u32, win: u16)
    requires s.Valid()
    ensures SenderProofs.Tiling(s) && SenderProofs.Short(s) && SenderProofs.WindowBounded(s) ==>
              (SenderProofs.Tiling(TcpSenders.AckReceived(s, ackno, win)) <==> SenderProofs.Harmless(s, ackno))
  {
    if SenderProofs.Tiling(s) && SenderProofs.Short(s) && SenderProofs.WindowBounded(s) {
      SenderProofs.AckKeepsTilingIff(s, ackno, win);
    }
  }

  /** What a tick keeps: the tiling, the timer, and against a closed window the timeout and the
      count of retransmissions. */
  ghost predicate KeptByTick(s: Sender, e: Sender) {
    && (SenderProofs.Tiling(s) ==> SenderProofs.Tiling(e))
    && (SenderRuns.Timer(s) ==> SenderRuns.Timer(e))
    && (s.peerWin == 0 ==> e.rto == s.rto && e.retx == s.retx)
  }

  lemma TickKeeps(s: Sender, ms: nat)
    requires s.Valid()
    ensures KeptByTick(s, TcpSenders.Tick(s, ms))
  {
    if SenderProofs.Tiling(s) {
      SenderProofs.SameTiling(s, TcpSenders.Tick(s, ms));
    }
    if SenderRuns.Timer(s) {
      SenderRuns.TickKeepsTimer(s, ms, SenderRuns.Expired(s.defaultRto, s.retx) + s.time);
    }
  }

  // The model's loop, one round at a time.

  lemma LoopGoesOn(s: Sender, w: nat)
    requires s.Valid() && s.stream.Peek(Min(MAX_PAYLOAD_SIZE, w)) != []
    ensures SendLoop(s, w) == SendLoop(SendChunk(s, w), w - ChunkSegment(s, w).LengthInSequenceSpace())
    ensures SendChunk(s, w).stream.BufferSize() < s.stream.BufferSize()
  {
  }

  lemma LoopEnds(s: Sender, w: nat)
    requires s.Valid() && s.stream.Peek(Min(MAX_PAYLOAD_SIZE, w)) == []
    ensures SendLoop(s, w) == s == s.(stream := s.stream.Pop(Min(MAX_PAYLOAD_SIZE, w)))
  {
  }

  class TCPSender {
    const isn: u32
    var segmentsOut: seq<TcpSegment>
    var rto: u32
    const stream: ByteStream
    var nextSeqno: nat
    var segmentsCache: Outstanding
    const defaultRto: u32
    var peerWindowSize: u16
    var bytesInFlight: nat
    var time: nat
    var retxTimes: byte

    ghost function Repr(): set<object> { {this} + stream.Repr() }

    ghost predicate Valid()
      reads Repr()
    {
      stream.Valid() && this !in stream.Repr()
    }

    ghost function State(): (s: Sender)
      requires Valid()
      reads Repr()
      ensures s.Valid()
    {
      Sender(isn, segmentsOut, rto, stream.State(), nextSeqno, segmentsCache, defaultRto, peerWindowSize,
             bytesInFlight, time, retxTimes)
    }

    constructor (capacity: nat, retxTimeout: u16, isn: u32)
      ensures Valid() && fresh(Repr())
      ensures State() == FreshSender(capacity, retxTimeout, isn)
      ensures SenderProofs.Tiling(State())
    {
      this.isn := isn;
      segmentsOut, segmentsCache := [], map[];
      rto, defaultRto := retxTimeout, retxTimeout;
      stream := new ByteStream(capacity);
      nextSeqno, bytesInFlight, time, retxTimes := 0, 0, 0, 0;
      peerWindowSize := 1;
      SenderProofs.FreshIsTiled(capacity, retxTimeout, isn);
    }

    /** Queue, count and cache a segment that holds the next numbers. */
    method Send(seg: TcpSegment)
      requires Valid()
      modifies this`nextSeqno, this`bytesInFlight, this`segmentsOut, this`segmentsCache
      ensures Valid() && State() == Emit(old(State()), seg)
    {
      nextSeqno := nextSeqno + seg.LengthInSequenceSpace();
      bytesInFlight := bytesInFlight + seg.LengthInSequenceSpace();
      segmentsOut := segmentsOut + [seg];
      CacheSegment(nextSeqno, seg);
    }

    method CacheSegment(ackno: nat, seg: TcpSegment)
      requires Valid()
      modifies this`segmentsCache
      ensures Valid() && State() == old(State()).(cache := old(segmentsCache)[ackno := seg])
    {
      segmentsCache := segmentsCache[ackno := seg];
    }

    method FillWindow()
      requires Valid()
      modifies Repr()
      ensures Valid() && State() == TcpSenders.FillWindow(old(State()))
      ensures SenderProofs.Tiling(old(State())) ==>
                && SenderProofs.Tiling(State())
                && (State().next > old(State()).next ==> State().bif <= State().Window())
      ensures var s := old(State());
              SenderProofs.Tiling(s) && s.bif < s.next && s.bif <= s.Window() ==>
                State().stream.BufferSize() == 0 || State().bif == State().Window()
    {
      FillKeeps(State());
      if nextSeqno == 0 {
        Send(TcpSegment(EMPTY_HEADER.(syn := true, seqno := isn), []));
      }
      FillStarted();
    }

    method FillStarted()
      requires Valid()
      modifies Repr()
      ensures Valid() && State() == TcpSenders.FillStarted(old(State()))
    {
      var eof := stream.Eof();
      if !eof && nextSeqno > bytesInFlight {
        var window: nat := if peerWindowSize != 0 then peerWindowSize else 1;
        if window < bytesInFlight {
          return;
        }
        SendData(window - bytesInFlight);
      }
      SendFin();
    }

    /** The loop that cuts the stream into segments while the window has `room`. */
    method SendData(room: nat)
      requires Valid()
      modifies Repr()
      ensures Valid() && State() == SendLoop(old(State()), room)
    {
      ghost var start := State();
      var remaining: nat := room;
      ghost var before := State();
      var chunk := stream.Read(Min(MAX_PAYLOAD_SIZE, remaining));
      while chunk != []
        invariant Valid() && before.Valid() && before.stream.Valid()
        invariant SendLoop(start, room) == SendLoop(before, remaining)
        invariant chunk == before.stream.Peek(Min(MAX_PAYLOAD_SIZE, remaining))
        invariant State() == before.(stream := before.stream.Pop(Min(MAX_PAYLOAD_SIZE, remaining)))
        decreases before.stream.BufferSize()
      {
        LoopGoesOn(before, remaining);
        remaining := SendOne(chunk, remaining, before);
        before := State();
        chunk := stream.Read(Min(MAX_PAYLOAD_SIZE, remaining));
      }
      LoopEnds(before, remaining);
    }

    /** One round of that loop: the chunk just read goes out, with the FIN if it is the last. */
    method SendOne(chunk: seq<byte>, room: nat, ghost before: Sender) returns (left: nat)
      requires Valid() && before.Valid() && chunk == before.stream.Peek(Min(MAX_PAYLOAD_SIZE, room))
      requires State() == before.(stream := before.stream.Pop(Min(MAX_PAYLOAD_SIZE, room)))
      modifies this`nextSeqno, this`bytesInFlight, this`segmentsOut, this`segmentsCache
      ensures Valid() && State() == SendChunk(before, room)
      ensures left == room - ChunkSegment(before, room).LengthInSequenceSpace()
    {
      var fin := false;
      var eof := stream.Eof();
      if eof && nextSeqno < stream.writeCnt + 2 && room - |chunk| >= 1 {
        fin := true;
      }
      var seg := TcpSegment(EMPTY_HEADER.(seqno := Wrap(nextSeqno, isn), fin := fin), chunk);
      assert seg == ChunkSegment(before, room);
      left := room - seg.LengthInSequenceSpace();
      Send(seg);
    }

    method SendFin()
      requires Valid()
      modifies Repr()
      ensures Valid() && State() == TcpSenders.SendFin(old(State()))
    {
      var eof := stream.Eof();
      if eof && nextSeqno < stream.writeCnt + 2 {
        var window: nat := if peerWindowSize != 0 then peerWindowSize else 1;
        if window <= bytesInFlight {
          return;
        }
        Send(TcpSegment(EMPTY_HEADER.(seqno := Wrap(nextSeqno, isn), fin := true), []));
      }
    }

    method AckReceived(ackno: u32, windowSize: u16)
      requires Valid()
      modifies Repr()
      ensures Valid() && State() == TcpSenders.AckReceived(old(State()), ackno, windowSize)
      ensures var s := old(State());
              SenderProofs.Tiling(s) && SenderProofs.Short(s) && SenderProofs.WindowBounded(s) ==>
                (SenderProofs.Tiling(State()) <==> SenderProofs.Harmless(s, ackno))
      ensures var s := old(State());
              if Offset(Wrap(s.next, s.isn), ackno) >= 0 then State().peerWin == windowSize else State() == s
    {
      AckKeeps(State(), ackno, windowSize);
      SenderWindows.AckTakesWindow(State(), ackno, windowSize);
      var nBytes := LeftInFlight(ackno);
      if nBytes < 0 {
        return;
      }
      var acknosPop := CoveredBy(ackno);
      Cover(acknosPop, windowSize, nBytes);
    }

    method LeftInFlight(ackno: u32) returns (nBytes: int)
      requires Valid()
      ensures nBytes == TcpSenders.LeftInFlight(State(), ackno)
    {
      nBytes := Offset(Wrap(nextSeqno, isn), ackno);
    }

    method Cover(acknosPop: seq<nat>, windowSize: u16, nBytes: nat)
      requires Valid()
      modifies Repr()
      ensures Valid()
      ensures State() == TcpSenders.Cover(old(State()), Elements(acknosPop), windowSize, nBytes)
    {
      Erase(acknosPop);
      peerWindowSize := windowSize;
      if acknosPop != [] {
        assert acknosPop[0] in Elements(acknosPop);
        bytesInFlight := nBytes;
        time := 0;
        retxTimes := 0;
        rto := defaultRto;
        FillWindow();
      }
    }

    /** The keys of the cached segments an ack covers, in the order of the cache. */
    method CoveredBy(ackno: u32) returns (keys: seq<nat>)
      requires Valid()
      ensures Elements(keys) == Acked(State(), ackno)
    {
      keys := [];
      var ks := SortedKeys(segmentsCache.Keys);
      SortedKeysAreKeys(segmentsCache.Keys);
      for i := 0 to |ks|
        invariant forall k :: k in keys <==> k in ks[..i] && Unwrap(ackno, isn, k) >= k
      {
        if Unwrap(ackno, isn, ks[i]) >= ks[i] {
          keys := keys + [ks[i]];
        }
      }
    }

    method Erase(keys: seq<nat>)
      requires Valid()
      modifies this`segmentsCache
      ensures Valid()
      ensures State() == old(State()).(cache := old(segmentsCache) - Elements(keys))
    {
      for i := 0 to |keys|
        invariant segmentsCache == old(segmentsCache) - Elements(keys[..i])
      {
        assert keys[..i + 1] == keys[..i] + [keys[i]];
        segmentsCache := segmentsCache - {keys[i]};
      }
      assert keys[..|keys|] == keys;
    }

    method Tick(ms: nat)
      requires Valid()
      modifies this
      ensures Valid() && State() == TcpSenders.Tick(old(State()), ms)
      ensures KeptByTick(old(State()), State())
    {
      TickKeeps(State(), ms);
      if segmentsCache == map[] {
        return;
      }
      time := time + ms;
      if time >= rto && retxTimes <= MAX_RETX_ATTEMPTS {
        Retransmit();
      }
    }

    /** Send the oldest outstanding segment again; to an open window that counts, and doubles the
        timeout. */
    method Retransmit()
      requires Valid() && segmentsCache != map[]
      modifies this`segmentsOut, this`time, this`rto, this`retxTimes
      ensures Valid()
      ensures var s := old(State());
              var s1 := s.(out := s.out + [s.cache[Least(s.cache.Keys)]], time := 0);
              State() == if s.peerWin != 0 then s1.(rto := (s.rto * 2) % TWO32, retx := (s.retx + 1) % 0x100) else s1
    {
      segmentsOut := segmentsOut + [segmentsCache[Least(segmentsCache.Keys)]];
      time := 0;
      if peerWindowSize != 0 {
        rto := (rto * 2) % TWO32;
        retxTimes := (retxTimes + 1) % 0x100;
      }
    }

    method SendEmptySegment()
      requires Valid()
      modifies this`segmentsOut
      ensures Valid() && State() == SendEmpty(old(State()))
    {
      segmentsOut := segmentsOut + [TcpSegment(EMPTY_HEADER.(seqno := Wrap(nextSeqno, isn)), [])];
    }
  }
}
