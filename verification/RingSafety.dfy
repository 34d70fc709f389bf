// Invariants of the ring protocol and the theorems that hold over every
// interleaving of the two endpoints.
module RingSafety {
  import opened Common
  import opened RingArithmetic
  import opened RingProtocol

  // ---- The stream of frames ----

  ghost predicate FrameAt(n: u32, sent: seq<seq<Byte>>, bounds: seq<nat>, stream: seq<Byte>, j: nat)
    requires n > 0
  {
    && j < |sent| && j + 1 < |bounds|
    && WellFormedFrame(sent[j])
    && Aligned(bounds[j])
    && bounds[j + 1] == bounds[j] + |sent[j]| + TRAILER <= |stream|
    && stream[bounds[j]..bounds[j + 1]] == sent[j] + Trailer(Slot(n, bounds[j]))
  }

  ghost predicate Stream(n: u32, sent: seq<seq<Byte>>, bounds: seq<nat>, stream: seq<Byte>)
    requires n > 0
  {
    && |bounds| == |sent| + 1
    && Aligned(bounds[0])
    && bounds[|sent|] == |stream|
    && Aligned(|stream|)
    && forall j :: 0 <= j < |sent| ==> FrameAt(n, sent, bounds, stream, j)
  }

  lemma {:induction false} BoundsIncrease(n: u32, h: History, i: nat, j: nat)
    requires n > 0 && Stream(n, h.sent, h.bounds, h.stream) && i <= j < |h.bounds|
    ensures h.bounds[i] <= h.bounds[j] && (i < j ==> h.bounds[i] < h.bounds[j])
  {
    if i < j {
      assert FrameAt(n, h.sent, h.bounds, h.stream, j - 1);
      BoundsIncrease(n, h, i, j - 1);
    }
  }

  // ---- Ring pointers name stream positions ----

  ghost predicate Pointers(s: State) {
    && RingSize(s.n)
    && Stream(s.n, s.h.sent, s.h.bounds, s.h.stream)
    && |s.h.received| <= s.h.cached <= s.h.committed <= |s.h.sent|
    && s.h.received == s.h.sent[..|s.h.received|]
    && s.h.outCache <= s.h.out <= s.h.bounds[|s.h.received|] <= s.h.bounds[s.h.cached]
         <= s.h.bounds[s.h.committed] <= |s.h.stream| < s.h.outCache + s.n
    && Aligned(s.h.out) && Aligned(s.h.bounds[s.h.committed])
    && s.sh.inp == s.p.inp == Slot(s.n, s.h.bounds[s.h.committed])
    && s.p.off == Slot(s.n, |s.h.stream|)
    && s.p.outCache == Slot(s.n, s.h.outCache)
    && s.sh.out == s.c.out == Slot(s.n, s.h.out)
    && s.c.off == Slot(s.n, s.h.bounds[|s.h.received|])
    && s.c.inCache == Slot(s.n, s.h.bounds[s.h.cached])
  }

  // A frame of packet k fits between the staged bytes and the cached Out.
  ghost predicate Writing(s: State, k: Packet) {
    Sendable(s.n, k) && |s.h.stream| + Total(k) < s.h.outCache + s.n
  }

  ghost predicate ProducerOk(s: State)
    requires Pointers(s)
  {
    match s.p.pc
    case PReadOut1(k) => Sendable(s.n, k)
    case PWritePending(k) => Sendable(s.n, k) && Total(k) < s.n
    case PReadOut2(k) => Sendable(s.n, k) && Total(k) < s.n
    case PTail(k) => Writing(s, k)
    case PTrailer(k) => Writing(s, k)
    case PClear(k) => Writing(s, k)
    case PCopy1(k) => Writing(s, k) && s.p.pending == 0
    case PCopy2(k) => Writing(s, k) && s.p.pending == 0 && FirstChunk(s.n, s.p.off, |k|) < |k|
    case PReadMask(oldIn) => OldIn(s, oldIn)
    case PReadOut3(oldIn, _) => OldIn(s, oldIn)
    case PCorrupt => false
    case _ => true
  }

  // In before the last insertion.
  ghost predicate OldIn(s: State, oldIn: u32)
    requires Pointers(s)
  {
    && s.h.oldCommitted <= s.h.committed && oldIn == Slot(s.n, s.h.bounds[s.h.oldCommitted])
    && s.h.outCache <= s.h.bounds[s.h.oldCommitted] <= s.h.bounds[s.h.committed]
  }

  ghost predicate ConsumerOk(s: State)
    requires Pointers(s)
  {
    var r := |s.h.received|;
    match s.c.pc
    case CReadLength => r < s.h.cached
    case CTrailer(len) => r < s.h.cached && len == |s.h.sent[r]|
    case CCopy1(len) => r < s.h.cached && len == |s.h.sent[r]|
    case CCopy2(len, buf) =>
      && r < s.h.cached && len == |s.h.sent[r]|
      && s.c.off + len > s.n && buf == s.h.sent[r][..s.n - s.c.off]
    case CReadPending(oldOut) => s.h.oldOut <= s.h.out < s.h.oldOut + s.n && oldOut == Slot(s.n, s.h.oldOut)
    case CReadIn2(oldOut, _) => s.h.oldOut <= s.h.out < s.h.oldOut + s.n && oldOut == Slot(s.n, s.h.oldOut)
    case CCorrupt => false
    case _ => true
  }

  // ---- Ring contents ----

  // Bytes lo..hi of a sequence lie in the ring, which holds it from position base.
  ghost predicate Holds(n: u32, data: seq<Byte>, base: nat, bytes: seq<Byte>, lo: nat, hi: nat)
    requires 0 < n == |data|
  {
    hi <= |bytes| && forall i :: lo <= i < hi ==> data[Slot(n, base + i)] == bytes[i]
  }

  // The part of the frame under construction that is already in the ring.
  ghost predicate PartialFrame(s: State)
    requires Pointers(s) && |s.sh.data| == s.n
  {
    var base := |s.h.stream|;
    match s.p.pc
    case PTrailer(k) => Holds(s.n, s.sh.data, base, Frame(s.p.off, k), |k|, PacketSize(k))
    case PClear(k) => Holds(s.n, s.sh.data, base, Frame(s.p.off, k), |k|, Total(k))
    case PCopy1(k) => Holds(s.n, s.sh.data, base, Frame(s.p.off, k), |k|, Total(k))
    case PCopy2(k) =>
      && Holds(s.n, s.sh.data, base, Frame(s.p.off, k), |k|, Total(k))
      && Holds(s.n, s.sh.data, base, Frame(s.p.off, k), 0, FirstChunk(s.n, s.p.off, |k|))
    case _ => true
  }

  ghost predicate Contents(s: State)
    requires Pointers(s)
  {
    && |s.sh.data| == s.n
    && Holds(s.n, s.sh.data, 0, s.h.stream, s.h.out, |s.h.stream|)
    && PartialFrame(s)
  }

  // ---- Signals ----

  // A consumer that went idle has nothing to read, or has been signalled since,
  // or the producer is about to find that it must signal.
  ghost predicate NoLostWakeUp(s: State) {
    s.h.asleep.Some? ==>
      || s.sh.inp == s.sh.out
      || s.h.insertionSignals > s.h.asleep.value
      || s.p.pc == PReadMask(s.sh.out)
      || s.p.pc == PReadOut3(s.sh.out, false)
  }

  ghost predicate Sleep(s: State) {
    && NoLostWakeUp(s)
    && (s.h.asleep.Some? ==>
          s.c.pc.CReady? && !s.sh.masked && s.h.asleep.value <= s.h.insertionSignals)
  }

  // Seen from Out at stream position o, the published pending size is not yet
  // free: either among the committed bytes, or (capped size, empty ring) as soon
  // as the staged bytes are committed.
  ghost predicate StillFull(n: u32, pending: u32, staged: nat, committed: nat, o: nat) {
    && staged < o + n && o <= committed
    && (|| n - 1 - (committed - o) < pending
        || (pending == n - 1 && committed == o < staged))
  }

  ghost predicate Full(s: State)
    requires Pointers(s)
  {
    var staged, committed := |s.h.stream|, s.h.bounds[s.h.committed];
    && (s.h.blocked.Some? ==>
          && 0 < s.sh.pending < s.n && s.p.pending != 0
          && s.h.blocked.value <= s.h.removalSignals
          && (s.h.blocked.value == s.h.removalSignals ==>
                || StillFull(s.n, s.sh.pending, staged, committed, s.h.out)
                || (&& (s.c.pc.CReadPending? || (s.c.pc.CReadIn2? && s.c.pc.pendingSeen == s.sh.pending))
                    && StillFull(s.n, s.sh.pending, staged, committed, s.h.oldOut))))
    && (s.p.pc.PReadOut2? ==>
          var want := staged - committed + Total(s.p.pc.packet);
          s.sh.pending == (if want >= s.n then s.n - 1 else want) && s.p.pending != 0)
  }

  ghost predicate Inv(s: State) {
    Pointers(s) && ProducerOk(s) && ConsumerOk(s) && Contents(s) && Sleep(s) && Full(s)
  }

  lemma InvSane(s: State)
    requires Inv(s)
    ensures Sane(s)
  {
  }

  // ---- Writes to the data pages ----

  // A copy at stream position x changes only the slots of [x, x + |bytes|).
  lemma CopyEffect(n: u32, data: seq<Byte>, x: nat, bytes: seq<Byte>, y: nat)
    requires 0 < n == |data| && Slot(n, x) + |bytes| <= n && x + |bytes| <= y + n && y < x + n
    ensures CopyAt(data, Slot(n, x), bytes)[Slot(n, y)] ==
            if x <= y < x + |bytes| then bytes[y - x] else data[Slot(n, y)]
  {
    if y < x { Advance(n, y, x - y); } else { Advance(n, x, y - x); }
  }

  // The data pages after a copy of bytes to stream position x.
  ghost predicate Copied(n: u32, data: seq<Byte>, data': seq<Byte>, x: nat, bytes: seq<Byte>)
    requires n > 0
  {
    n == |data| && Slot(n, x) + |bytes| <= n && data' == CopyAt(data, Slot(n, x), bytes)
  }

  // What the ring held before a copy it still holds, off the slots copied to.
  lemma CopyKeeps(n: u32, data: seq<Byte>, data': seq<Byte>, x: nat, new_: seq<Byte>,
                  base: nat, bytes: seq<Byte>, lo: nat, hi: nat)
    requires n > 0 && Copied(n, data, data', x, new_) && Holds(n, data, base, bytes, lo, hi)
    requires || lo >= hi || (x + |new_| <= base + lo + n && base + hi <= x)
             || (x + |new_| <= base + lo && base + hi <= x + n)
    ensures |data'| == n && Holds(n, data', base, bytes, lo, hi)
  {
    forall i | lo <= i < hi ensures data'[Slot(n, base + i)] == bytes[i] {
      CopyEffect(n, data, x, new_, base + i);
    }
  }

  // A copy of bytes lo.. of a sequence puts them into the ring.
  lemma CopyPlaces(n: u32, data: seq<Byte>, data': seq<Byte>, base: nat, bytes: seq<Byte>, lo: nat, hi: nat)
    requires n > 0 && lo <= hi <= |bytes| && Copied(n, data, data', base + lo, bytes[lo..hi])
    ensures |data'| == n && Holds(n, data', base, bytes, lo, hi)
  {
    forall i | lo <= i < hi ensures data'[Slot(n, base + i)] == bytes[i] {
      CopyEffect(n, data, base + lo, bytes[lo..hi], base + i);
    }
  }

  // ---- Producer steps ----

  // What reading the public Out tells the producer.
  lemma ReadsOut(s: State, k: Packet)
    requires Pointers(s)
    ensures ValidPointer(s.n, s.sh.out)
    ensures Fits(CacheOut(s), k) <==> |s.h.stream| + Total(k) < s.h.out + s.n
  {
    AlignedSlot(s.n, s.h.out);
    StreamDistance(s.n, |s.h.stream|, s.h.out);
  }

  lemma KeepReadOut1(s: State, k: Packet)
    requires Inv(s) && s.p.pc == PReadOut1(k)
    ensures Inv(ReadOut1(s, k))
  {
    ReadsOut(s, k);
    var t := CacheOut(s);
    if Fits(t, k) {
      assert Inv(AtProducer(t, PTail(k)));
    } else if Total(k) >= s.n {
      assert Inv(AtProducer(t, PReady));
    } else {
      assert Inv(AtProducer(t, PWritePending(k)));
    }
  }

  lemma KeepWritePending(s: State, k: Packet)
    requires Inv(s) && s.p.pc == PWritePending(k)
    ensures Inv(WritePending(s, k))
  {
    StreamDistance(s.n, |s.h.stream|, s.h.bounds[s.h.committed]);
  }

  lemma KeepReadOut2(s: State, k: Packet)
    requires Inv(s) && s.p.pc == PReadOut2(k)
    ensures Inv(ReadOut2(s, k))
  {
    ReadsOut(s, k);
    var t := CacheOut(s);
    if Fits(t, k) {
      assert Inv(AtProducer(t, PTail(k)));
    } else {
      assert StillFull(s.n, s.sh.pending, |s.h.stream|, s.h.bounds[s.h.committed], s.h.out);
    }
  }

  lemma KeepClearPending(s: State, k: Packet)
    requires Inv(s) && s.p.pc == PClear(k)
    ensures Inv(ClearPending(s, k))
  {
  }

  lemma KeepWriteIn(s: State)
    requires Inv(s) && s.p.pc == PWriteIn
    ensures Inv(WriteIn(s))
  {
  }

  lemma KeepReadMask(s: State)
    requires Inv(s) && s.p.pc.PReadMask?
    ensures Inv(AtProducer(s, PReadOut3(s.p.pc.oldIn, s.sh.masked)))
  {
  }

  lemma KeepReadOut3(s: State, oldIn: u32, m: bool)
    requires Inv(s) && s.p.pc == PReadOut3(oldIn, m)
    ensures Inv(ReadOut3(s, oldIn, m))
  {
    AlignedSlot(s.n, s.h.out);
  }

  // The eight bytes at frame offset d lie contiguously in the ring.
  lemma WordSlot(s: State, k: Packet, d: nat)
    requires Pointers(s) && Writing(s, k) && Aligned(d) && d + 8 <= Total(k)
    ensures ModuloReduce(Add32(s.p.off, d), s.n) == Slot(s.n, |s.h.stream| + d)
    ensures Slot(s.n, |s.h.stream| + d) + 8 <= s.n
  {
    Advance(s.n, |s.h.stream|, d);
    AlignedSum(|s.h.stream|, d);
    AlignedSlot(s.n, |s.h.stream| + d);
    AlignedRoom(s.n, Slot(s.n, |s.h.stream| + d));
  }

  // Replacing the data pages by ones that hold the stream keeps everything else.
  lemma KeepData(s: State, k: Packet, data: seq<Byte>, pc: ProducerPc)
    requires Inv(s) && (s.p.pc == PTail(k) || s.p.pc == PTrailer(k) || s.p.pc == PCopy1(k))
    requires |data| == s.n && Holds(s.n, data, 0, s.h.stream, s.h.out, |s.h.stream|)
    requires pc == PTrailer(k) || pc == PClear(k) || pc == PCopy1(k) || pc == PCopy2(k)
    requires var t := AtProducer(s.(sh := s.sh.(data := data)), pc);
             Pointers(t) && ProducerOk(t) && PartialFrame(t)
    ensures Inv(AtProducer(s.(sh := s.sh.(data := data)), pc))
  {
  }

  lemma KeepWriteTail(s: State, k: Packet)
    requires Inv(s) && s.p.pc == PTail(k)
    ensures Inv(WriteTail(s, k))
  {
    var data := WriteTailIs(s, k);
    KeepData(s, k, data, PTrailer(k));
  }

  lemma WriteTailIs(s: State, k: Packet) returns (data: seq<Byte>)
    requires Pointers(s) && Writing(s, k) && Contents(s) && s.p.pc == PTail(k)
    ensures |data| == s.n && Holds(s.n, data, 0, s.h.stream, s.h.out, |s.h.stream|)
    ensures Holds(s.n, data, |s.h.stream|, Frame(s.p.off, k), |k|, PacketSize(k))
    ensures WriteTail(s, k) == AtProducer(s.(sh := s.sh.(data := data)), PTrailer(k))
  {
    AlignedSum(8, PacketSize(k) - 8);
    WordSlot(s, k, PacketSize(k) - 8);
    data := CopyAt(s.sh.data, Slot(s.n, |s.h.stream| + PacketSize(k) - 8), Zero8);
    TailData(s.n, s.sh.data, data, s.h, s.p.off, k);
  }

  lemma TailData(n: u32, old_: seq<Byte>, data: seq<Byte>, h: History, off: u32, k: Packet)
    requires n > 0 && Copied(n, old_, data, |h.stream| + PacketSize(k) - 8, Zero8)
    requires Holds(n, old_, 0, h.stream, h.out, |h.stream|)
    requires h.out <= |h.stream| && |h.stream| + Total(k) < h.out + n
    ensures |data| == n && Holds(n, data, 0, h.stream, h.out, |h.stream|)
    ensures Holds(n, data, |h.stream|, Frame(off, k), |k|, PacketSize(k))
  {
    CopyKeeps(n, old_, data, |h.stream| + PacketSize(k) - 8, Zero8, 0, h.stream, h.out, |h.stream|);
    TailFrame(n, old_, data, |h.stream|, Frame(off, k), off, k);
  }

  // The zeros behind the packet are the end of its frame.
  lemma TailFrame(n: u32, old_: seq<Byte>, data: seq<Byte>, x: nat, frame: seq<Byte>, off: u32, k: Packet)
    requires n > 0 && Total(k) < n && Copied(n, old_, data, x + PacketSize(k) - 8, Zero8) && frame == Frame(off, k)
    ensures |data| == n && Holds(n, data, x, frame, |k|, PacketSize(k))
  {
    forall i | |k| <= i < PacketSize(k) ensures data[Slot(n, x + i)] == frame[i] {
      CopyEffect(n, old_, x + PacketSize(k) - 8, Zero8, x + i);
      TailIsZero(off, k, i);
    }
  }

  lemma TailIsZero(off: u32, k: Packet, i: nat)
    requires |k| <= i < PacketSize(k)
    ensures Frame(off, k)[i] == 0 && PacketSize(k) - 8 <= i && Zero8[i - (PacketSize(k) - 8)] == 0
  {
  }

  lemma KeepWriteTrailer(s: State, k: Packet)
    requires Inv(s) && s.p.pc == PTrailer(k)
    ensures Inv(WriteTrailer(s, k))
  {
    var data := WriteTrailerIs(s, k);
    if s.p.pending != 0 {
      KeepData(s, k, data, PClear(k));
    } else {
      KeepData(s, k, data, PCopy1(k));
    }
  }

  lemma WriteTrailerIs(s: State, k: Packet) returns (data: seq<Byte>)
    requires Pointers(s) && Writing(s, k) && Contents(s) && s.p.pc == PTrailer(k)
    ensures |data| == s.n && Holds(s.n, data, 0, s.h.stream, s.h.out, |s.h.stream|)
    ensures Holds(s.n, data, |s.h.stream|, Frame(s.p.off, k), |k|, Total(k))
    ensures WriteTrailer(s, k) ==
            AtProducer(s.(sh := s.sh.(data := data)), if s.p.pending != 0 then PClear(k) else PCopy1(k))
  {
    WordSlot(s, k, PacketSize(k));
    data := CopyAt(s.sh.data, Slot(s.n, |s.h.stream| + PacketSize(k)), Trailer(s.p.off));
    TrailerData(s.n, s.sh.data, data, s.h, Frame(s.p.off, k), s.p.off, k);
  }

  lemma TrailerData(n: u32, old_: seq<Byte>, data: seq<Byte>, h: History, frame: seq<Byte>, off: u32, k: Packet)
    requires n > 0 && Copied(n, old_, data, |h.stream| + PacketSize(k), Trailer(off)) && frame == Frame(off, k)
    requires Holds(n, old_, 0, h.stream, h.out, |h.stream|)
    requires Holds(n, old_, |h.stream|, frame, |k|, PacketSize(k))
    requires h.out <= |h.stream| && |h.stream| + Total(k) < h.out + n
    ensures |data| == n && Holds(n, data, 0, h.stream, h.out, |h.stream|)
    ensures Holds(n, data, |h.stream|, frame, |k|, Total(k))
  {
    var base, size, trailer := |h.stream|, PacketSize(k), Trailer(off);
    CopyKeeps(n, old_, data, base + size, trailer, 0, h.stream, h.out, base);
    CopyKeeps(n, old_, data, base + size, trailer, base, frame, |k|, size);
    assert frame[size..size + TRAILER] == trailer;
    CopyPlaces(n, old_, data, base, frame, size, size + TRAILER);
    JoinHolds(n, data, base, frame, |k|, size, Total(k));
  }

  // A frame whose bytes are all in the ring joins the stream.
  lemma KeepStage(s: State, k: Packet)
    requires Pointers(s) && Writing(s, k) && ConsumerOk(s) && Sleep(s) && Full(s)
    requires s.p.pending == 0 && (s.p.pc == PCopy1(k) || s.p.pc == PCopy2(k))
    requires |s.sh.data| == s.n
    requires Holds(s.n, s.sh.data, 0, s.h.stream, s.h.out, |s.h.stream|)
    requires Holds(s.n, s.sh.data, |s.h.stream|, Frame(s.p.off, k), 0, Total(k))
    ensures Inv(Stage(s, k))
  {
    StagePointers(s, k);
    StageHolds(s, k);
    StageRest(s, k);
  }

  lemma StagePointers(s: State, k: Packet)
    requires Pointers(s) && Writing(s, k)
    ensures Pointers(Stage(s, k))
    ensures forall i :: 0 <= i < |s.h.bounds| ==> Stage(s, k).h.bounds[i] == s.h.bounds[i]
  {
    Advance(s.n, |s.h.stream|, Total(k));
    StageStream(s, k);
  }

  // The endpoints and their signals do not look at the new frame.
  lemma StageRest(s: State, k: Packet)
    requires Pointers(s) && Pointers(Stage(s, k)) && ConsumerOk(s) && Sleep(s) && Full(s)
    requires forall i :: 0 <= i < |s.h.bounds| ==> Stage(s, k).h.bounds[i] == s.h.bounds[i]
    requires s.p.pending == 0 && (s.p.pc == PCopy1(k) || s.p.pc == PCopy2(k))
    ensures ProducerOk(Stage(s, k)) && ConsumerOk(Stage(s, k)) && Sleep(Stage(s, k)) && Full(Stage(s, k))
  {
  }

  lemma StageHolds(s: State, k: Packet)
    requires Pointers(s) && |s.sh.data| == s.n
    requires Holds(s.n, s.sh.data, 0, s.h.stream, s.h.out, |s.h.stream|)
    requires Holds(s.n, s.sh.data, |s.h.stream|, Frame(s.p.off, k), 0, Total(k))
    ensures var all := s.h.stream + Frame(s.p.off, k); Holds(s.n, s.sh.data, 0, all, s.h.out, |all|)
  {
    var all := s.h.stream + Frame(s.p.off, k);
    forall i | s.h.out <= i < |all| ensures s.sh.data[Slot(s.n, 0 + i)] == all[i] {
      if i >= |s.h.stream| {
        assert s.sh.data[Slot(s.n, |s.h.stream| + (i - |s.h.stream|))] == Frame(s.p.off, k)[i - |s.h.stream|];
      } else {
        assert s.sh.data[Slot(s.n, 0 + i)] == s.h.stream[i];
      }
    }
  }

  lemma StageStream(s: State, k: Packet)
    requires Pointers(s) && Sendable(s.n, k)
    ensures var h := Stage(s, k).h; Stream(s.n, h.sent, h.bounds, h.stream)
    ensures forall i :: 0 <= i < |s.h.bounds| ==> Stage(s, k).h.bounds[i] == s.h.bounds[i]
  {
    var h, h' := s.h, Stage(s, k).h;
    AlignedSum(PacketSize(k), TRAILER);
    AlignedSum(|h.stream|, Total(k));
    forall j | 0 <= j < |h'.sent| ensures FrameAt(s.n, h'.sent, h'.bounds, h'.stream, j) {
      if j < |h.sent| {
        assert FrameAt(s.n, h.sent, h.bounds, h.stream, j);
        assert h'.stream[h'.bounds[j]..h'.bounds[j + 1]] == h.stream[h.bounds[j]..h.bounds[j + 1]];
      } else {
        assert h'.stream[|h.stream|..] == Frame(s.p.off, k);
      }
    }
  }

  // Where PkWritePacketSingleMapped breaks the packet at the end of the ring.
  lemma ChunkSlots(s: State, k: Packet)
    requires Pointers(s) && Writing(s, k)
    ensures s.p.off < s.n
    ensures var c := FirstChunk(s.n, s.p.off, |k|);
      0 < c <= |k| && s.p.off + c <= s.n &&
      (c < |k| ==> Slot(s.n, |s.h.stream| + c) == 0 && |k| - c <= s.n)
  {
    var c := FirstChunk(s.n, s.p.off, |k|);
    if AlignUp8(|k|) > s.n - s.p.off {
      AlignedSlot(s.n, |s.h.stream|);
      AlignedSum(s.p.off, s.n - s.p.off);
      AlignedRoom(AlignUp8(|k|), s.n - s.p.off);
      Advance(s.n, |s.h.stream|, c);
    }
  }

  lemma KeepCopy1(s: State, k: Packet)
    requires Inv(s) && s.p.pc == PCopy1(k)
    ensures s.p.off < s.n && Inv(Copy1(s, k))
  {
    ChunkSlots(s, k);
    var data := Copy1Data(s, k, FirstChunk(s.n, s.p.off, |k|));
    if FirstChunk(s.n, s.p.off, |k|) < |k| {
      KeepData(s, k, data, PCopy2(k));
    } else {
      JoinHolds(s.n, data, |s.h.stream|, Frame(s.p.off, k), 0, |k|, Total(k));
      KeepStage(s.(sh := s.sh.(data := data)), k);
    }
  }

  lemma Copy1Data(s: State, k: Packet, c: nat) returns (data: seq<Byte>)
    requires |s.h.bounds| > 0 && s.p.off < s.n == |s.sh.data| && s.p.off == Slot(s.n, |s.h.stream|)
    requires c == FirstChunk(s.n, s.p.off, |k|) <= |k| && s.p.off + c <= s.n
    requires s.h.out <= |s.h.stream| && |s.h.stream| + Total(k) < s.h.out + s.n
    requires Holds(s.n, s.sh.data, 0, s.h.stream, s.h.out, |s.h.stream|)
    requires Holds(s.n, s.sh.data, |s.h.stream|, Frame(s.p.off, k), |k|, Total(k))
    ensures |data| == s.n && Holds(s.n, data, 0, s.h.stream, s.h.out, |s.h.stream|)
    ensures Holds(s.n, data, |s.h.stream|, Frame(s.p.off, k), 0, c)
    ensures Holds(s.n, data, |s.h.stream|, Frame(s.p.off, k), |k|, Total(k))
    ensures var t := s.(sh := s.sh.(data := data));
      Copy1(s, k) == if c < |k| then AtProducer(t, PCopy2(k)) else Stage(t, k)
  {
    data := CopyAt(s.sh.data, s.p.off, Frame(s.p.off, k)[0..c]);
    ChunkData(s.n, s.sh.data, data, s.h, Frame(s.p.off, k), 0, c, |k|);
    Copy1Is(s, k, c, data);
  }

  lemma Copy1Is(s: State, k: Packet, c: nat, data: seq<Byte>)
    requires |s.h.bounds| > 0 && s.p.off < s.n == |s.sh.data| && s.p.off + c <= s.n
    requires c == FirstChunk(s.n, s.p.off, |k|) <= |k|
    requires data == CopyAt(s.sh.data, s.p.off, Frame(s.p.off, k)[0..c])
    ensures var t := s.(sh := s.sh.(data := data));
      Copy1(s, k) == if c < |k| then AtProducer(t, PCopy2(k)) else Stage(t, k)
  {
    assert k[..c] == Frame(s.p.off, k)[0..c];
    if c == |k| { assert k[..c] == k; }
  }

  lemma KeepCopy2(s: State, k: Packet)
    requires Inv(s) && s.p.pc == PCopy2(k)
    ensures s.p.off < s.n && Inv(Copy2(s, k))
  {
    var data := Copy2Data(s, k);
    KeepStage(s.(sh := s.sh.(data := data)), k);
  }

  lemma Copy2Data(s: State, k: Packet) returns (data: seq<Byte>)
    requires Pointers(s) && Writing(s, k) && Contents(s)
    requires s.p.pc == PCopy2(k) && FirstChunk(s.n, s.p.off, |k|) < |k|
    ensures s.p.off < s.n == |data|
    ensures Holds(s.n, data, 0, s.h.stream, s.h.out, |s.h.stream|)
    ensures Holds(s.n, data, |s.h.stream|, Frame(s.p.off, k), 0, Total(k))
    ensures Copy2(s, k) == Stage(s.(sh := s.sh.(data := data)), k)
  {
    ChunkSlots(s, k);
    var c, base, frame := FirstChunk(s.n, s.p.off, |k|), |s.h.stream|, Frame(s.p.off, k);
    assert k[c..] == frame[c..|k|];
    data := CopyAt(s.sh.data, 0, frame[c..|k|]);
    CopyKeeps(s.n, s.sh.data, data, base + c, frame[c..|k|], base, frame, 0, c);
    ChunkData(s.n, s.sh.data, data, s.h, frame, c, |k|, |k|);
    JoinHolds(s.n, data, base, frame, 0, c, |k|);
    JoinHolds(s.n, data, base, frame, 0, |k|, Total(k));
  }

  lemma JoinHolds(n: u32, data: seq<Byte>, base: nat, bytes: seq<Byte>, lo: nat, mid: nat, hi: nat)
    requires 0 < n == |data|
    requires Holds(n, data, base, bytes, lo, mid) && Holds(n, data, base, bytes, mid, hi)
    ensures Holds(n, data, base, bytes, lo, hi)
  {
  }

  // Copying frame[lo..hi] keeps the stream and the frame's bytes from tail on.
  lemma ChunkData(n: u32, old_: seq<Byte>, data: seq<Byte>, h: History, frame: seq<Byte>, lo: nat, hi: nat, tail: nat)
    requires n > 0 && lo <= hi <= tail <= |frame| && Copied(n, old_, data, |h.stream| + lo, frame[lo..hi])
    requires Holds(n, old_, 0, h.stream, h.out, |h.stream|) && Holds(n, old_, |h.stream|, frame, tail, |frame|)
    requires h.out <= |h.stream| && |h.stream| + |frame| < h.out + n
    ensures |data| == n && Holds(n, data, 0, h.stream, h.out, |h.stream|)
    ensures Holds(n, data, |h.stream|, frame, lo, hi)
    ensures Holds(n, data, |h.stream|, frame, tail, |frame|)
  {
    CopyKeeps(n, old_, data, |h.stream| + lo, frame[lo..hi], 0, h.stream, h.out, |h.stream|);
    CopyKeeps(n, old_, data, |h.stream| + lo, frame[lo..hi], |h.stream|, frame, tail, |frame|);
    CopyPlaces(n, old_, data, |h.stream|, frame, lo, hi);
  }

  // ---- Consumer steps ----

  // The consumer's offset is that of a frame which lies whole in the ring.
  ghost predicate AtFrame(s: State, start: nat, packet: seq<Byte>) {
    && RingSize(s.n) && |s.sh.data| == s.n
    && Aligned(start) && s.c.off == Slot(s.n, start)
    && WellFormedFrame(packet) && |packet| + TRAILER < s.n
    && Holds(s.n, s.sh.data, start, packet + Trailer(s.c.off), 0, |packet| + TRAILER)
  }

  // The next unread frame lies in the ring, byte for byte.
  lemma NextFrame(s: State)
    requires Pointers(s) && Contents(s) && |s.h.received| < s.h.cached
    ensures var r := |s.h.received|;
      && AtFrame(s, s.h.bounds[r], s.h.sent[r])
      && s.h.bounds[r] + |s.h.sent[r]| + TRAILER <= s.h.bounds[s.h.cached] < s.h.bounds[r] + s.n
  {
    var r := |s.h.received|;
    assert FrameAt(s.n, s.h.sent, s.h.bounds, s.h.stream, r);
    BoundsIncrease(s.n, s.h, r + 1, s.h.cached);
    HoldsPart(s.n, s.sh.data, s.h.stream, s.h.out, s.h.bounds[r], s.h.bounds[r + 1], s.h.sent[r] + Trailer(s.c.off));
  }

  // A part of the stream that the ring holds.
  lemma HoldsPart(n: u32, data: seq<Byte>, stream: seq<Byte>, out: nat, start: nat, end: nat, frame: seq<Byte>)
    requires 0 < n == |data| && Holds(n, data, 0, stream, out, |stream|)
    requires out <= start <= end <= |stream| && frame == stream[start..end]
    ensures Holds(n, data, start, frame, 0, |frame|)
  {
    forall i | 0 <= i < |frame| ensures data[Slot(n, start + i)] == frame[i] {
      assert data[Slot(n, 0 + (start + i))] == stream[start + i];
    }
  }

  // A stretch of the ring that does not wrap, read with one CopyMem.
  lemma ReadStretch(n: u32, data: seq<Byte>, base: nat, bytes: seq<Byte>, lo: nat, hi: nat)
    requires 0 < n == |data| && lo <= hi <= |bytes| <= n && Holds(n, data, base, bytes, 0, |bytes|)
    requires Slot(n, base + lo) + (hi - lo) <= n
    ensures data[Slot(n, base + lo)..Slot(n, base + lo) + (hi - lo)] == bytes[lo..hi]
  {
    var at := Slot(n, base + lo);
    var got, want := data[at..at + (hi - lo)], bytes[lo..hi];
    forall i | 0 <= i < |got| ensures got[i] == want[i] {
      Advance(n, base + lo, i);
      assert data[Slot(n, base + (lo + i))] == bytes[lo + i];
    }
  }

  lemma KeepReadIn1(s: State)
    requires Inv(s) && s.c.pc == CReadIn1
    ensures Inv(ReadIn1(s))
  {
    var in_ := s.h.bounds[s.h.committed];
    AlignedSlot(s.n, in_);
    SlotInjective(s.n, s.h.bounds[|s.h.received|], in_);
    if s.sh.inp == s.c.off {
      assert Inv(Rest(AtConsumer(CacheIn(s), CReady)));
    } else {
      assert Inv(AtConsumer(CacheIn(s), CReadLength));
    }
  }

  lemma KeepReadLength(s: State)
    requires Inv(s) && s.c.pc == CReadLength
    ensures Inv(ReadLength(s))
  {
    NextFrame(s);
    ReadLengthIs(s, s.h.bounds[|s.h.received|], s.h.sent[|s.h.received|], s.h.bounds[s.h.cached]);
  }

  lemma FirstWord(n: u32, data: seq<Byte>, start: nat, off: nat, packet: seq<Byte>, frame: seq<Byte>)
    requires RingSize(n) && |data| == n && Aligned(start) && off == Slot(n, start)
    requires DESCRIPTOR <= |packet| <= |frame| <= n && packet == frame[..|packet|]
    requires Holds(n, data, start, frame, 0, |frame|)
    ensures off + 8 <= n && data[off + 4] == packet[4] && data[off + 5] == packet[5]
  {
    AlignedSlot(n, start);
    AlignedRoom(n, off);
    ReadStretch(n, data, start, frame, 0, 8);
    assert data[off..off + 8][4] == frame[0..8][4] && data[off..off + 8][5] == frame[0..8][5];
  }

  // The descriptor's first eight bytes never wrap.
  lemma ReadLengthIs(s: State, start: nat, packet: seq<Byte>, cached: nat)
    requires AtFrame(s, start, packet)
    requires s.c.inCache == Slot(s.n, cached) && start + |packet| + TRAILER <= cached < start + s.n
    ensures |packet| <= 8 * 65535
    ensures ReadLength(s) == AtConsumer(s, CTrailer(|packet|))
  {
    FirstWord(s.n, s.sh.data, start, s.c.off, packet, packet + Trailer(s.c.off));
    StreamDistance(s.n, cached, start);
  }

  lemma KeepCheckTrailer(s: State)
    requires Inv(s) && s.c.pc.CTrailer?
    ensures Inv(CheckTrailer(s, s.c.pc.len))
  {
    NextFrame(s);
    CheckTrailerIs(s, s.h.bounds[|s.h.received|], s.h.sent[|s.h.received|]);
  }

  // The trailer of a frame does not wrap.
  lemma TrailerSlot(n: u32, start: nat, len: u32)
    requires RingSize(n) && Aligned(start) && Aligned(len) && len < n
    ensures ModuloReduce(Add32(Slot(n, start), len), n) == Slot(n, start + len) && Slot(n, start + len) + TRAILER <= n
  {
    Advance(n, start, len);
    AlignedSum(start, len);
    AlignedSlot(n, start + len);
    AlignedRoom(n, Slot(n, start + len));
  }

  lemma CheckTrailerIs(s: State, start: nat, packet: seq<Byte>)
    requires AtFrame(s, start, packet) && |packet| <= 8 * 65535
    ensures CheckTrailer(s, |packet|) == AtConsumer(s, CCopy1(|packet|))
  {
    var len, frame := |packet|, packet + Trailer(s.c.off);
    TrailerSlot(s.n, start, len);
    ReadStretch(s.n, s.sh.data, start, frame, len, len + TRAILER);
    assert frame[len..len + TRAILER] == Trailer(s.c.off);
    TrailerRoundTrip(s.c.off);
  }

  lemma KeepDeliver(s: State, len: Length)
    requires Inv(s) && |s.h.received| < s.h.cached && len == |s.h.sent[|s.h.received|]|
    requires s.c.pc.CCopy1? || s.c.pc.CCopy2?
    ensures Inv(Deliver(s, len, s.h.sent[|s.h.received|]))
  {
    DeliverPointers(s, len);
    DeliverRest(s, len);
  }

  lemma DeliverPointers(s: State, len: Length)
    requires Pointers(s) && |s.h.received| < s.h.cached && len == |s.h.sent[|s.h.received|]|
    ensures Pointers(Deliver(s, len, s.h.sent[|s.h.received|]))
  {
    var r := |s.h.received|;
    assert FrameAt(s.n, s.h.sent, s.h.bounds, s.h.stream, r);
    BoundsIncrease(s.n, s.h, r + 1, s.h.cached);
    Advance(s.n, s.h.bounds[r], len + TRAILER);
    assert s.h.received + [s.h.sent[r]] == s.h.sent[..r + 1];
  }

  lemma DeliverRest(s: State, len: Length)
    requires Inv(s) && |s.h.received| < |s.h.sent| && (s.c.pc.CCopy1? || s.c.pc.CCopy2?)
    requires Pointers(Deliver(s, len, s.h.sent[|s.h.received|]))
    ensures Inv(Deliver(s, len, s.h.sent[|s.h.received|]))
  {
  }

  lemma KeepCopyOut1(s: State)
    requires Inv(s) && s.c.pc.CCopy1?
    ensures s.c.off < |s.sh.data| && Inv(CopyOut1(s, s.c.pc.len))
  {
    var len, packet := s.c.pc.len, s.h.sent[|s.h.received|];
    NextFrame(s);
    CopyOut1Is(s, s.h.bounds[|s.h.received|], packet);
    if s.c.off + len <= s.n {
      KeepDeliver(s, len);
    } else {
      assert Inv(AtConsumer(s, CCopy2(len, packet[..s.n - s.c.off])));
    }
  }

  lemma CopyOut1Is(s: State, start: nat, packet: seq<Byte>)
    requires AtFrame(s, start, packet) && |packet| <= 8 * 65535
    ensures CopyOut1(s, |packet|) == if s.c.off + |packet| <= s.n then Deliver(s, |packet|, packet)
                                     else AtConsumer(s, CCopy2(|packet|, packet[..s.n - s.c.off]))
  {
    var frame := packet + Trailer(s.c.off);
    if s.c.off + |packet| <= s.n {
      ReadStretch(s.n, s.sh.data, start, frame, 0, |packet|);
      assert frame[0..|packet|] == packet;
    } else {
      var m := s.n - s.c.off;
      ReadStretch(s.n, s.sh.data, start, frame, 0, m);
      assert frame[0..m] == packet[..m];
      assert s.sh.data[s.c.off..] == s.sh.data[s.c.off..s.c.off + m];
    }
  }

  lemma KeepCopyOut2(s: State)
    requires Inv(s) && s.c.pc.CCopy2?
    ensures Inv(CopyOut2(s, s.c.pc.len, s.c.pc.buf))
  {
    var len, buf, packet := s.c.pc.len, s.c.pc.buf, s.h.sent[|s.h.received|];
    NextFrame(s);
    CopyOut2Is(s, s.h.bounds[|s.h.received|], packet);
    KeepDeliver(s, len);
    assert Inv(Deliver(s, len, packet)) && CopyOut2(s, len, buf) == Deliver(s, len, packet);
  }

  lemma CopyOut2Is(s: State, start: nat, packet: seq<Byte>)
    requires AtFrame(s, start, packet) && |packet| <= 8 * 65535 && s.c.off + |packet| > s.n
    ensures CopyOut2(s, |packet|, packet[..s.n - s.c.off]) == Deliver(s, |packet|, packet)
  {
    var frame, m := packet + Trailer(s.c.off), s.n - s.c.off;
    Advance(s.n, start, m);
    ReadStretch(s.n, s.sh.data, start, frame, m, |packet|);
    assert frame[m..|packet|] == packet[m..];
    assert packet[..m] + packet[m..] == packet;
  }

  lemma KeepWriteOut(s: State)
    requires Inv(s) && s.c.pc == CWriteOut
    ensures Inv(WriteOut(s))
  {
    var r := |s.h.received|;
    if r > 0 {
      assert FrameAt(s.n, s.h.sent, s.h.bounds, s.h.stream, r - 1);
      AlignedSum(s.h.bounds[r - 1], |s.h.sent[r - 1]| + TRAILER);
      AlignedSum(|s.h.sent[r - 1]|, TRAILER);
    }
  }

  lemma KeepReadPending(s: State)
    requires Inv(s) && s.c.pc.CReadPending?
    ensures Inv(AtConsumer(s, CReadIn2(s.c.pc.oldOut, s.sh.pending)))
  {
  }

  // A removal that does not signal leaves a blocked producer's space too small.
  lemma RemovalDecision(s: State, oldOut: u32, pending: u32)
    requires Pointers(s) && ConsumerOk(s) && Full(s) && s.c.pc == CReadIn2(oldOut, pending)
    requires s.h.blocked.Some? && s.h.blocked.value == s.h.removalSignals
    ensures || RemovalSignals(s.n, s.sh.inp, oldOut, s.c.out, pending)
            || StillFull(s.n, s.sh.pending, |s.h.stream|, s.h.bounds[s.h.committed], s.h.out)
  {
    var committed := s.h.bounds[s.h.committed];
    StreamDistance(s.n, committed, s.h.out);
    if committed < s.h.oldOut + s.n { StreamDistance(s.n, committed, s.h.oldOut); }
  }

  lemma KeepReadIn2(s: State, oldOut: u32, pending: u32)
    requires Inv(s) && s.c.pc == CReadIn2(oldOut, pending)
    ensures Inv(ReadIn2(s, oldOut, pending))
  {
    AlignedSlot(s.n, s.h.bounds[s.h.committed]);
    if s.h.blocked.Some? && s.h.blocked.value == s.h.removalSignals { RemovalDecision(s, oldOut, pending); }
    var signals := s.h.removalSignals + if RemovalSignals(s.n, s.sh.inp, oldOut, s.c.out, pending) then 1 else 0;
    KeepRest(s, signals);
    ReadIn2Is(s, oldOut, pending, signals);
  }

  lemma ReadIn2Is(s: State, oldOut: u32, pending: u32, signals: nat)
    requires s.c.pc == CReadIn2(oldOut, pending) && ValidPointer(s.n, s.sh.inp)
    requires signals == s.h.removalSignals + if RemovalSignals(s.n, s.sh.inp, oldOut, s.c.out, pending) then 1 else 0
    ensures var t := Rest(AtConsumer(CacheIn(s), CReady));
      ReadIn2(s, oldOut, pending) == t.(h := t.h.(removalSignals := signals))
  {
  }

  // The end of a removal, given that a blocked producer was signalled or is still full.
  lemma KeepRest(s: State, signals: nat)
    requires Inv(s) && s.c.pc.CReadIn2? && s.h.removalSignals <= signals
    requires s.h.blocked.Some? && s.h.blocked.value == signals ==>
      StillFull(s.n, s.sh.pending, |s.h.stream|, s.h.bounds[s.h.committed], s.h.out)
    ensures var t := Rest(AtConsumer(CacheIn(s), CReady)); Inv(t.(h := t.h.(removalSignals := signals)))
  {
  }

  // ---- Every step keeps the invariant ----

  lemma KeepSend(s: State, k: Packet)
    requires Inv(s) && s.p.pc == PReady && Sendable(s.n, k)
    ensures Inv(AtProducer(s, if Fits(s, k) then PTail(k) else PReadOut1(k)))
  {
    StreamDistance(s.n, |s.h.stream|, s.h.outCache);
    if Fits(s, k) {
      assert Inv(AtProducer(s, PTail(k)));
    } else {
      assert Inv(AtProducer(s, PReadOut1(k)));
    }
  }

  lemma KeepReceive(s: State)
    requires Inv(s) && s.c.pc == CReady
    ensures Inv(AtConsumer(Awake(s), if s.c.inCache == s.c.off then CReadIn1 else CReadLength))
  {
    SlotInjective(s.n, s.h.bounds[|s.h.received|], s.h.bounds[s.h.cached]);
    if s.c.inCache == s.c.off {
      assert Inv(AtConsumer(Awake(s), CReadIn1));
    } else {
      assert Inv(AtConsumer(Awake(s), CReadLength));
    }
  }

  lemma KeepStepProducer(s: State)
    requires Inv(s) && Sane(s)
    ensures Inv(StepProducer(s))
  {
    match s.p.pc
    case PReady =>
    case PReadOut1(k) => KeepReadOut1(s, k);
    case PWritePending(k) => KeepWritePending(s, k);
    case PReadOut2(k) => KeepReadOut2(s, k);
    case PTail(k) => KeepWriteTail(s, k);
    case PTrailer(k) => KeepWriteTrailer(s, k);
    case PClear(k) => KeepClearPending(s, k);
    case PCopy1(k) => KeepCopy1(s, k);
    case PCopy2(k) => KeepCopy2(s, k);
    case PWriteIn => KeepWriteIn(s);
    case PReadMask(_) => KeepReadMask(s);
    case PReadOut3(oldIn, m) => KeepReadOut3(s, oldIn, m);
  }

  lemma KeepStepConsumer(s: State)
    requires Inv(s) && Sane(s)
    ensures Inv(StepConsumer(s))
  {
    match s.c.pc
    case CReady =>
    case CReadIn1 => KeepReadIn1(s);
    case CReadLength => KeepReadLength(s);
    case CTrailer(_) => KeepCheckTrailer(s);
    case CCopy1(_) => KeepCopyOut1(s);
    case CCopy2(_, _) => KeepCopyOut2(s);
    case CWriteOut => KeepWriteOut(s);
    case CReadPending(_) => KeepReadPending(s);
    case CReadIn2(oldOut, pending) => KeepReadIn2(s, oldOut, pending);
  }

  lemma KeepEntry(s: State, a: Action)
    requires Inv(s) && Sane(s) && Enabled(s, a) && (a.Commit? || a.Remove? || a.SetMask?)
    ensures Inv(Next(s, a))
  {
  }

  lemma KeepNext(s: State, a: Action)
    requires Inv(s)
    ensures Inv(Next(s, a))
  {
    InvSane(s);
    if Enabled(s, a) {
      match a
      case Send(k) => KeepSend(s, k);
      case Commit => KeepEntry(s, a);
      case ProducerStep => KeepStepProducer(s);
      case Receive => KeepReceive(s);
      case Remove => KeepEntry(s, a);
      case ConsumerStep => KeepStepConsumer(s);
      case SetMask(_) => KeepEntry(s, a);
    }
  }

  lemma InitialInv(ring: Ring)
    requires Usable(ring)
    ensures Inv(Initial(ring))
  {
    assert Slot(ring.n, ring.start) == ring.start;
  }

  lemma NextKeepsSize(s: State, a: Action)
    ensures Next(s, a).n == s.n
  {
  }

  lemma {:induction false} Reachable(ring: Ring, actions: seq<Action>)
    requires Usable(ring)
    ensures Inv(Run(ring, actions)) && Run(ring, actions).n == ring.n
  {
    if actions == [] {
      InitialInv(ring);
      assert Run(ring, actions) == Initial(ring);
    } else {
      var s, a := Run(ring, actions[..|actions| - 1]), actions[|actions| - 1];
      Reachable(ring, actions[..|actions| - 1]);
      KeepNext(s, a);
      NextKeepsSize(s, a);
      assert Run(ring, actions) == Next(s, a);
    }
  }

  // ---- Theorems over every interleaving ----

  // The packets received are, byte for byte, a prefix of the packets committed,
  // and neither endpoint ever takes the ring for corrupt.
  lemma {:induction false} Delivery(ring: Ring, actions: seq<Action>)
    requires Usable(ring)
    ensures var s := Run(ring, actions);
      && |s.h.received| <= s.h.committed <= |s.h.sent|
      && s.h.received == s.h.sent[..|s.h.received|]
      && !s.p.pc.PCorrupt? && !s.c.pc.CCorrupt?
  {
    Reachable(ring, actions);
  }

  // No step changes a byte that has been staged and not yet removed.
  lemma {:induction false} UnreadBytesKept(ring: Ring, actions: seq<Action>, a: Action, x: nat)
    requires Usable(ring)
    requires var s, t := Run(ring, actions), Run(ring, actions + [a]);
      t.h.out <= x < |s.h.stream| && |s.sh.data| == |t.sh.data| == ring.n
    ensures Run(ring, actions + [a]).sh.data[Slot(ring.n, x)] == Run(ring, actions).sh.data[Slot(ring.n, x)]
  {
    var s, t := Run(ring, actions), Run(ring, actions + [a]);
    assert (actions + [a])[..|actions|] == actions;
    Reachable(ring, actions);
    Reachable(ring, actions + [a]);
    InvSane(s);
    OnlyGrows(s, a);
    assert s.sh.data[Slot(ring.n, 0 + x)] == s.h.stream[x];
    assert t.sh.data[Slot(ring.n, 0 + x)] == t.h.stream[x];
  }

  // The stream only grows at its end, and Out only moves forward.
  lemma OnlyGrows(s: State, a: Action)
    requires Sane(s) && s.h.out <= s.h.bounds[|s.h.received|]
    ensures s.h.stream <= Next(s, a).h.stream && s.h.out <= Next(s, a).h.out
  {
    if a.ProducerStep? { ProducerGrows(s); }
    if a.ConsumerStep? { ConsumerGrows(s); }
  }

  lemma ProducerGrows(s: State)
    requires Sane(s)
    ensures s.h.stream <= StepProducer(s).h.stream && s.h.out == StepProducer(s).h.out
  {
  }

  lemma ConsumerGrows(s: State)
    requires Sane(s) && s.h.out <= s.h.bounds[|s.h.received|]
    ensures s.h.stream == StepConsumer(s).h.stream && s.h.out <= StepConsumer(s).h.out
  {
  }

  // No lost wake-up: an idle consumer that finds the ring non-empty has been
  // signalled since it went idle, or the insertion in progress is about to.
  lemma {:induction false} IdleConsumerIsSignalled(ring: Ring, actions: seq<Action>)
    requires Usable(ring)
    ensures var s := Run(ring, actions);
      s.h.asleep.Some? && s.sh.inp != s.sh.out ==>
        || s.h.insertionSignals > s.h.asleep.value
        || s.p.pc == PReadMask(s.sh.out) || s.p.pc == PReadOut3(s.sh.out, false)
  {
    Reachable(ring, actions);
  }

  // No stranded producer: take any run in which a send returned TOO_SMALL, and
  // any continuation that keeps its pending size published, commits what was
  // staged and empties the ring. Some removal of the continuation signalled.
  lemma {:induction false} BlockedProducerIsSignalled(ring: Ring, before: seq<Action>, after: seq<Action>)
    requires Usable(ring)
    requires var s0, s1 := Run(ring, before), Run(ring, before + [ProducerStep]);
      s0.p.pc.PReadOut2? && s1.p.pc.PReady?
    requires var s1, s2 := Run(ring, before + [ProducerStep]), Run(ring, before + [ProducerStep] + after);
      && s2.h.blocked == s1.h.blocked
      && s2.h.committed == |s2.h.sent| && s2.sh.inp == s2.sh.out
      && !s2.c.pc.CReadPending? && !s2.c.pc.CReadIn2?
    ensures Run(ring, before + [ProducerStep] + after).h.removalSignals >
            Run(ring, before + [ProducerStep]).h.removalSignals
  {
    var s0, s2 := Run(ring, before), Run(ring, before + [ProducerStep] + after);
    assert (before + [ProducerStep])[..|before|] == before;
    Reachable(ring, before);
    InvSane(s0);
    Reachable(ring, before + [ProducerStep] + after);
    SlotInjective(ring.n, s2.h.out, s2.h.bounds[s2.h.committed]);
  }

  // ---- When a signal is raised ----

  // The removal in progress made room for the pending size it read: the size fits
  // behind the committed bytes now, did not fit before Out moved, and the producer
  // has not gone past the old Out by more than the ring.
  ghost predicate MakesRoom(s: State)
    requires Pointers(s) && s.c.pc.CReadIn2?
  {
    var pending, committed := s.c.pc.pendingSeen, s.h.bounds[s.h.committed];
    && pending != 0 && committed < s.h.oldOut + s.n
    && s.n - 1 - (committed - s.h.out) >= pending > s.n - 1 - (committed - s.h.oldOut)
  }

  // The insertion in progress went into a ring that the consumer had emptied up to
  // exactly the old In, and the mask it read was clear.
  ghost predicate FillsEmpty(s: State)
    requires Pointers(s) && s.p.pc.PReadOut3? && OldIn(s, s.p.pc.oldIn)
  {
    s.h.bounds[s.h.oldCommitted] == s.h.out && !s.p.pc.maskSeen
  }

  // Once the producer is a ring past the old Out, the old Out shows more room.
  lemma OldOutAliased(n: u32, committed: nat, out: nat, oldOut: nat)
    requires 0 < n <= 0x8000_0000 && oldOut <= out < oldOut + n <= committed && out <= committed < out + n
    ensures FreeBytes(n, Slot(n, committed), Slot(n, oldOut)) > n - 1 - (committed - out)
  {
    Advance(n, oldOut, n);
    StreamDistance(n, committed, oldOut + n);
  }

  lemma RemovalSignalsExactly(s: State, oldOut: u32, pending: u32)
    requires Pointers(s) && ConsumerOk(s) && s.c.pc == CReadIn2(oldOut, pending)
    ensures ValidPointer(s.n, s.sh.inp)
    ensures RemovalSignals(s.n, s.sh.inp, oldOut, s.c.out, pending) <==> MakesRoom(s)
  {
    var committed := s.h.bounds[s.h.committed];
    AlignedSlot(s.n, committed);
    StreamDistance(s.n, committed, s.h.out);
    if committed < s.h.oldOut + s.n {
      StreamDistance(s.n, committed, s.h.oldOut);
    } else {
      OldOutAliased(s.n, committed, s.h.out, s.h.oldOut);
    }
  }

  lemma InsertionSignalsExactly(s: State, oldIn: u32, m: bool)
    requires Pointers(s) && ProducerOk(s) && s.p.pc == PReadOut3(oldIn, m)
    ensures ValidPointer(s.n, s.sh.out)
    ensures InsertionSignals(oldIn, s.sh.out, m) <==> FillsEmpty(s)
  {
    var old_ := s.h.bounds[s.h.oldCommitted];
    AlignedSlot(s.n, s.h.out);
    if old_ <= s.h.out { SlotInjective(s.n, old_, s.h.out); } else { SlotInjective(s.n, s.h.out, old_); }
  }

  // Over every run, a step raises a removal signal exactly if it ends a removal that
  // made room, and an insertion signal exactly if it ends an insertion into a ring
  // that was emptied up to it.
  lemma {:induction false} SignalsExactly(ring: Ring, actions: seq<Action>, a: Action)
    requires Usable(ring)
    ensures var s, t := Run(ring, actions), Run(ring, actions + [a]);
      && Inv(s)
      && t.h.removalSignals ==
         s.h.removalSignals + (if a.ConsumerStep? && s.c.pc.CReadIn2? && MakesRoom(s) then 1 else 0)
      && t.h.insertionSignals ==
         s.h.insertionSignals + (if a.ProducerStep? && s.p.pc.PReadOut3? && FillsEmpty(s) then 1 else 0)
  {
    var s := Run(ring, actions);
    assert (actions + [a])[..|actions|] == actions;
    Reachable(ring, actions);
    InvSane(s);
    if a.ConsumerStep? && s.c.pc.CReadIn2? {
      RemovalSignalsExactly(s, s.c.pc.oldOut, s.c.pc.pendingSeen);
    } else if a.ProducerStep? && s.p.pc.PReadOut3? {
      InsertionSignalsExactly(s, s.p.pc.oldIn, s.p.pc.maskSeen);
    } else {
      SignalsKept(s, a);
    }
  }

  lemma SignalsKept(s: State, a: Action)
    requires Sane(s) && !(a.ConsumerStep? && s.c.pc.CReadIn2?) && !(a.ProducerStep? && s.p.pc.PReadOut3?)
    ensures Next(s, a).h.removalSignals == s.h.removalSignals
    ensures Next(s, a).h.insertionSignals == s.h.insertionSignals
  {
  }
}
