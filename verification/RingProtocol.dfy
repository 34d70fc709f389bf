// The single-producer, single-consumer ring protocol of RingBuffer.c as a state
// machine. Every step performs at most one access to memory shared by the two
// endpoints, so a sequence of actions is an interleaving of the two programs.
module RingProtocol {
  import opened Common
  import opened RingArithmetic

  // ---- Memory layout ----

  // CopyMem into the data pages.
  function CopyAt(data: seq<Byte>, at: nat, bytes: seq<Byte>): (r: seq<Byte>)
    requires at + |bytes| <= |data|
    ensures |r| == |data|
    ensures forall i :: 0 <= i < |data| ==>
      r[i] == if at <= i < at + |bytes| then bytes[i - at] else data[i]
  {
    data[..at] + bytes + data[at + |bytes|..]
  }

  const Zero8: seq<Byte> := [0, 0, 0, 0, 0, 0, 0, 0]

  // PREVIOUS_PACKET_OFFSET: a zero 32-bit word, then the packet's ring offset.
  function Trailer(offset: u32): (r: seq<Byte>)
    ensures |r| == TRAILER
  {
    Zero8[..4] + LittleEndian(offset, |Zero8[..4]|)
  }

  function LittleEndian(v: nat, width: nat): (r: seq<Byte>)
    ensures |r| == width
  {
    if width == 0 then [] else [v % 256] + LittleEndian(v / 256, width - 1)
  }

  function FromLittleEndian(s: seq<Byte>): nat {
    if s == [] then 0 else (s[0] as int) + 256 * FromLittleEndian(s[1..])
  }

  function TrailerOffset(t: seq<Byte>): nat
    requires |t| == TRAILER
  {
    FromLittleEndian(t[4..])
  }

  lemma {:induction false} LittleEndianRoundTrip(v: nat, width: nat, bound: nat)
    requires v < bound && bound == Power256(width)
    ensures FromLittleEndian(LittleEndian(v, width)) == v
  {
    if width > 0 {
      LittleEndianRoundTrip(v / 256, width - 1, Power256(width - 1));
      assert LittleEndian(v, width)[1..] == LittleEndian(v / 256, width - 1);
    }
  }

  function Power256(width: nat): nat { if width == 0 then 1 else 256 * Power256(width - 1) }

  lemma TrailerRoundTrip(offset: u32)
    ensures TrailerOffset(Trailer(offset)) == offset
  {
    assert Power256(4) == U32;
    LittleEndianRoundTrip(offset, 4, U32);
    assert Trailer(offset)[4..] == LittleEndian(offset, 4);
  }

  // VMPACKET_DESCRIPTOR.Length8: bytes 4 and 5 of the packet.
  function Length8(lo: Byte, hi: Byte): (r: nat)
    ensures r <= 65535
  { (lo as int) + 256 * (hi as int) }

  // What a caller can pass to PkGetSendBuffer; sizes do not wrap.
  type Packet = p: seq<Byte> | 0 < |p| < 0x8000_0000 witness [0]

  function PacketSize(packet: Packet): u32 { AlignUp8(|packet|) }

  function Total(packet: Packet): u32 { PacketSize(packet) + TRAILER }

  // A packet length as the receiver reads it: eight times a 16-bit field.
  type Length = x: int | 0 <= x <= 8 * 65535

  // The packet as the receiver sees it: zero-filled to a multiple of eight.
  function Padded(packet: Packet): (r: seq<Byte>)
    ensures |r| == PacketSize(packet)
  {
    packet + Zero8[..PacketSize(packet) - |packet|]
  }

  const DESCRIPTOR: nat := 16 // sizeof (VMPACKET_DESCRIPTOR)

  predicate WellFormedFrame(p: seq<Byte>) {
    Aligned(|p|) && DESCRIPTOR <= |p| < 0x8000_0000 && 8 * Length8(p[4], p[5]) == |p|
  }

  // What a sender must supply: a descriptor whose Length8 states the aligned
  // size, and a packet smaller than the ring.
  predicate Sendable(n: u32, packet: Packet) {
    PacketSize(packet) < n && WellFormedFrame(Padded(packet))
  }

  // The length of the first CopyMem of PkWritePacketSingleMapped.
  function FirstChunk(n: u32, off: u32, size: nat): (r: nat)
    requires off <= n
  {
    if AlignUp8(size) <= n - off then size else n - off
  }

  function PendingSize(n: u32, off: u32, inp: u32, total: u32): (r: u32)
    requires n > 0
  {
    var pending := Add32(DataAvailable(n, off, inp), total);
    if pending >= n then n - 1 else pending
  }

  // ---- States ----

  datatype Shared = Shared(inp: u32, out: u32, masked: bool, pending: u32, data: seq<Byte>)

  datatype ProducerPc =
    | PReady
    | PReadOut1(packet: Packet)
    | PWritePending(packet: Packet)
    | PReadOut2(packet: Packet)
    | PTail(packet: Packet)
    | PTrailer(packet: Packet)
    | PClear(packet: Packet)
    | PCopy1(packet: Packet)
    | PCopy2(packet: Packet)
    | PWriteIn
    | PReadMask(oldIn: u32)
    | PReadOut3(oldIn: u32, maskSeen: bool)
    | PCorrupt

  // inp: OutgoingIn; off: the caller's staged offset; outCache: OutgoingOutCache.
  datatype Producer = Producer(pc: ProducerPc, inp: u32, off: u32, outCache: u32, pending: u32)

  datatype ConsumerPc =
    | CReady
    | CReadIn1
    | CReadLength
    | CTrailer(len: Length)
    | CCopy1(len: Length)
    | CCopy2(len: Length, buf: seq<Byte>)
    | CWriteOut
    | CReadPending(oldOut: u32)
    | CReadIn2(oldOut: u32, pendingSeen: u32)
    | CCorrupt

  // out: IncomingOut; off: the caller's read offset; inCache: IncomingInCache.
  datatype Consumer = Consumer(pc: ConsumerPc, out: u32, off: u32, inCache: u32)

  // What has happened so far, in unbounded stream positions. Frame j of the
  // stream (a padded packet and its trailer) occupies bounds[j]..bounds[j + 1].
  datatype History = History(
    sent: seq<seq<Byte>>,     // padded packets staged, in order
    bounds: seq<nat>,
    stream: seq<Byte>,
    committed: nat,           // packets whose insertion is complete
    oldCommitted: nat,        // and how many there were before the last insertion
    received: seq<seq<Byte>>, // packets the consumer copied out
    cached: nat,              // packets known to the consumer
    out: nat,                 // stream position of the public Out
    oldOut: nat,              // and of the value it had before the last removal
    outCache: nat,            // stream position of the producer's cached Out
    insertionSignals: nat,    // insertions that returned SIGNAL
    removalSignals: nat,      // removals that returned SIGNAL
    asleep: Option<nat>,      // insertionSignals when the consumer went idle
    blocked: Option<nat>)     // removalSignals when a send returned TOO_SMALL

  datatype State = State(n: u32, sh: Shared, p: Producer, c: Consumer, h: History)

  datatype Action =
    | Send(packet: Packet) // enter PkGetSendBuffer
    | Commit                  // enter PkCompleteInsertion with the staged offset
    | ProducerStep
    | Receive                 // enter PkGetReceiveBuffer
    | Remove                  // enter PkCompleteRemoval with the read offset
    | ConsumerStep
    | SetMask(masked: bool)   // the consumer writes InterruptMask

  // A ring as PkpInitRingBufferControl may find it: any size, any data, In and Out
  // at the same place.
  datatype Ring = Ring(n: u32, start: u32, masked: bool, data: seq<Byte>)

  predicate Usable(ring: Ring) {
    RingSize(ring.n) && ValidPointer(ring.n, ring.start) && |ring.data| == ring.n
  }

  // The first state. Its stream is as long as the ring's bytes before the start,
  // none of which are ever read.
  function Initial(ring: Ring): State {
    var at := ring.start;
    State(ring.n, Shared(at, at, ring.masked, 0, ring.data),
          Producer(PReady, at, at, at, 0), Consumer(CReady, at, at, at),
          History([], [at], seq(at, i => 0), 0, 0, [], 0, at, at, at, 0, 0, None, None))
  }

  // ---- Producer ----

  function AtProducer(s: State, pc: ProducerPc): State { s.(p := s.p.(pc := pc)) }

  function CacheOut(s: State): State {
    s.(p := s.p.(outCache := s.sh.out), h := s.h.(outCache := s.h.out))
  }

  predicate Fits(s: State, packet: Packet) {
    FreeBytes(s.n, s.p.off, s.p.outCache) >= Total(packet)
  }

  function WriteData(s: State, at: nat, bytes: seq<Byte>): State {
    if at + |bytes| <= |s.sh.data| then s.(sh := s.sh.(data := CopyAt(s.sh.data, at, bytes))) else s
  }

  function Frame(off: u32, packet: Packet): seq<Byte> {
    Padded(packet) + Trailer(off)
  }

  // The frame is complete: PkGetSendBuffer's new offset takes effect.
  function Stage(s: State, packet: Packet): State
    requires |s.h.bounds| > 0
  {
    var total := Total(packet);
    var end := s.h.bounds[|s.h.bounds| - 1] + total;
    s.(p := s.p.(pc := PReady, off := ModuloReduce(Add32(s.p.off, total), s.n)),
       h := s.h.(sent := s.h.sent + [Padded(packet)], bounds := s.h.bounds + [end],
                 stream := s.h.stream + Frame(s.p.off, packet)))
  }

  function ReadOut1(s: State, packet: Packet): State {
    var s1 := CacheOut(s);
    if !ValidPointer(s.n, s.sh.out) then AtProducer(s, PCorrupt)
    else if Fits(s1, packet) then AtProducer(s1, PTail(packet))
    else if Total(packet) >= s.n then AtProducer(s1, PReady) // EFI_INVALID_PARAMETER
    else AtProducer(s1, PWritePending(packet))
  }

  function WritePending(s: State, packet: Packet): State
    requires s.n > 0
  {
    var total := Total(packet);
    s.(sh := s.sh.(pending := PendingSize(s.n, s.p.off, s.p.inp, total)),
       p := s.p.(pc := PReadOut2(packet), pending := Sub32(total, TRAILER)),
       h := s.h.(blocked := None))
  }

  function ReadOut2(s: State, packet: Packet): State {
    var s1 := CacheOut(s);
    if !ValidPointer(s.n, s.sh.out) then AtProducer(s, PCorrupt)
    else if Fits(s1, packet) then AtProducer(s1, PTail(packet))
    else AtProducer(s1, PReady).(h := s1.h.(blocked := Some(s.h.removalSignals))) // EFI_BUFFER_TOO_SMALL
  }

  function WriteTail(s: State, packet: Packet): State {
    var at := ModuloReduce(Add32(s.p.off, PacketSize(packet) - 8), s.n);
    AtProducer(WriteData(s, at, Zero8), PTrailer(packet))
  }

  function WriteTrailer(s: State, packet: Packet): State {
    var at := ModuloReduce(Add32(s.p.off, PacketSize(packet)), s.n);
    AtProducer(WriteData(s, at, Trailer(s.p.off)), if s.p.pending != 0 then PClear(packet) else PCopy1(packet))
  }

  function ClearPending(s: State, packet: Packet): State {
    s.(sh := s.sh.(pending := 0), p := s.p.(pc := PCopy1(packet), pending := 0), h := s.h.(blocked := None))
  }

  function Copy1(s: State, packet: Packet): State
    requires s.p.off < s.n && |s.h.bounds| > 0
  {
    var chunk := FirstChunk(s.n, s.p.off, |packet|);
    if chunk < |packet| then AtProducer(WriteData(s, s.p.off, packet[..chunk]), PCopy2(packet))
    else Stage(WriteData(s, s.p.off, packet), packet)
  }

  function Copy2(s: State, packet: Packet): State
    requires s.p.off < s.n && |s.h.bounds| > 0
  {
    var chunk := FirstChunk(s.n, s.p.off, |packet|);
    if chunk < |packet| then Stage(WriteData(s, 0, packet[chunk..]), packet) else AtProducer(s, PCorrupt)
  }

  function WriteIn(s: State): State {
    s.(p := s.p.(pc := PReadMask(s.p.inp), inp := s.p.off), sh := s.sh.(inp := s.p.off),
       h := s.h.(oldCommitted := s.h.committed, committed := |s.h.sent|))
  }

  predicate InsertionSignals(oldIn: u32, out: u32, masked: bool) { oldIn == out && !masked }

  function ReadOut3(s: State, oldIn: u32, maskSeen: bool): State {
    if !ValidPointer(s.n, s.sh.out) then AtProducer(s, PCorrupt)
    else
      var s1 := AtProducer(CacheOut(s), PReady);
      if InsertionSignals(oldIn, s.sh.out, maskSeen)
      then s1.(h := s1.h.(insertionSignals := s1.h.insertionSignals + 1))
      else s1
  }

  function StepProducer(s: State): State
    requires s.p.off < s.n && |s.h.bounds| > 0
  {
    match s.p.pc
    case PReadOut1(k) => ReadOut1(s, k)
    case PWritePending(k) => WritePending(s, k)
    case PReadOut2(k) => ReadOut2(s, k)
    case PTail(k) => WriteTail(s, k)
    case PTrailer(k) => WriteTrailer(s, k)
    case PClear(k) => ClearPending(s, k)
    case PCopy1(k) => Copy1(s, k)
    case PCopy2(k) => Copy2(s, k)
    case PWriteIn => WriteIn(s)
    case PReadMask(oldIn) => AtProducer(s, PReadOut3(oldIn, s.sh.masked))
    case PReadOut3(oldIn, m) => ReadOut3(s, oldIn, m)
    case _ => s
  }

  // ---- Consumer ----

  function AtConsumer(s: State, pc: ConsumerPc): State { s.(c := s.c.(pc := pc)) }

  function CacheIn(s: State): State {
    s.(c := s.c.(inCache := s.sh.inp), h := s.h.(cached := s.h.committed))
  }

  // The consumer has read In equal to its published Out and waits for a signal.
  function Rest(s: State): State {
    s.(h := s.h.(asleep := if s.c.off == s.c.out == s.sh.inp && !s.sh.masked then Some(s.h.insertionSignals) else None))
  }

  function ReadIn1(s: State): State {
    var s1 := CacheIn(s);
    if !ValidPointer(s.n, s.sh.inp) then AtConsumer(s, CCorrupt)
    else if s.sh.inp == s.c.off then Rest(AtConsumer(s1, CReady)) // EFI_END_OF_FILE
    else AtConsumer(s1, CReadLength)
  }

  function ReadLength(s: State): State {
    if s.c.off + 5 >= |s.sh.data| then AtConsumer(s, CCorrupt) else
    var len := 8 * Length8(s.sh.data[s.c.off + 4], s.sh.data[s.c.off + 5]);
    if len < DESCRIPTOR || len + TRAILER > DataAvailable(s.n, s.c.inCache, s.c.off)
    then AtConsumer(s, CCorrupt)
    else AtConsumer(s, CTrailer(len))
  }

  // The trailer check of checked builds.
  function CheckTrailer(s: State, len: Length): State {
    var at := ModuloReduce(Add32(s.c.off, len), s.n);
    if at + TRAILER > |s.sh.data| || TrailerOffset(s.sh.data[at..at + TRAILER]) != s.c.off
    then AtConsumer(s, CCorrupt)
    else AtConsumer(s, CCopy1(len))
  }

  function Deliver(s: State, len: Length, bytes: seq<Byte>): State {
    s.(c := s.c.(pc := CReady, off := ModuloReduce(Add32(s.c.off, len + TRAILER), s.n)),
       h := s.h.(received := s.h.received + [bytes]))
  }

  function CopyOut1(s: State, len: Length): State
    requires s.c.off < |s.sh.data|
  {
    if s.c.off + len <= |s.sh.data| then Deliver(s, len, s.sh.data[s.c.off..s.c.off + len])
    else AtConsumer(s, CCopy2(len, s.sh.data[s.c.off..]))
  }

  function CopyOut2(s: State, len: Length, buf: seq<Byte>): State {
    if 0 <= len - |buf| <= |s.sh.data| then Deliver(s, len, buf + s.sh.data[..len - |buf|])
    else AtConsumer(s, CCorrupt)
  }

  function WriteOut(s: State): State
    requires |s.h.received| < |s.h.bounds|
  {
    s.(c := s.c.(pc := CReadPending(s.c.out), out := s.c.off), sh := s.sh.(out := s.c.off),
       h := s.h.(oldOut := s.h.out, out := s.h.bounds[|s.h.received|]))
  }

  predicate RemovalSignals(n: u32, inp: u32, oldOut: u32, newOut: u32, pending: u32) {
    pending != 0 && FreeBytes(n, inp, newOut) >= pending && FreeBytes(n, inp, oldOut) < pending
  }

  function ReadIn2(s: State, oldOut: u32, pending: u32): State {
    if !ValidPointer(s.n, s.sh.inp) then AtConsumer(s, CCorrupt)
    else
      var s1 := Rest(AtConsumer(CacheIn(s), CReady));
      if RemovalSignals(s.n, s.sh.inp, oldOut, s.c.out, pending)
      then s1.(h := s1.h.(removalSignals := s1.h.removalSignals + 1))
      else s1
  }

  function StepConsumer(s: State): State
    requires s.c.off < |s.sh.data| && |s.h.received| < |s.h.bounds|
  {
    match s.c.pc
    case CReadIn1 => ReadIn1(s)
    case CReadLength => ReadLength(s)
    case CTrailer(len) => CheckTrailer(s, len)
    case CCopy1(len) => CopyOut1(s, len)
    case CCopy2(len, buf) => CopyOut2(s, len, buf)
    case CWriteOut => WriteOut(s)
    case CReadPending(oldOut) => AtConsumer(s, CReadIn2(oldOut, s.sh.pending))
    case CReadIn2(oldOut, pending) => ReadIn2(s, oldOut, pending)
    case _ => s
  }

  // ---- Runs ----

  function Awake(s: State): State { s.(h := s.h.(asleep := None)) }

  predicate Enabled(s: State, a: Action) {
    match a
    case Send(packet) => s.p.pc.PReady? && Sendable(s.n, packet)
    case Commit => s.p.pc.PReady?
    case Receive => s.c.pc.CReady?
    case Remove => s.c.pc.CReady?
    case SetMask(_) => s.c.pc.CReady?
    case _ => true
  }

  predicate Sane(s: State) {
    s.p.off < s.n == |s.sh.data| && s.c.off < s.n && |s.h.received| < |s.h.bounds|
  }

  // An action that is not enabled leaves the state alone.
  function Next(s: State, a: Action): State {
    if !Sane(s) || !Enabled(s, a) then s else
    match a
    case Send(packet) => AtProducer(s, if Fits(s, packet) then PTail(packet) else PReadOut1(packet))
    case Commit => AtProducer(s, PWriteIn)
    case ProducerStep => StepProducer(s)
    case Receive => AtConsumer(Awake(s), if s.c.inCache == s.c.off then CReadIn1 else CReadLength)
    case Remove => AtConsumer(Awake(s), CWriteOut)
    case ConsumerStep => StepConsumer(s)
    case SetMask(m) => Awake(s).(sh := s.sh.(masked := m))
  }

  // The state an interleaving leads to from a freshly initialised ring.
  function Run(ring: Ring, actions: seq<Action>): State {
    if actions == [] then Initial(ring)
    else Next(Run(ring, actions[..|actions| - 1]), actions[|actions| - 1])
  }
}
