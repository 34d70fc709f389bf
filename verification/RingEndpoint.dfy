// One endpoint of the ring as code that updates its own context, against an
// opposite endpoint that may store anything in shared memory at any time.
module RingEndpoint {
  import opened Common
  import opened RingArithmetic
  import opened RingProtocol

  datatype Status = Success | Signal | NewlyEmpty | EndOfFile | BufferTooSmall | InvalidParameter | Corrupt

  // A control word read from shared memory: whatever the opposite endpoint stored.
  method Fetch() returns (v: u32)
  {
    v := *;
  }

  // CopyMem into a ring's data pages.
  method CopyMem(a: array<Byte>, at: nat, bytes: seq<Byte>)
    requires at + |bytes| <= a.Length
    modifies a
    ensures a[..] == CopyAt(old(a[..]), at, bytes)
  {
    forall i | 0 <= i < |bytes| { a[at + i] := bytes[i]; }
  }

  // The data pages with a packet laid out from ring offset start on.
  function RingWrite(data: seq<Byte>, start: nat, packet: seq<Byte>): (r: seq<Byte>)
    requires start < |data| < U32 && |packet| <= |data|
    ensures |r| == |data|
    ensures forall i :: 0 <= i < |data| ==>
      r[i] == var d := Distance(|data|, i, start); if d < |packet| then packet[d] else data[i]
  {
    seq(|data|, i requires 0 <= i < |data| =>
      var d := Distance(|data|, i, start); if d < |packet| then packet[d] else data[i])
  }

  lemma ReduceOnce(n: u32, x: u32)
    requires n > 0 && x < 2 * n
    ensures ModuloReduce(x, n) == Slot(n, x)
  {
    if x >= n { assert Slot(n, x) == Slot(n, x - n); }
  }

  // Where the packet reaches the end of the ring, it reaches past it.
  lemma FoldPoint(n: u32, in_: u32, size: nat)
    requires RingSize(n) && ValidPointer(n, in_) && AlignUp8(size) > n - in_
    ensures n - in_ < size
  {
    AlignedSum(in_, n - in_);
    AlignedRoom(AlignUp8(size), n - in_);
  }

  lemma FoldedWrite(data: seq<Byte>, in_: nat, packet: seq<Byte>)
    requires in_ < |data| < U32 && |data| - in_ < |packet| <= |data|
    ensures var end := |data| - in_;
      CopyAt(CopyAt(data, in_, packet[..end]), 0, packet[end..]) == RingWrite(data, in_, packet)
  {
  }

  // The fields of PACKET_LIB_CONTEXT, with the control words this endpoint
  // publishes; the rings' data pages are the two arrays.
  class PacketContext {
    const outgoing: array<Byte>
    const incoming: array<Byte>
    var outgoingIn: u32
    var outgoingOutCache: u32
    var pendingSendSize: u32
    var incomingInCache: u32
    var incomingOut: u32
    var publishedIn: u32
    var publishedPending: u32
    var publishedOut: u32

    ghost predicate Valid()
      reads this
    {
      && outgoing.Length < U32 && incoming.Length < U32
      && RingSize(outgoing.Length) && RingSize(incoming.Length)
      && ValidPointer(outgoing.Length, outgoingIn)
      && ValidPointer(outgoing.Length, outgoingOutCache)
      && ValidPointer(incoming.Length, incomingInCache)
      && ValidPointer(incoming.Length, incomingOut)
      && (pendingSendSize == 0 ==> publishedPending == 0)
    }

    constructor (outgoing: array<Byte>, incoming: array<Byte>)
      requires outgoing.Length < U32 && RingSize(outgoing.Length)
      requires incoming.Length < U32 && RingSize(incoming.Length)
      ensures Valid() && this.outgoing == outgoing && this.incoming == incoming
    {
      this.outgoing, this.incoming := outgoing, incoming;
      outgoingIn, outgoingOutCache, incomingInCache, incomingOut := 0, 0, 0, 0;
      pendingSendSize, publishedIn, publishedPending, publishedOut := 0, 0, 0, 0;
    }

    // PkpInitRingBufferControl: adopts the four public pointers it read, or
    // rejects the ring if one of them is not valid.
    method InitRingBufferControl() returns (status: Status, in1: u32, out1: u32, in2: u32, out2: u32)
      requires Valid()
      modifies this
      ensures Valid()
      ensures var valid := ValidPointer(incoming.Length, in1) && ValidPointer(incoming.Length, out1) &&
                           ValidPointer(outgoing.Length, in2) && ValidPointer(outgoing.Length, out2);
        status == if valid then Success else Corrupt
      ensures status.Success? ==>
        && incomingInCache == in1 && incomingOut == out1 && outgoingIn == in2 && outgoingOutCache == out2
        && publishedPending == 0
      ensures status.Corrupt? ==> unchanged(this)
    {
      in1 := Fetch();
      out1 := Fetch();
      in2 := Fetch();
      out2 := Fetch();
      if !ValidPointer(incoming.Length, in1) || !ValidPointer(incoming.Length, out1) ||
         !ValidPointer(outgoing.Length, in2) || !ValidPointer(outgoing.Length, out2) {
        return Corrupt, in1, out1, in2, out2;
      }
      incomingInCache, incomingOut := in1, out1;
      outgoingIn, outgoingOutCache := in2, out2;
      publishedPending := 0;
      status := Success;
    }

    // PkpCheckSendBufferFreeBytes. Success means the frame fits before the cached
    // Out; TOO_SMALL means it does not, even after the pending size was published.
    // out is the last Out it read.
    method CheckSendBufferFreeBytes(total: u32, in_: u32) returns (status: Status, out: u32)
      requires Valid() && ValidPointer(outgoing.Length, in_) && TRAILER < total
      modifies this`outgoingOutCache, this`pendingSendSize, this`publishedPending
      ensures Valid() && status in {Success, Corrupt, InvalidParameter, BufferTooSmall}
      ensures total <= FreeBytes(outgoing.Length, in_, old(outgoingOutCache)) ==> status.Success? && unchanged(this)
      ensures total > FreeBytes(outgoing.Length, in_, old(outgoingOutCache)) ==>
        && (status.Corrupt? <==> !ValidPointer(outgoing.Length, out))
        && (!status.Corrupt? ==> outgoingOutCache == out)
      ensures status.Success? ==> total <= FreeBytes(outgoing.Length, in_, outgoingOutCache)
      ensures status.BufferTooSmall? ==>
        && FreeBytes(outgoing.Length, in_, outgoingOutCache) < total < outgoing.Length
        && publishedPending == PendingSize(outgoing.Length, in_, outgoingIn, total)
        && pendingSendSize == total - TRAILER
      ensures status.InvalidParameter? ==> outgoing.Length <= total
    {
      var n: u32 := outgoing.Length;
      out := 0;
      if FreeBytes(n, in_, outgoingOutCache) < total {
        out := Fetch();
        if !ValidPointer(n, out) { return Corrupt, out; }
        outgoingOutCache := out;
        if FreeBytes(n, in_, out) < total {
          if total >= n { return InvalidParameter, out; }
          publishedPending := PendingSize(n, in_, outgoingIn, total);
          pendingSendSize := total - TRAILER;
          out := Fetch();
          if !ValidPointer(n, out) { return Corrupt, out; }
          outgoingOutCache := out;
          if FreeBytes(n, in_, out) < total { return BufferTooSmall, out; }
        }
      }
      return Success, out;
    }

    // PkGetSendBuffer. On success the frame of the packet lies in free space and
    // only its last word and its trailer have been written.
    method GetSendBuffer(offset: u32, size: u32) returns (status: Status, newOffset: u32)
      requires Valid() && ValidPointer(outgoing.Length, offset) && 0 < size && AlignUp8(size) < outgoing.Length
      modifies this`outgoingOutCache, this`pendingSendSize, this`publishedPending, outgoing
      ensures Valid() && status in {Success, Corrupt, InvalidParameter, BufferTooSmall}
      ensures AlignUp8(size) + TRAILER <= FreeBytes(outgoing.Length, offset, old(outgoingOutCache)) ==> status.Success?
      ensures status.InvalidParameter? ==> outgoing.Length <= AlignUp8(size) + TRAILER
      ensures status.BufferTooSmall? ==>
        && FreeBytes(outgoing.Length, offset, outgoingOutCache) < AlignUp8(size) + TRAILER < outgoing.Length
        && publishedPending == PendingSize(outgoing.Length, offset, outgoingIn, AlignUp8(size) + TRAILER)
      ensures !status.Success? ==> newOffset == offset && outgoing[..] == old(outgoing[..])
      ensures status.Success? ==>
        && AlignUp8(size) + TRAILER <= FreeBytes(outgoing.Length, offset, outgoingOutCache)
        && newOffset == Slot(outgoing.Length, offset + AlignUp8(size) + TRAILER)
        && ValidPointer(outgoing.Length, newOffset)
        && pendingSendSize == publishedPending == 0
      ensures status.Success? ==>
        var n, packet := outgoing.Length, AlignUp8(size);
        && ModuloReduce(offset + packet - 8, n) + 8 <= n && ModuloReduce(offset + packet, n) + 8 <= n
        && outgoing[..] == CopyAt(CopyAt(old(outgoing[..]), ModuloReduce(offset + packet - 8, n), Zero8),
                                  ModuloReduce(offset + packet, n), Trailer(offset))
    {
      var n: u32 := outgoing.Length;
      newOffset := offset;
      var packet: u32 := AlignUp8(size);
      var total := packet + TRAILER;
      var out;
      status, out := CheckSendBufferFreeBytes(total, offset);
      if !status.Success? { return; }
      AvailablePlusFree(n, offset, outgoingOutCache);
      FrameWords(n, offset, packet);
      WriteFrameEnd(offset, packet);
      if pendingSendSize != 0 {
        pendingSendSize := 0;
        publishedPending := 0;
      }
      newOffset := ModuloReduce(offset + total, n);
    }

    // Zeroes the last word of the packet and writes its trailer.
    method WriteFrameEnd(offset: u32, packet: u32)
      requires offset + packet < U32 && 8 <= packet && outgoing.Length < U32 && outgoing.Length > 0
      requires var n := outgoing.Length;
        ModuloReduce(offset + packet - 8, n) + 8 <= n && ModuloReduce(offset + packet, n) + 8 <= n
      modifies outgoing
      ensures var n := outgoing.Length;
        outgoing[..] == CopyAt(CopyAt(old(outgoing[..]), ModuloReduce(offset + packet - 8, n), Zero8),
                               ModuloReduce(offset + packet, n), Trailer(offset))
    {
      var n: u32 := outgoing.Length;
      CopyMem(outgoing, ModuloReduce(offset + packet - 8, n), Zero8);
      CopyMem(outgoing, ModuloReduce(offset + packet, n), Trailer(offset));
    }

    // PkWritePacketSingleMapped, folding around the end of the ring.
    method WritePacketSingleMapped(packet: seq<Byte>, offset: u32)
      requires Valid() && offset < 2 * outgoing.Length && Aligned(offset) && AlignUp8(|packet|) <= outgoing.Length
      modifies outgoing
      ensures outgoing[..] == RingWrite(old(outgoing[..]), Slot(outgoing.Length, offset), packet)
    {
      var n: u32 := outgoing.Length;
      var in_ := ModuloReduce(offset, n);
      ReduceOnce(n, offset);
      AlignedSlot(n, offset);
      var end := n - in_;
      if AlignUp8(|packet|) <= end {
        CopyMem(outgoing, in_, packet);
      } else {
        FoldPoint(n, in_, |packet|);
        FoldedWrite(outgoing[..], in_, packet);
        CopyMem(outgoing, in_, packet[..end]);
        CopyMem(outgoing, 0, packet[end..]);
      }
    }

    // PkCompleteInsertion, with the control words it happened to read.
    method CompleteInsertion(newIn: u32) returns (status: Status, mask: u32, out: u32)
      requires Valid() && ValidPointer(outgoing.Length, newIn)
      modifies this`outgoingIn, this`outgoingOutCache, this`publishedIn
      ensures Valid() && outgoingIn == publishedIn == newIn
      ensures status == if !ValidPointer(outgoing.Length, out) then Corrupt
                        else if old(outgoingIn) == out && mask == 0 then Signal else Success
      ensures outgoingOutCache == if status.Corrupt? then old(outgoingOutCache) else out
    {
      var oldIn := outgoingIn;
      outgoingIn := newIn;
      publishedIn := newIn;
      mask := Fetch();
      out := Fetch();
      if !ValidPointer(outgoing.Length, out) { return Corrupt, mask, out; }
      outgoingOutCache := out;
      status := if oldIn == out && mask == 0 then Signal else Success;
    }

    // PkGetReceiveBuffer. A packet it returns lies, with its trailer, within the
    // bytes between the caller's offset and the captured In. in_ and header are
    // the words it read; it reads In only when the cached In is used up.
    method GetReceiveBuffer(offset: u32) returns (status: Status, newOffset: u32, length: u32, in_: u32, header: u32)
      requires Valid() && ValidPointer(incoming.Length, offset)
      modifies this`incomingInCache
      ensures Valid() && status in {Success, EndOfFile, Corrupt}
      ensures incomingInCache ==
              if old(incomingInCache) == offset && ValidPointer(incoming.Length, in_) then in_ else old(incomingInCache)
      ensures old(incomingInCache) == offset && !ValidPointer(incoming.Length, in_) ==> status.Corrupt?
      ensures old(incomingInCache) == offset && ValidPointer(incoming.Length, in_) ==>
        (status.EndOfFile? <==> in_ == offset)
      ensures incomingInCache != offset ==>
        && length == 8 * (header % 65536)
        && (status.Success? <==>
            DESCRIPTOR <= length && length + TRAILER <= DataAvailable(incoming.Length, incomingInCache, offset))
      ensures !status.Success? ==> newOffset == offset
      ensures status.Success? ==>
        && incomingInCache != offset && Aligned(length)
        && newOffset == Slot(incoming.Length, offset + length + TRAILER)
        && ValidPointer(incoming.Length, newOffset)
    {
      var n: u32 := incoming.Length;
      newOffset, length, in_, header := offset, 0, 0, 0;
      if incomingInCache == offset {
        in_ := Fetch();
        if !ValidPointer(n, in_) { status := Corrupt; return; }
        incomingInCache := in_;
        if in_ == offset { status := EndOfFile; return; }
      }
      AvailablePlusFree(n, incomingInCache, offset);
      header := Fetch();
      length := 8 * (header % 65536); // Length8 is a 16-bit field
      if length < DESCRIPTOR || length + TRAILER > DataAvailable(n, incomingInCache, offset) {
        status := Corrupt;
        return;
      }
      AlignedMeans(length);
      AlignedSum(offset, length + TRAILER);
      AlignedSum(length, TRAILER);
      AlignedSlot(n, offset + length + TRAILER);
      newOffset := ModuloReduce(offset + length + TRAILER, n);
      status := Success;
    }

    // PkReadPacketSingleMapped: the packet's bytes in ring order.
    method ReadPacketSingleMapped(size: u32, out: u32) returns (packet: seq<Byte>)
      requires Valid() && out < 2 * incoming.Length && size <= incoming.Length
      ensures |packet| == size
      ensures forall i :: 0 <= i < size ==> packet[i] == incoming[Slot(incoming.Length, out + i)]
    {
      var n: u32 := incoming.Length;
      var start := ModuloReduce(out, n);
      var end := n - start;
      if size <= end {
        packet := incoming[start..start + size];
      } else {
        packet := incoming[start..] + incoming[..size - end];
      }
      forall i | 0 <= i < size ensures packet[i] == incoming[Slot(n, out + i)] {
        Advance(n, out, i);
      }
    }

    // PkCompleteRemoval, with the control words it happened to read.
    method CompleteRemoval(newOut: u32) returns (status: Status, pending: u32, in_: u32)
      requires Valid() && ValidPointer(incoming.Length, newOut)
      modifies this`incomingOut, this`incomingInCache, this`publishedOut
      ensures Valid() && incomingOut == publishedOut == newOut
      ensures status in {Corrupt, Signal, NewlyEmpty, Success}
      ensures status.Corrupt? <==> !ValidPointer(incoming.Length, in_)
      ensures !status.Corrupt? ==>
        (status.Signal? <==> var n := incoming.Length;
           pending != 0 && n - 1 - Distance(n, in_, newOut) >= pending > n - 1 - Distance(n, in_, old(incomingOut)))
      ensures !status.Corrupt? && !status.Signal? ==> (status.NewlyEmpty? <==> newOut == in_)
      ensures incomingInCache == if status.Corrupt? then old(incomingInCache) else in_
    {
      var n: u32 := incoming.Length;
      var oldOut := incomingOut;
      incomingOut := newOut;
      publishedOut := newOut;
      pending := Fetch();
      in_ := Fetch();
      if !ValidPointer(n, in_) { return Corrupt, pending, in_; }
      incomingInCache := in_;
      AvailablePlusFree(n, in_, oldOut);
      AvailablePlusFree(n, in_, newOut);
      if pending != 0 {
        var oldFree := FreeBytes(n, in_, oldOut);
        var newFree := FreeBytes(n, in_, newOut);
        if newFree >= pending && oldFree < pending { return Signal, pending, in_; }
      }
      status := if newOut == in_ then NewlyEmpty else Success;
    }
  }

  // The words a frame's tail and trailer occupy are inside the ring.
  lemma FrameWords(n: u32, offset: u32, packet: u32)
    requires RingSize(n) && ValidPointer(n, offset) && Aligned(packet) && 8 <= packet < n
    ensures ModuloReduce(offset + packet - 8, n) + 8 <= n && ModuloReduce(offset + packet, n) + 8 <= n
    ensures packet + TRAILER < n ==>
      ModuloReduce(offset + packet + TRAILER, n) == Slot(n, offset + packet + TRAILER) &&
      ValidPointer(n, Slot(n, offset + packet + TRAILER))
  {
    Advance(n, offset, packet - 8);
    Advance(n, offset, packet);
    AlignedSum(offset, packet);
    AlignedSum(8, offset + packet - 8);
    AlignedSum(offset + packet, TRAILER);
    AlignedSlot(n, offset + packet - 8);
    AlignedSlot(n, offset + packet);
    AlignedSlot(n, offset + packet + TRAILER);
    AlignedRoom(n, Slot(n, offset + packet - 8));
    AlignedRoom(n, Slot(n, offset + packet));
    if packet + TRAILER < n { Advance(n, offset, packet + TRAILER); }
  }
}
