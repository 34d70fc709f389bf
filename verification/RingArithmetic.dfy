// Pointer arithmetic of the VMBus ring (RingBuffer.c): every operation works on
// 32-bit unsigned values and wraps modulo 2^32.
module RingArithmetic {

  const U32: nat := 0x1_0000_0000

  // A 32-bit unsigned value.
  type u32 = x: int | 0 <= x < 0x1_0000_0000

  // The size of the PREVIOUS_PACKET_OFFSET trailer behind every packet.
  const TRAILER: nat := 8

  // C subtraction of unsigned 32-bit values: the difference modulo 2^32.
  function Sub32(a: u32, b: u32): (r: u32)
  {
    if a >= b then a - b else a - b + U32
  }

  // C addition of unsigned 32-bit values: the sum modulo 2^32.
  function Add32(a: u32, b: u32): (r: u32)
  {
    if a + b < U32 then a + b else a + b - U32
  }

  // A multiple of eight, sizeof (UINT64).
  predicate Aligned(x: nat) {
    if x < 8 then x == 0 else Aligned(x - 8)
  }

  lemma {:induction false} AlignedMeans(x: nat)
    ensures Aligned(x) <==> x % 8 == 0
  {
    if x >= 8 { AlignedMeans(x - 8); }
  }

  lemma {:induction false} AlignedSum(x: nat, y: nat)
    requires Aligned(x)
    ensures Aligned(x + y) <==> Aligned(y)
  {
    if x >= 8 { AlignedSum(x - 8, y); }
  }

  lemma {:induction false} AlignedRoom(n: nat, p: nat)
    requires Aligned(n) && Aligned(p) && p < n
    ensures p + 8 <= n
    decreases p
  {
    if p >= 8 { AlignedRoom(n - 8, p - 8); }
  }

  // ALIGN_UP(x, UINT64), without the 32-bit wrap.
  function AlignUp8(x: nat): (r: nat)
    ensures Aligned(r) && x <= r < x + 8
  {
    if x == 0 then 0 else if x <= 8 then 8 else AlignUp8(x - 8) + 8
  }

  function ModuloReduce(value: u32, modulus: u32): (r: u32)
    ensures value < modulus ==> r == value
    ensures modulus <= value < 2 * modulus ==> r == value - modulus
  {
    if value >= modulus then value - modulus else value
  }

  predicate ValidPointer(n: u32, p: u32) {
    p < n && Aligned(p)
  }

  function DataAvailable(n: u32, inp: u32, out: u32): (r: u32) {
    var bytes := Sub32(inp, out);
    if bytes < n then bytes else Add32(n, bytes)
  }

  function FreeBytes(n: u32, inp: u32, out: u32): (r: u32) {
    var bytes := Sub32(Sub32(out, inp), 1);
    if bytes < n then bytes else Add32(n, bytes)
  }

  // A usable ring: at least a 4 KiB page, a multiple of eight, at most 2^31 bytes.
  predicate RingSize(n: u32) {
    4096 <= n <= 0x8000_0000 && Aligned(n)
  }

  // The distance from out forward to inp on a ring of n bytes.
  function Distance(n: u32, inp: u32, out: u32): (r: int) {
    if inp >= out then inp - out else n + inp - out
  }

  // The wrap-around formulas compute the ring distance and its complement for
  // every pointer pair exactly when the ring holds at most 2^31 bytes.
  lemma WrapAroundExact(n: u32)
    requires n > 0
    ensures (forall i: u32, o: u32 :: i < n && o < n ==>
               DataAvailable(n, i, o) == Distance(n, i, o) &&
               FreeBytes(n, i, o) == n - 1 - Distance(n, i, o))
            <==> n <= 0x8000_0000
  {
    if n > 0x8000_0000 {
      // An empty-but-for-one-byte ring is reported as nearly 2^32 - n bytes.
      assert DataAvailable(n, 0, n - 1) != Distance(n, 0, n - 1);
    }
  }

  lemma AvailablePlusFree(n: u32, i: u32, o: u32)
    requires n <= 0x8000_0000 && i < n && o < n
    ensures DataAvailable(n, i, o) == Distance(n, i, o) < n
    ensures DataAvailable(n, i, o) + FreeBytes(n, i, o) == n - 1
  {
  }

  // ---- Absolute stream positions ----

  // The ring slot of a stream position: the position modulo the ring size.
  function Slot(n: nat, x: nat): (r: nat)
    requires n > 0
    ensures r < n
    decreases x
  {
    if x < n then x else Slot(n, x - n)
  }

  // Advancing a pointer by at most a ring and reducing once follows the stream.
  lemma {:induction false} Advance(n: nat, x: nat, d: nat)
    requires n > 0 && d <= n
    ensures Slot(n, x + d) == if Slot(n, x) + d < n then Slot(n, x) + d else Slot(n, x) + d - n
    decreases x
  {
    if x >= n { Advance(n, x - n, d); }
  }

  // Positions less than a ring apart share a slot only if they are equal.
  lemma SlotInjective(n: nat, x: nat, y: nat)
    requires n > 0 && x <= y < x + n
    ensures Slot(n, x) == Slot(n, y) <==> x == y
  {
    Advance(n, x, y - x);
  }

  lemma {:induction false} AlignedSlot(n: nat, x: nat)
    requires n > 0 && Aligned(n) && Aligned(x)
    ensures Aligned(Slot(n, x))
    decreases x
  {
    if x >= n {
      AlignedSum(n, x - n);
      AlignedSlot(n, x - n);
    }
  }

  // Ring distance of two pointers is the stream distance of their positions.
  lemma StreamDistance(n: u32, i: nat, o: nat)
    requires 0 < n <= 0x8000_0000 && o <= i < o + n
    ensures DataAvailable(n, Slot(n, i), Slot(n, o)) == i - o
    ensures FreeBytes(n, Slot(n, i), Slot(n, o)) == n - 1 - (i - o)
  {
    Advance(n, o, i - o);
    AvailablePlusFree(n, Slot(n, i), Slot(n, o));
  }
}
