// The MTRR part of CpuDxe.c: the memory space map is painted range after range,
// and every address ends up with the type that the MTRR precedence gives it.
module MtrrPainter {

  // Memory attribute bits; Other stands for all that are not about caching.
  datatype Bit = UC | WC | WT | WP | WB | UCE | Other(n: nat)

  type Bits = set<Bit>

  const CACHE_MASK: Bits := {UC, WC, WT, WP, WB, UCE}

  // EFI_GCD_MEMORY_SPACE_DESCRIPTOR.
  datatype Descriptor = Descriptor(base: nat, length: nat, present: bool, attributes: Bits, capabilities: Bits)

  // VARIABLE_MTRR.
  datatype Variable = Variable(base: nat, length: nat, kind: nat, valid: bool)

  // GetMemorySpaceAttributeFromMtrrType.
  function TypeBits(kind: nat): Bits {
    match kind
    case 0 => {UC}
    case 1 => {WC}
    case 4 => {WT}
    case 5 => {WP}
    case 6 => {WB}
    case _ => {}
  }

  // ---- The map ----

  predicate Holds(d: Descriptor, x: nat) {
    d.base <= x < d.base + d.length
  }

  // The descriptors are sorted and cover the addresses from 0 on without gaps.
  ghost predicate Contiguous(spaces: seq<Descriptor>) {
    && (spaces != [] ==> spaces[0].base == 0)
    && (forall i :: 0 <= i < |spaces| ==> spaces[i].length > 0)
    && forall i, j :: 0 <= i && j == i + 1 < |spaces| ==> spaces[j].base == spaces[i].base + spaces[i].length
  }

  function End(spaces: seq<Descriptor>): nat {
    if spaces == [] then 0 else spaces[|spaces| - 1].base + spaces[|spaces| - 1].length
  }

  lemma {:induction false} Ordered(spaces: seq<Descriptor>, i: nat, j: nat)
    requires Contiguous(spaces) && i < j < |spaces|
    ensures spaces[i].base + spaces[i].length <= spaces[j].base
  {
    if i + 1 < j { Ordered(spaces, i, j - 1); }
  }

  lemma Unique(spaces: seq<Descriptor>, i: nat, j: nat, x: nat)
    requires Contiguous(spaces) && i < |spaces| && j < |spaces| && Holds(spaces[i], x) && Holds(spaces[j], x)
    ensures i == j
  {
    if i < j { Ordered(spaces, i, j); }
    if j < i { Ordered(spaces, j, i); }
  }

  // The attributes of an address of d once a type was painted over it.
  function Mix(d: Descriptor, bits: Bits): Bits {
    (d.attributes - CACHE_MASK) + (d.capabilities * bits)
  }

  // Which bits an address of d has once an MTRR type was painted over it: a cache
  // bit if d is capable of it and it is the type's, any other bit if it was there.
  predicate HasBit(d: Descriptor, kind: nat, b: Bit) {
    match b
    case UC => UC in d.capabilities && kind == 0
    case WC => WC in d.capabilities && kind == 1
    case WT => WT in d.capabilities && kind == 4
    case WP => WP in d.capabilities && kind == 5
    case WB => WB in d.capabilities && kind == 6
    case UCE => false
    case Other(_) => b in d.attributes
  }

  lemma MixExactly(d: Descriptor, kind: nat, b: Bit)
    ensures b in Mix(d, TypeBits(kind)) <==> HasBit(d, kind, b)
  {
    match b case UC => case WC => case WT => case WP => case WB => case UCE => case Other(_) =>
  }

  // ---- Painting ----

  datatype Paint = Paint(base: nat, length: nat, bits: Bits)

  predicate Covers(p: Paint, x: nat) {
    p.base <= x < p.base + p.length
  }

  // The last of the paints that cover x, over the bits that were there before.
  function Top(log: seq<Paint>, below: Bits, x: nat): Bits {
    if log == [] then below
    else if Covers(log[|log| - 1], x) then log[|log| - 1].bits
    else Top(log[..|log| - 1], below, x)
  }

  lemma {:induction false} TopConcat(a: seq<Paint>, b: seq<Paint>, below: Bits, x: nat)
    ensures Top(a + b, below, x) == Top(b, Top(a, below, x), x)
  {
    if b == [] {
      assert a + b == a;
    } else {
      assert (a + b)[..|a + b| - 1] == a + b[..|b| - 1];
      TopConcat(a, b[..|b| - 1], below, x);
    }
  }

  // ---- The memory space services ----

  class MemorySpace {
    ghost var attributes: nat -> Bits

    // gDS->SetMemorySpaceAttributes.
    method SetAttributes(base: nat, length: nat, bits: Bits)
      modifies this
      ensures forall x: nat :: attributes(x) == if base <= x < base + length then bits else old(attributes)(x)
    {
      ghost var was := attributes;
      attributes := (x: nat) => if base <= x < base + length then bits else was(x);
    }
  }

  // What the paints of the log have made of the attributes was.
  ghost predicate Painted(now: nat -> Bits, spaces: seq<Descriptor>, was: nat -> Bits, below: Bits, log: seq<Paint>) {
    && (forall i, x: nat :: 0 <= i < |spaces| && Holds(spaces[i], x) ==>
          now(x) == if spaces[i].present then Mix(spaces[i], Top(log, below, x)) else was(x))
    && forall x: nat :: x >= End(spaces) ==> now(x) == was(x)
  }

  // SearchGcdMemorySpaces.
  method Search(spaces: seq<Descriptor>, base: nat, length: nat) returns (found: bool, start: nat, end: nat)
    requires Contiguous(spaces) && length > 0
    ensures found <==> base + length <= End(spaces)
    ensures found ==> start <= end < |spaces| && Holds(spaces[start], base) && Holds(spaces[end], base + length - 1)
  {
    found, start, end := false, 0, 0;
    for i := 0 to |spaces|
      invariant i < |spaces| ==> base + length - 1 >= spaces[i].base
      invariant i == |spaces| ==> base + length > End(spaces)
      invariant i < |spaces| && base < spaces[i].base ==> start < i && Holds(spaces[start], base)
    {
      if spaces[i].base <= base < spaces[i].base + spaces[i].length { start := i; }
      if spaces[i].base <= base + length - 1 < spaces[i].base + spaces[i].length {
        if i + 1 < |spaces| { Ordered(spaces, i, |spaces| - 1); }
        return true, start, i;
      }
    }
  }

  lemma CoversBetween(spaces: seq<Descriptor>, start: nat, end: nat, p: Paint, k: nat, x: nat)
    requires Contiguous(spaces) && start <= end < |spaces| && k < |spaces| && Holds(spaces[k], x) && p.length > 0
    requires Holds(spaces[start], p.base) && Holds(spaces[end], p.base + p.length - 1) && Covers(p, x)
    ensures start <= k <= end
  {
    if k < start { Ordered(spaces, k, start); }
    if end < k { Ordered(spaces, end, k); }
  }

  // The region painted in descriptor i is what the descriptor shares with the paint.
  lemma RegionIs(spaces: seq<Descriptor>, start: nat, end: nat, p: Paint, i: nat, from: nat, count: int)
    requires Contiguous(spaces) && start <= i <= end < |spaces| && p.length > 0
    requires Holds(spaces[start], p.base) && Holds(spaces[end], p.base + p.length - 1)
    requires var d := spaces[i];
      && from == (if p.base >= d.base then p.base else d.base)
      && count == (if p.base + p.length - 1 < d.base + d.length then p.base + p.length - from
                   else d.base + d.length - from)
    ensures count > 0 && from + count <= End(spaces)
    ensures forall x: nat :: from <= x < from + count <==> Holds(spaces[i], x) && Covers(p, x)
  {
    var d := spaces[i];
    if start < i { Ordered(spaces, start, i); }
    if i < end { Ordered(spaces, i, end); }
    assert p.base < d.base + d.length && d.base < p.base + p.length;
    assert from + count <= d.base + d.length <= End(spaces) by {
      if i < |spaces| - 1 { Ordered(spaces, i, |spaces| - 1); }
    }
  }

  // The attributes while the descriptors from start to i - 1 are painted.
  ghost predicate Painting(now: nat -> Bits, spaces: seq<Descriptor>, was: nat -> Bits, below: Bits, log: seq<Paint>,
                           p: Paint, start: nat, i: nat) {
    && (forall k, x: nat :: 0 <= k < |spaces| && Holds(spaces[k], x) ==>
          now(x) ==
            if !spaces[k].present then was(x)
            else Mix(spaces[k], if start <= k < i && Covers(p, x) then p.bits else Top(log, below, x)))
    && forall x: nat :: x >= End(spaces) ==> now(x) == was(x)
  }

  lemma PaintingEnds(now: nat -> Bits, spaces: seq<Descriptor>, was: nat -> Bits, below: Bits, log: seq<Paint>,
                     p: Paint, start: nat, end: nat)
    requires Contiguous(spaces) && start <= end < |spaces| && p.length > 0
    requires Holds(spaces[start], p.base) && Holds(spaces[end], p.base + p.length - 1)
    requires Painting(now, spaces, was, below, log, p, start, end + 1)
    ensures Painted(now, spaces, was, below, log + [p])
  {
    forall k, x: nat | 0 <= k < |spaces| && Holds(spaces[k], x)
      ensures now(x) == if spaces[k].present then Mix(spaces[k], Top(log + [p], below, x)) else was(x)
    {
      assert (log + [p])[..|log|] == log;
      if Covers(p, x) { CoversBetween(spaces, start, end, p, k, x); }
    }
  }

  lemma PaintingStep(now: nat -> Bits, next: nat -> Bits, spaces: seq<Descriptor>, was: nat -> Bits, below: Bits,
                     log: seq<Paint>, p: Paint, start: nat, i: nat)
    requires Contiguous(spaces) && start <= i < |spaces| && spaces[i].present
    requires Painting(now, spaces, was, below, log, p, start, i)
    requires forall x: nat :: next(x) == if Holds(spaces[i], x) && Covers(p, x) then Mix(spaces[i], p.bits) else now(x)
    ensures Painting(next, spaces, was, below, log, p, start, i + 1)
  {
    forall k, x: nat | 0 <= k < |spaces| && Holds(spaces[k], x)
      ensures next(x) ==
        if !spaces[k].present then was(x)
        else Mix(spaces[k], if start <= k < i + 1 && Covers(p, x) then p.bits else Top(log, below, x))
    {
      if Holds(spaces[i], x) { Unique(spaces, i, k, x); }
    }
    if i < |spaces| - 1 { Ordered(spaces, i, |spaces| - 1); }
  }

  // Paints what p shares with descriptor i.
  method PaintDescriptor(space: MemorySpace, spaces: seq<Descriptor>, p: Paint, start: nat, i: nat, ghost end: nat,
                         ghost was: nat -> Bits, ghost below: Bits, ghost log: seq<Paint>)
    requires Contiguous(spaces) && p.length > 0 && start <= i <= end < |spaces|
    requires Holds(spaces[start], p.base) && Holds(spaces[end], p.base + p.length - 1)
    requires Painting(space.attributes, spaces, was, below, log, p, start, i)
    modifies space
    ensures Painting(space.attributes, spaces, was, below, log, p, start, i + 1)
  {
    var d := spaces[i];
    if d.present {
      var regionStart := if p.base >= d.base then p.base else d.base;
      var regionLength := if p.base + p.length - 1 < d.base + d.length
        then p.base + p.length - regionStart else d.base + d.length - regionStart;
      RegionIs(spaces, start, end, p, i, regionStart, regionLength);
      ghost var before := space.attributes;
      space.SetAttributes(regionStart, regionLength, Mix(d, p.bits));
      PaintingStep(before, space.attributes, spaces, was, below, log, p, start, i);
    }
  }

  // SetGcdMemorySpaceAttributes.
  method SetRange(space: MemorySpace, spaces: seq<Descriptor>, p: Paint,
                  ghost was: nat -> Bits, ghost below: Bits, ghost log: seq<Paint>) returns (found: bool)
    requires Contiguous(spaces) && p.length > 0 && Painted(space.attributes, spaces, was, below, log)
    modifies space
    ensures found <==> p.base + p.length <= End(spaces)
    ensures Painted(space.attributes, spaces, was, below, if found then log + [p] else log)
  {
    var start, end;
    found, start, end := Search(spaces, p.base, p.length);
    if !found { return; }
    var i := start;
    while i <= end
      invariant start <= i <= end + 1 && Painting(space.attributes, spaces, was, below, log, p, start, i)
    {
      PaintDescriptor(space, spaces, p, start, i, end, was, below, log);
      i := i + 1;
    }
    PaintingEnds(space.attributes, spaces, was, below, log, p, start, end);
  }

  // ---- Variable MTRRs ----

  // The three passes over the variable MTRRs.
  datatype Pass = BackPass | OtherPass | UncachedPass

  predicate Picks(pass: Pass, v: Variable) {
    v.valid && match pass
      case BackPass => v.kind == 6
      case OtherPass => v.kind != 6 && v.kind != 0
      case UncachedPass => v.kind == 0
  }

  // An MTRR takes part in a pass if its range ends inside the map.
  predicate TakesPart(end: nat, pass: Pass, v: Variable) {
    Picks(pass, v) && v.base + v.length <= end
  }

  function ToPaint(v: Variable): Paint {
    Paint(v.base, v.length, TypeBits(v.kind))
  }

  function PassLog(end: nat, mtrrs: seq<Variable>, pass: Pass): seq<Paint> {
    if mtrrs == [] then []
    else
      var before, v := PassLog(end, mtrrs[..|mtrrs| - 1], pass), mtrrs[|mtrrs| - 1];
      if TakesPart(end, pass, v) then before + [ToPaint(v)] else before
  }

  // The last MTRR of a pass that covers x, or -1.
  function LastCovering(end: nat, mtrrs: seq<Variable>, pass: Pass, x: nat): (r: int)
    ensures -1 <= r < |mtrrs|
    ensures r >= 0 ==> TakesPart(end, pass, mtrrs[r]) && Covers(ToPaint(mtrrs[r]), x)
    ensures forall i :: r < i < |mtrrs| && TakesPart(end, pass, mtrrs[i]) ==> !Covers(ToPaint(mtrrs[i]), x)
  {
    if mtrrs == [] then -1
    else
      var last := |mtrrs| - 1;
      if TakesPart(end, pass, mtrrs[last]) && Covers(ToPaint(mtrrs[last]), x) then last
      else
        var r := LastCovering(end, mtrrs[..last], pass, x);
        assert forall i :: 0 <= i < last ==> mtrrs[..last][i] == mtrrs[i];
        r
  }

  lemma {:induction false} PassTop(end: nat, mtrrs: seq<Variable>, pass: Pass, below: Bits, x: nat)
    ensures var r := LastCovering(end, mtrrs, pass, x);
      Top(PassLog(end, mtrrs, pass), below, x) == if r < 0 then below else TypeBits(mtrrs[r].kind)
  {
    if mtrrs != [] {
      var last := |mtrrs| - 1;
      PassTop(end, mtrrs[..last], pass, below, x);
      var before := PassLog(end, mtrrs[..last], pass);
      assert (before + [ToPaint(mtrrs[last])])[..|before|] == before;
    }
  }

  method PaintPass(space: MemorySpace, spaces: seq<Descriptor>, mtrrs: seq<Variable>, pass: Pass,
                   ghost was: nat -> Bits, ghost below: Bits, ghost log: seq<Paint>)
    requires Contiguous(spaces) && Painted(space.attributes, spaces, was, below, log)
    requires forall i :: 0 <= i < |mtrrs| && mtrrs[i].valid ==> mtrrs[i].length > 0
    modifies space
    ensures Painted(space.attributes, spaces, was, below, log + PassLog(End(spaces), mtrrs, pass))
  {
    assert log + PassLog(End(spaces), [], pass) == log;
    for i := 0 to |mtrrs|
      invariant Painted(space.attributes, spaces, was, below, log + PassLog(End(spaces), mtrrs[..i], pass))
    {
      ghost var before := PassLog(End(spaces), mtrrs[..i], pass);
      assert mtrrs[..i + 1][..i] == mtrrs[..i];
      if Picks(pass, mtrrs[i]) {
        var _ := SetRange(space, spaces, ToPaint(mtrrs[i]), was, below, log + before);
        assert log + before + [ToPaint(mtrrs[i])] == log + (before + [ToPaint(mtrrs[i])]);
      }
    }
    assert mtrrs[..|mtrrs|] == mtrrs;
  }

  // ---- Fixed MTRRs ----

  const ONE_MIB := 0x10_0000
  const FIXED_COUNT := 11

  // mFixedMtrrTable: where register i begins, and how much each of its eight
  // bytes is for.
  function FixedBase(i: nat): nat {
    if i == 0 then 0 else if i < 3 then 0x8_0000 + (i - 1) * 0x2_0000 else 0xC_0000 + (i - 3) * 0x8000
  }

  function FixedLength(i: nat): nat {
    if i == 0 then 0x1_0000 else if i < 3 then 0x4000 else 0x1000
  }

  // Byte k of a 64-bit register.
  function ByteOf(register: nat, k: nat): nat {
    if k == 0 then register % 256 else ByteOf(register / 256, k - 1)
  }

  const WEIGHTS: seq<nat> := [1, 0x100, 0x1_0000, 0x100_0000, 0x1_0000_0000, 0x100_0000_0000, 0x1_0000_0000_0000,
                              0x100_0000_0000_0000]

  // The type in byte k of a register, the lowest byte first.
  function KindIn(register: nat, k: nat): nat
    requires k < 8
  {
    register / WEIGHTS[k] % 256
  }

  lemma DivideOnce(x: nat, k: nat)
    requires k < 7
    ensures x / 256 / WEIGHTS[k] == x / WEIGHTS[k + 1]
  {
    assert WEIGHTS[k + 1] == 256 * WEIGHTS[k];
    match k case 0 => case 1 => case 2 => case 3 => case 4 => case 5 => case 6 =>
  }

  lemma {:induction false} ByteOfIs(register: nat, k: nat)
    requires k < 8
    ensures ByteOf(register, k) == KindIn(register, k)
    decreases k
  {
    if k > 0 {
      ByteOfIs(register / 256, k - 1);
      DivideOnce(register, k - 1);
    }
  }

  // The fixed MTRR type of an address below 1 MiB.
  function FixedKind(fixed: seq<nat>, x: nat): nat
    requires |fixed| == FIXED_COUNT && x < ONE_MIB
  {
    if x < 0x8_0000 then KindIn(fixed[0], x / 0x1_0000)
    else if x < 0xC_0000 then KindIn(fixed[1 + (x - 0x8_0000) / 0x2_0000], (x - 0x8_0000) % 0x2_0000 / 0x4000)
    else KindIn(fixed[3 + (x - 0xC_0000) / 0x8000], (x - 0xC_0000) % 0x8000 / 0x1000)
  }

  function SubBase(i: nat, k: nat): nat {
    FixedBase(i) + FixedLength(i) * k
  }

  lemma FixedKindIs(fixed: seq<nat>, i: nat, k: nat, x: nat)
    requires |fixed| == FIXED_COUNT && i < FIXED_COUNT && k < 8
    requires SubBase(i, k) <= x < SubBase(i, k) + FixedLength(i)
    ensures x < ONE_MIB && FixedKind(fixed, x) == ByteOf(fixed[i], k)
  {
    ByteOfIs(fixed[i], k);
    if i == 0 {
      assert x / 0x1_0000 == k;
    } else if i < 3 {
      var y := x - FixedBase(i);
      assert (x - 0x8_0000) / 0x2_0000 == i - 1 && (x - 0x8_0000) % 0x2_0000 == y && y / 0x4000 == k;
    } else {
      var y := x - FixedBase(i);
      assert (x - 0xC_0000) / 0x8000 == i - 3 && (x - 0xC_0000) % 0x8000 == y && y / 0x1000 == k;
    }
  }

  ghost predicate Uniform(fixed: seq<nat>, lo: nat, hi: nat, bits: Bits)
    requires |fixed| == FIXED_COUNT
  {
    hi <= ONE_MIB && forall x: nat :: lo <= x < hi ==> TypeBits(FixedKind(fixed, x)) == bits
  }

  // The runs cover the addresses below hi without gap or overlap, each has one
  // type, and neighbours differ.
  ghost predicate Runs(fixed: seq<nat>, runs: seq<Paint>, hi: nat)
    requires |fixed| == FIXED_COUNT
  {
    if runs == [] then hi == 0
    else
      var last := runs[|runs| - 1];
      && last.length > 0 && last.base + last.length == hi
      && Uniform(fixed, last.base, hi, last.bits)
      && Runs(fixed, runs[..|runs| - 1], last.base)
      && (|runs| > 1 ==> runs[|runs| - 2].bits != last.bits)
  }

  lemma {:induction false} RunsTop(fixed: seq<nat>, runs: seq<Paint>, hi: nat, below: Bits, x: nat)
    requires |fixed| == FIXED_COUNT && Runs(fixed, runs, hi)
    ensures hi <= ONE_MIB
    ensures Top(runs, below, x) == if x < hi then TypeBits(FixedKind(fixed, x)) else below
  {
    if runs != [] { RunsTop(fixed, runs[..|runs| - 1], runs[|runs| - 1].base, below, x); }
  }

  lemma RunsAppend(fixed: seq<nat>, runs: seq<Paint>, p: Paint)
    requires |fixed| == FIXED_COUNT && Runs(fixed, runs, p.base) && p.length > 0
    requires Uniform(fixed, p.base, p.base + p.length, p.bits)
    requires runs != [] ==> runs[|runs| - 1].bits != p.bits
    ensures Runs(fixed, runs + [p], p.base + p.length)
  {
    assert (runs + [p])[..|runs|] == runs;
  }

  lemma UniformGrows(fixed: seq<nat>, lo: nat, i: nat, k: nat, bits: Bits)
    requires |fixed| == FIXED_COUNT && i < FIXED_COUNT && k < 8 && lo <= SubBase(i, k)
    requires Uniform(fixed, lo, SubBase(i, k), bits) && TypeBits(ByteOf(fixed[i], k)) == bits
    ensures Uniform(fixed, lo, SubBase(i, k) + FixedLength(i), bits)
  {
    FixedKindIs(fixed, i, k, SubBase(i, k) + FixedLength(i) - 1);
    forall x: nat | lo <= x < SubBase(i, k) + FixedLength(i) ensures TypeBits(FixedKind(fixed, x)) == bits {
      if x >= SubBase(i, k) { FixedKindIs(fixed, i, k, x); }
    }
  }

  lemma NextByte(i: nat, k: nat)
    ensures SubBase(i, k + 1) == SubBase(i, k) + FixedLength(i)
  {
  }

  lemma NextRegister(i: nat)
    requires i < FIXED_COUNT
    ensures SubBase(i, 0) == FixedBase(i) && SubBase(i, 8) == FixedBase(i + 1)
  {
  }

  // The sub-ranges below next are painted in runs, but for a last run that is
  // still growing.
  ghost predicate Growing(fixed: seq<nat>, runs: seq<Paint>, p: Paint, next: nat)
    requires |fixed| == FIXED_COUNT
  {
    && p.base + p.length == next && (p.length == 0 ==> p.base == 0 && runs == [])
    && Runs(fixed, runs, p.base) && Uniform(fixed, p.base, next, p.bits)
    && (runs != [] ==> runs[|runs| - 1].bits != p.bits)
  }

  // Paints the run that has stopped growing.
  method PaintRun(space: MemorySpace, spaces: seq<Descriptor>, fixed: seq<nat>, p: Paint, ghost next: nat,
                  ghost was: nat -> Bits, ghost below: Bits, ghost log: seq<Paint>, ghost runs: seq<Paint>)
    requires Contiguous(spaces) && |fixed| == FIXED_COUNT && ONE_MIB <= End(spaces)
    requires Painted(space.attributes, spaces, was, below, log + runs) && p.length > 0 && Growing(fixed, runs, p, next)
    modifies space
    ensures Painted(space.attributes, spaces, was, below, log + (runs + [p])) && Runs(fixed, runs + [p], next)
  {
    var _ := SetRange(space, spaces, p, was, below, log + runs);
    RunsAppend(fixed, runs, p);
    assert log + runs + [p] == log + (runs + [p]);
  }

  // Adds byte k of register i to the growing run, or starts a new one.
  method AddByte(space: MemorySpace, spaces: seq<Descriptor>, fixed: seq<nat>, i: nat, k: nat, p: Paint,
                 ghost was: nat -> Bits, ghost below: Bits, ghost log: seq<Paint>, ghost runs: seq<Paint>)
    returns (p': Paint, ghost runs': seq<Paint>)
    requires Contiguous(spaces) && |fixed| == FIXED_COUNT && ONE_MIB <= End(spaces) && i < FIXED_COUNT && k < 8
    requires Painted(space.attributes, spaces, was, below, log + runs) && Growing(fixed, runs, p, SubBase(i, k))
    modifies space
    ensures Painted(space.attributes, spaces, was, below, log + runs') && Growing(fixed, runs', p', SubBase(i, k + 1))
    ensures p'.length > 0
  {
    p', runs' := p, runs;
    var current := TypeBits(ByteOf(fixed[i], k));
    if p.length == 0 {
      p' := p.(bits := current);
    } else if current != p.bits {
      PaintRun(space, spaces, fixed, p, SubBase(i, k), was, below, log, runs);
      runs' := runs + [p];
      p' := Paint(SubBase(i, k), 0, current);
    }
    UniformGrows(fixed, p'.base, i, k, p'.bits);
    NextByte(i, k);
    p' := p'.(length := p'.length + FixedLength(i));
  }

  method AddRegister(space: MemorySpace, spaces: seq<Descriptor>, fixed: seq<nat>, i: nat, p: Paint,
                     ghost was: nat -> Bits, ghost below: Bits, ghost log: seq<Paint>, ghost runs: seq<Paint>)
    returns (p': Paint, ghost runs': seq<Paint>)
    requires Contiguous(spaces) && |fixed| == FIXED_COUNT && ONE_MIB <= End(spaces) && i < FIXED_COUNT
    requires Painted(space.attributes, spaces, was, below, log + runs) && Growing(fixed, runs, p, FixedBase(i))
    modifies space
    ensures Painted(space.attributes, spaces, was, below, log + runs') && Growing(fixed, runs', p', FixedBase(i + 1))
    ensures p'.length > 0
  {
    p', runs' := p, runs;
    NextRegister(i);
    for k := 0 to 8
      invariant Growing(fixed, runs', p', SubBase(i, k)) && (k > 0 ==> p'.length > 0)
      invariant Painted(space.attributes, spaces, was, below, log + runs')
    {
      p', runs' := AddByte(space, spaces, fixed, i, k, p', was, below, log, runs');
    }
  }

  // The painting of the fixed MTRRs: neighbouring sub-ranges of one type are
  // painted as one run.
  method PaintFixed(space: MemorySpace, spaces: seq<Descriptor>, fixed: seq<nat>,
                    ghost was: nat -> Bits, ghost below: Bits, ghost log: seq<Paint>) returns (ghost runs: seq<Paint>)
    requires Contiguous(spaces) && Painted(space.attributes, spaces, was, below, log)
    requires |fixed| == FIXED_COUNT && ONE_MIB <= End(spaces)
    modifies space
    ensures Runs(fixed, runs, ONE_MIB) && Painted(space.attributes, spaces, was, below, log + runs)
  {
    var p := Paint(0, 0, {});
    runs := [];
    assert log + runs == log;
    for i := 0 to FIXED_COUNT
      invariant Growing(fixed, runs, p, FixedBase(i)) && (i > 0 ==> p.length > 0)
      invariant Painted(space.attributes, spaces, was, below, log + runs)
    {
      p, runs := AddRegister(space, spaces, fixed, i, p, was, below, log, runs);
    }
    PaintRun(space, spaces, fixed, p, ONE_MIB, was, below, log, runs);
    runs := runs + [p];
  }

  // ---- The refresh ----

  // A variable MTRR that counts for address x: its range ends inside the map.
  predicate Active(end: nat, v: Variable, x: nat) {
    v.valid && v.base + v.length <= end && v.base <= x < v.base + v.length
  }

  // The active MTRR i has a type other than write-back, and no later one has.
  predicate LastOther(end: nat, mtrrs: seq<Variable>, x: nat, i: nat) {
    && i < |mtrrs| && Active(end, mtrrs[i], x) && mtrrs[i].kind != 6
    && forall j :: i < j < |mtrrs| && Active(end, mtrrs[j], x) ==> mtrrs[j].kind == 6
  }

  predicate SomeActive(end: nat, mtrrs: seq<Variable>, x: nat, kind: nat) {
    exists i :: 0 <= i < |mtrrs| && Active(end, mtrrs[i], x) && mtrrs[i].kind == kind
  }

  // The MTRR type of an address: the fixed MTRRs rule below 1 MiB; above it,
  // uncached beats the last other range, which beats write-back, which beats
  // the default.
  ghost predicate HasKind(end: nat, mtrrs: seq<Variable>, fixed: seq<nat>, defaultKind: nat, x: nat, kind: nat)
    requires |fixed| == FIXED_COUNT
  {
    if x < ONE_MIB then kind == FixedKind(fixed, x)
    else if SomeActive(end, mtrrs, x, 0) then kind == 0
    else if exists i: nat :: LastOther(end, mtrrs, x, i) then
      exists i: nat :: LastOther(end, mtrrs, x, i) && kind == mtrrs[i].kind
    else kind == if SomeActive(end, mtrrs, x, 6) then 6 else defaultKind
  }

  function Precedence(end: nat, mtrrs: seq<Variable>, fixed: seq<nat>, defaultKind: nat, x: nat): (r: nat)
    requires |fixed| == FIXED_COUNT
    ensures HasKind(end, mtrrs, fixed, defaultKind, x, r)
  {
    var uncached, other := LastCovering(end, mtrrs, UncachedPass, x), LastCovering(end, mtrrs, OtherPass, x);
    var back := LastCovering(end, mtrrs, BackPass, x);
    assert uncached >= 0 ==> Active(end, mtrrs[uncached], x);
    assert back >= 0 ==> Active(end, mtrrs[back], x);
    assert uncached < 0 && other >= 0 ==> LastOther(end, mtrrs, x, other);
    if x < ONE_MIB then FixedKind(fixed, x)
    else if uncached >= 0 then 0
    else if other >= 0 then mtrrs[other].kind
    else if back >= 0 then 6
    else defaultKind
  }

  function FullLog(end: nat, mtrrs: seq<Variable>, runs: seq<Paint>): seq<Paint> {
    [] + PassLog(end, mtrrs, BackPass) + PassLog(end, mtrrs, OtherPass) + PassLog(end, mtrrs, UncachedPass) + runs
  }

  // Painting in order gives every address its type by precedence.
  lemma PaintedByPrecedence(end: nat, mtrrs: seq<Variable>, fixed: seq<nat>, runs: seq<Paint>, defaultKind: nat, x: nat)
    requires |fixed| == FIXED_COUNT && Runs(fixed, runs, ONE_MIB)
    ensures Top(FullLog(end, mtrrs, runs), TypeBits(defaultKind), x) ==
            TypeBits(Precedence(end, mtrrs, fixed, defaultKind, x))
  {
    var v0 := TypeBits(defaultKind);
    var back, other := PassLog(end, mtrrs, BackPass), PassLog(end, mtrrs, OtherPass);
    var uncached := PassLog(end, mtrrs, UncachedPass);
    assert [] + back == back;
    PassTop(end, mtrrs, BackPass, v0, x);
    var v1 := Top(back, v0, x);
    PassTop(end, mtrrs, OtherPass, v1, x);
    var v2 := Top(other, v1, x);
    PassTop(end, mtrrs, UncachedPass, v2, x);
    var v3 := Top(uncached, v2, x);
    RunsTop(fixed, runs, ONE_MIB, v3, x);
    assert Top(runs, v3, x) == TypeBits(Precedence(end, mtrrs, fixed, defaultKind, x));
    assert Top(FullLog(end, mtrrs, runs), v0, x) == Top(runs, v3, x) by {
      TopConcat(back, other, v0, x);
      TopConcat(back + other, uncached, v0, x);
      TopConcat(back + other + uncached, runs, v0, x);
    }
  }

  // Gives every address of the map the default type.
  method PaintDefault(space: MemorySpace, spaces: seq<Descriptor>, bits: Bits)
    requires Contiguous(spaces)
    modifies space
    ensures Painted(space.attributes, spaces, old(space.attributes), bits, [])
  {
    for i := 0 to |spaces|
      invariant forall k, x: nat :: 0 <= k < |spaces| && Holds(spaces[k], x) ==>
        space.attributes(x) == if spaces[k].present && k < i then Mix(spaces[k], bits) else old(space.attributes)(x)
      invariant forall x: nat :: x >= End(spaces) ==> space.attributes(x) == old(space.attributes)(x)
    {
      var d := spaces[i];
      if d.present {
        if i < |spaces| - 1 { Ordered(spaces, i, |spaces| - 1); }
        forall k, x: nat | 0 <= k < |spaces| && Holds(spaces[k], x)
          ensures d.base <= x < d.base + d.length <==> k == i
        {
          if Holds(d, x) { Unique(spaces, i, k, x); }
        }
        space.SetAttributes(d.base, d.length, Mix(d, bits));
      }
    }
  }

  // RefreshMemoryAttributesFromMtrr.
  method Refresh(space: MemorySpace, spaces: seq<Descriptor>, mtrrs: seq<Variable>, fixed: seq<nat>, defaultKind: nat)
    requires Contiguous(spaces) && ONE_MIB <= End(spaces) && |fixed| == FIXED_COUNT
    requires forall i :: 0 <= i < |mtrrs| && mtrrs[i].valid ==> mtrrs[i].length > 0
    modifies space
    ensures forall i, x: nat, b :: 0 <= i < |spaces| && spaces[i].present && Holds(spaces[i], x) ==>
      (b in space.attributes(x) <==> HasBit(spaces[i], Precedence(End(spaces), mtrrs, fixed, defaultKind, x), b))
    ensures forall i, x: nat :: 0 <= i < |spaces| && !spaces[i].present && Holds(spaces[i], x) ==>
      space.attributes(x) == old(space.attributes)(x)
    ensures forall x: nat :: x >= End(spaces) ==> space.attributes(x) == old(space.attributes)(x)
  {
    ghost var was, below, end := space.attributes, TypeBits(defaultKind), End(spaces);
    PaintDefault(space, spaces, TypeBits(defaultKind));
    ghost var log: seq<Paint> := [];
    PaintPass(space, spaces, mtrrs, BackPass, was, below, log);
    log := log + PassLog(end, mtrrs, BackPass);
    PaintPass(space, spaces, mtrrs, OtherPass, was, below, log);
    log := log + PassLog(end, mtrrs, OtherPass);
    PaintPass(space, spaces, mtrrs, UncachedPass, was, below, log);
    log := log + PassLog(end, mtrrs, UncachedPass);
    ghost var runs := PaintFixed(space, spaces, fixed, was, below, log);
    assert log + runs == FullLog(end, mtrrs, runs);
    forall x: nat
      ensures Top(FullLog(end, mtrrs, runs), below, x) == TypeBits(Precedence(end, mtrrs, fixed, defaultKind, x))
    {
      PaintedByPrecedence(end, mtrrs, fixed, runs, defaultKind, x);
    }
    forall i, x: nat, b | 0 <= i < |spaces| && spaces[i].present && Holds(spaces[i], x)
      ensures b in space.attributes(x) <==> HasBit(spaces[i], Precedence(end, mtrrs, fixed, defaultKind, x), b)
    {
      MixExactly(spaces[i], Precedence(end, mtrrs, fixed, defaultKind, x), b);
    }
  }
}
