// InitializeMpPageTables of CpuPageTable.c: the tables with which an application
// processor wakes up map the low 1 MiB and the mailbox page, and nothing else.
module MpPageTables {
  import opened Common
  import opened PageTables

  // Pages of a 48-bit address space.
  const PAGES: nat := 0x10_0000_0000

  // An entry with the D, A, RW and P bits set.
  function Flags(f: Frame): Entry {
    Entry(f, true, true, false, false, true, true, false, false, 0)
  }

  // Page v mapped to itself: present, writable and executable.
  function Itself(v: nat): Mapping {
    Mapping(v, true, true, false, false, true, true, false, true, true, false)
  }

  // The number of tables besides the mailbox's own four: one for each level
  // below the lowest table that the walks of the mailbox and of page 0 share.
  ghost predicate ExtraTables(pfn: nat, extra: nat) {
    extra <= 3 && Block(extra + 2, pfn) == 0 && (extra > 0 ==> Block(extra + 1, pfn) != 0)
  }

  // Entry i of table k once the first chain tables of the walk of the mailbox,
  // the first links of the walk of page 0 below the shared table, and the first
  // low pages are in. Tables 0 to 3 are the walk of the mailbox; table 3 - extra
  // is shared with the walk of page 0, which goes on in tables 4 to 3 + extra;
  // the last table holds the low pages.
  function Partial(base: Frame, pfn: nat, extra: nat, chain: nat, links: nat, low: nat, k: nat, i: nat): Entry {
    if k == 3 + extra && i < low then Flags(i)
    else if links > 0 && i == 0 && (k + extra == 3 || 4 <= k < 3 + links) then Flags(base + if k < 4 then 4 else k + 1)
    else if k < 4 && k < chain && i == Index(4 - k, pfn) then Flags(if k == 3 then pfn else base + k + 1)
    else Zero
  }

  function EntryAt(base: Frame, pfn: nat, extra: nat, k: nat, i: nat): Entry {
    Partial(base, pfn, extra, 4, extra, 256, k, i)
  }

  ghost predicate TableBuilt(mem: Memory, base: Frame, pfn: nat, extra: nat, k: nat) {
    && base + k in mem && |mem[base + k]| == 512
    && forall i :: 0 <= i < 512 ==> mem[base + k][i] == EntryAt(base, pfn, extra, k, i)
  }

  ghost predicate Built(mem: Memory, base: Frame, pfn: nat, extra: nat) {
    forall k: nat :: k < 4 + extra ==> TableBuilt(mem, base, pfn, extra, k)
  }

  ghost function PlaceOf(base: Frame, pfn: nat, extra: nat, f: Frame): Place
    requires base <= f <= base + 3 + extra
  {
    if f < base + 4 then Place(4 + base - f, Block(5 + base - f, pfn)) else Place(4 + extra + base - f, 0)
  }

  ghost function Places(base: Frame, pfn: nat, extra: nat): Layout {
    map f: Frame | base <= f < base + 4 + extra :: PlaceOf(base, pfn, extra, f)
  }

  // ---- The walks ----

  lemma Blocks(v: nat)
    ensures Block(2, v) == v / 512 && Block(3, v) == v / 512 / 512
    ensures Block(4, v) == v / 512 / 512 / 512 && Block(5, v) == v / 512 / 512 / 512 / 512
  {
    assert Block(2, v) == v / 512;
    assert Block(3, v) == Block(2, v) / 512;
    assert Block(4, v) == Block(3, v) / 512;
  }

  lemma InAddressSpace(v: nat)
    ensures v < PAGES <==> Block(5, v) == 0
    ensures v < 512 ==> Block(2, v) == 0 && Block(3, v) == 0 && Block(4, v) == 0
  {
    Blocks(v);
  }

  // The upper blocks of the mailbox are those of page 0, down to the shared table.
  lemma SharedAbove(pfn: nat, extra: nat, level: nat)
    requires ExtraTables(pfn, extra) && extra + 2 <= level
    ensures Block(level, pfn) == 0
  {
    if level > extra + 2 { SharedAbove(pfn, extra, level - 1); }
  }

  // The tables are a tree: a link's target covers the block of the link.
  lemma TreeBuilt(mem: Memory, base: Frame, pfn: nat, extra: nat)
    requires Built(mem, base, pfn, extra) && ExtraTables(pfn, extra)
    ensures Tree(mem, Places(base, pfn, extra))
  {
    var at := Places(base, pfn, extra);
    forall f | f in at ensures TableOk(mem, at, f) {
      var k := f - base;
      assert TableBuilt(mem, base, pfn, extra, k);
      forall i | 0 <= i < 512 ensures EntryOk(mem, at, f, i) {
        LinkPlace(base, pfn, extra, k, i);
      }
    }
  }

  lemma LinkPlace(base: Frame, pfn: nat, extra: nat, k: nat, i: nat)
    requires ExtraTables(pfn, extra) && k <= 3 + extra && i < 512
    ensures var e, p := EntryAt(base, pfn, extra, k, i), PlaceOf(base, pfn, extra, base + k);
      IsLink(p.level, e) ==>
        && base <= e.frame < base + 4 + extra
        && PlaceOf(base, pfn, extra, e.frame) == Place(p.level - 1, 512 * p.block + i)
  {
    if k + extra == 3 { SharedAbove(pfn, extra, 5 - k); }
  }

  lemma ThroughLink(mem: Memory, at: Layout, f: Frame, level: nat, v: nat, next: Frame)
    requires Walking(mem, at, f, v) && level == at[f].level && level > 1
    requires f in mem && |mem[f]| == 512 && mem[f][Index(level, v)] == Flags(next)
    ensures Walking(mem, at, next, v) && at[next].level == level - 1
    ensures Translate(mem, at, f, level, v) == Translate(mem, at, next, level - 1, v)
  {
    Step(mem, at, f, v);
    assert IsLink(level, Flags(next));
  }

  lemma AtEmpty(mem: Memory, at: Layout, f: Frame, level: nat, v: nat)
    requires Walking(mem, at, f, v) && level == at[f].level && level > 1
    requires f in mem && |mem[f]| == 512 && mem[f][Index(level, v)] == Zero
    ensures Translate(mem, at, f, level, v) == None
  {
  }

  // From a table of the walk of page 0 alone.
  lemma LowWalk(mem: Memory, at: Layout, base: Frame, pfn: nat, extra: nat, k: nat, v: nat)
    requires Built(mem, base, pfn, extra) && ExtraTables(pfn, extra) && 4 <= k <= 3 + extra
    requires Walking(mem, at, base + k, v) && at[base + k].level == 4 + extra - k && Block(5 + extra - k, v) == 0
    ensures Translate(mem, at, base + k, 4 + extra - k, v) == if v < 256 then Some(Itself(v)) else None
    decreases 3 + extra - k
  {
    var level := 4 + extra - k;
    assert TableBuilt(mem, base, pfn, extra, k);
    InAddressSpace(v);
    Step(mem, at, base + k, v);
    var i := Index(level, v);
    assert mem[base + k][i] == EntryAt(base, pfn, extra, k, i);
    if level == 1 {
      assert i == v;
    } else if Index(level, v) == 0 {
      ThroughLink(mem, at, base + k, level, v, base + k + 1);
      LowWalk(mem, at, base, pfn, extra, k + 1, v);
    } else {
      assert Empty(level, mem[base + k][Index(level, v)], v);
    }
  }

  // At the end of the walk of the mailbox.
  lemma ChainLeaf(base: Frame, pfn: nat, extra: nat, v: nat)
    requires ExtraTables(pfn, extra) && Block(2, v) == Block(2, pfn)
    ensures var e := EntryAt(base, pfn, extra, 3, Index(1, v));
      if v == pfn || (extra == 0 && v < 256) then e == Flags(v) else Empty(1, e, v)
  {
    InAddressSpace(v);
    InAddressSpace(pfn);
    assert v == 512 * Block(2, v) + Index(1, v) && pfn == 512 * Block(2, pfn) + Index(1, pfn);
  }

  // Above it, the entry for v links to page 0's walk, to the mailbox's, or is empty.
  lemma ChainEntry(base: Frame, pfn: nat, extra: nat, k: nat, v: nat)
    requires ExtraTables(pfn, extra) && k < 3 && Block(5 - k, v) == Block(5 - k, pfn)
    ensures var level := 4 - k;
      var i := Index(level, v);
      var e := EntryAt(base, pfn, extra, k, i);
      if k + extra == 3 && i == 0 then e == Flags(base + 4) && Block(level, v) == 0 && v != pfn
      else if i == Index(level, pfn) then
        e == Flags(base + k + 1) && Block(level, v) == Block(level, pfn) && (k + extra == 3 ==> v >= 256)
      else e == Zero && v != pfn && (k + extra <= 3 ==> v >= 256)
  {
    InAddressSpace(v);
    if k + extra <= 3 { SharedAbove(pfn, extra, 5 - k); }
    if k + extra < 3 { SharedAbove(pfn, extra, 4 - k); }
  }

  lemma ChainStep(mem: Memory, base: Frame, pfn: nat, extra: nat, k: nat, v: nat)
    requires Built(mem, base, pfn, extra) && ExtraTables(pfn, extra) && k < 3 && Block(5 - k, v) == Block(5 - k, pfn)
    ensures base + k in mem && |mem[base + k]| == 512
    ensures var level := 4 - k;
      var i := Index(level, v);
      var e := mem[base + k][i];
      if k + extra == 3 && i == 0 then e == Flags(base + 4) && Block(level, v) == 0 && v != pfn
      else if i == Index(level, pfn) then
        e == Flags(base + k + 1) && Block(level, v) == Block(level, pfn) && (k + extra == 3 ==> v >= 256)
      else e == Zero && v != pfn && (k + extra <= 3 ==> v >= 256)
  {
    assert TableBuilt(mem, base, pfn, extra, k);
    ChainEntry(base, pfn, extra, k, v);
  }

  lemma ChainEnd(mem: Memory, at: Layout, base: Frame, pfn: nat, extra: nat, v: nat)
    requires Built(mem, base, pfn, extra) && ExtraTables(pfn, extra)
    requires Walking(mem, at, base + 3, v) && at[base + 3].level == 1 && Block(2, v) == Block(2, pfn)
    ensures Translate(mem, at, base + 3, 1, v) ==
            if v == pfn || (extra == 0 && v < 256) then Some(Itself(v)) else None
  {
    assert TableBuilt(mem, base, pfn, extra, 3);
    ChainLeaf(base, pfn, extra, v);
    Step(mem, at, base + 3, v);
  }

  // From a table of the walk of the mailbox.
  lemma ChainWalk(mem: Memory, at: Layout, base: Frame, pfn: nat, extra: nat, k: nat, v: nat)
    requires Built(mem, base, pfn, extra) && ExtraTables(pfn, extra) && k <= 3
    requires Walking(mem, at, base + k, v) && at[base + k].level == 4 - k && Block(5 - k, v) == Block(5 - k, pfn)
    ensures Translate(mem, at, base + k, 4 - k, v) ==
            if v == pfn || (k + extra <= 3 && v < 256) then Some(Itself(v)) else None
    decreases 3 - k
  {
    var level := 4 - k;
    if k == 3 {
      ChainEnd(mem, at, base, pfn, extra, v);
    } else {
      ChainStep(mem, base, pfn, extra, k, v);
      if k + extra == 3 && Index(level, v) == 0 {
        ThroughLink(mem, at, base + k, level, v, base + 4);
        LowWalk(mem, at, base, pfn, extra, 4, v);
      } else if Index(level, v) == Index(level, pfn) {
        ThroughLink(mem, at, base + k, level, v, base + k + 1);
        ChainWalk(mem, at, base, pfn, extra, k + 1, v);
      } else {
        AtEmpty(mem, at, base + k, level, v);
      }
    }
  }

  // The tables translate exactly the low 1 MiB and the mailbox page.
  lemma MapsExactly(mem: Memory, base: Frame, pfn: nat, extra: nat, v: nat)
    requires Built(mem, base, pfn, extra) && ExtraTables(pfn, extra) && pfn < PAGES && v < PAGES
    ensures Walking(mem, Places(base, pfn, extra), base, v)
    ensures Translate(mem, Places(base, pfn, extra), base, 4, v) ==
            if v < 256 || v == pfn then Some(Itself(v)) else None
  {
    TreeBuilt(mem, base, pfn, extra);
    InAddressSpace(v);
    InAddressSpace(pfn);
    ChainWalk(mem, Places(base, pfn, extra), base, pfn, extra, 0, v);
  }

  // ---- Building the tables ----

  ghost predicate Filled(tables: array2<Entry>, base: Frame, pfn: nat, extra: nat, chain: nat, links: nat, low: nat)
    reads tables
  {
    && tables.Length0 == 4 + extra && tables.Length1 == 512
    && forall k, i :: 0 <= k < 4 + extra && 0 <= i < 512 ==>
         tables[k, i] == Partial(base, pfn, extra, chain, links, low, k, i)
  }

  // The walk of the mailbox.
  method FillChain(tables: array2<Entry>, base: Frame, pfn: nat, extra: nat)
    requires Filled(tables, base, pfn, extra, 0, 0, 0)
    modifies tables
    ensures Filled(tables, base, pfn, extra, 4, 0, 0)
  {
    var index := 0;
    while index < 4
      invariant index <= 4 && Filled(tables, base, pfn, extra, index, 0, 0)
    {
      tables[index, Index(4 - index, pfn)] := Flags(if index == 3 then pfn else base + index + 1);
      index := index + 1;
    }
  }

  // The extra tables; returns the number of the last one.
  method FillLinks(tables: array2<Entry>, base: Frame, pfn: nat, extra: nat) returns (index: nat)
    requires ExtraTables(pfn, extra) && Filled(tables, base, pfn, extra, 4, 0, 0)
    modifies tables
    ensures Filled(tables, base, pfn, extra, 4, extra, 0) && index == 3 + extra
  {
    var shared := 3 - extra;
    var current, level := shared, shared;
    index := 3;
    while level < 3
      invariant shared <= level <= 3 && index == 3 + level - shared
      invariant current == if level == shared then shared else index
      invariant Filled(tables, base, pfn, extra, 4, level - shared, 0)
    {
      tables[current, 0] := Flags(base + index + 1);
      index := index + 1;
      current := index;
      level := level + 1;
    }
  }

  // The identity map of the low 1 MiB.
  method FillLow(tables: array2<Entry>, base: Frame, pfn: nat, extra: nat, index: nat)
    requires ExtraTables(pfn, extra) && Filled(tables, base, pfn, extra, 4, extra, 0) && index == 3 + extra
    modifies tables
    ensures Filled(tables, base, pfn, extra, 4, extra, 256)
  {
    var pte := 0;
    while pte < 256
      invariant pte <= 256 && Filled(tables, base, pfn, extra, 4, extra, pte)
    {
      tables[index, pte] := Flags(pte);
      pte := pte + 1;
    }
  }

  // The pages of the tables as memory.
  ghost function Row(tables: array2<Entry>, base: Frame, f: Frame): seq<Entry>
    reads tables
    requires base <= f < base + tables.Length0 && tables.Length1 == 512
  {
    seq(512, i requires 0 <= i < 512 reads tables => tables[f - base, i])
  }

  ghost function AsMemory(tables: array2<Entry>, base: Frame): Memory
    reads tables
    requires tables.Length1 == 512
  {
    map f: Frame | base <= f < base + tables.Length0 :: Row(tables, base, f)
  }

  // region is the outcome of AllocatePages for the given number of pages.
  method InitializeMpPageTables(pfn: nat, region: Option<Frame>) returns (r: Option<(Frame, array2<Entry>)>, pages: nat)
    requires pfn < PAGES
    ensures 4 <= pages <= 7 && ExtraTables(pfn, pages - 4) && (r.Some? <==> region.Some?)
    ensures r.Some? ==>
      var (base, tables) := r.value;
      && base == region.value && tables.Length0 == pages && tables.Length1 == 512
      && forall v: nat :: v < PAGES ==>
        && Walking(AsMemory(tables, base), Places(base, pfn, pages - 4), base, v)
        && Translate(AsMemory(tables, base), Places(base, pfn, pages - 4), base, 4, v) ==
           if v < 256 || v == pfn then Some(Itself(v)) else None
  {
    var extra := 0;
    while extra < 3 && Block(extra + 2, pfn) != 0
      invariant extra <= 3 && (extra > 0 ==> Block(extra + 1, pfn) != 0)
    {
      extra := extra + 1;
    }
    InAddressSpace(pfn);
    r, pages := None, 4 + extra;
    if region.Some? {
      var base := region.value;
      var tables := new Entry[4 + extra, 512]((_, _) => Zero);
      FillChain(tables, base, pfn, extra);
      var index := FillLinks(tables, base, pfn, extra);
      FillLow(tables, base, pfn, extra, index);
      forall k: nat | k < 4 + extra ensures TableBuilt(AsMemory(tables, base), base, pfn, extra, k) {}
      forall v: nat | v < PAGES
        ensures Walking(AsMemory(tables, base), Places(base, pfn, extra), base, v)
        ensures Translate(AsMemory(tables, base), Places(base, pfn, extra), base, 4, v) ==
                if v < 256 || v == pfn then Some(Itself(v)) else None
      {
        MapsExactly(AsMemory(tables, base), base, pfn, extra, v);
      }
      r := Some((base, tables));
    }
  }
}
