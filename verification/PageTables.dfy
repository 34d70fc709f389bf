// x86-64 page tables as CpuPageTable.c walks them: a memory of 512-entry tables
// linked into a tree, and the translation it gives every virtual page.
//
// Addresses are counted in 4 KiB pages. Levels are numbered as in the source: a
// level 1 entry maps 4 KiB, a level 2 entry 2 MiB, a level 3 entry 1 GiB; the
// root is at level 4 or 5.
module PageTables {
  import opened Common

  type Frame = nat

  // A 64-bit entry. frame is its address field without the encryption bit enc;
  // rest holds the bits that no operation here looks at (WT, CD, PAT, G, ...).
  datatype Entry = Entry(frame: Frame, present: bool, writable: bool, nx: bool,
                         user: bool, accessed: bool, dirty: bool, large: bool, enc: bool, rest: nat)

  const Zero := Entry(0, false, false, false, false, false, false, false, false, 0)

  type Memory = map<Frame, seq<Entry>>

  // ---- Addresses ----

  // The number of the entry-sized block that page v lies in: v shifted right by
  // nine bits for every level above the first.
  function Block(level: nat, v: nat): (r: nat) {
    if level <= 1 then v else Block(level - 1, v) / 512
  }

  // The 9-bit index of page v into a table at this level.
  function Index(level: nat, v: nat): (r: nat)
    ensures r < 512
  {
    Block(level, v) % 512
  }

  // ---- The tree of tables ----

  // A table's level and the block it covers. That every table has one place is
  // what makes the tables a tree.
  datatype Place = Place(level: nat, block: nat)

  type Layout = map<Frame, Place>

  ghost predicate In(p: Place, v: nat) {
    Block(p.level + 1, v) == p.block
  }

  predicate IsLink(level: nat, e: Entry) {
    e != Zero && level > 1 && !(level <= 3 && e.large)
  }

  ghost predicate EntryOk(mem: Memory, at: Layout, f: Frame, i: nat) {
    && f in at && f in mem && i < |mem[f]|
    && (IsLink(at[f].level, mem[f][i]) ==>
          && mem[f][i].frame in at
          && at[mem[f][i].frame] == Place(at[f].level - 1, 512 * at[f].block + i))
  }

  ghost predicate TableOk(mem: Memory, at: Layout, f: Frame) {
    && f in at && f in mem && |mem[f]| == 512 && at[f].level >= 1
    && forall i :: 0 <= i < 512 ==> EntryOk(mem, at, f, i)
  }

  ghost predicate Tree(mem: Memory, at: Layout) {
    forall f :: f in at ==> TableOk(mem, at, f)
  }

  // A walk of page v may be at table f.
  ghost predicate Walking(mem: Memory, at: Layout, f: Frame, v: nat) {
    Tree(mem, at) && f in at && In(at[f], v)
  }

  lemma Step(mem: Memory, at: Layout, f: Frame, v: nat)
    requires Walking(mem, at, f, v)
    ensures TableOk(mem, at, f)
    ensures 512 * at[f].block + Index(at[f].level, v) == Block(at[f].level, v)
    ensures var e := mem[f][Index(at[f].level, v)];
      IsLink(at[f].level, e) ==> Walking(mem, at, e.frame, v) && at[e.frame].level == at[f].level - 1
  {
    assert TableOk(mem, at, f);
    assert EntryOk(mem, at, f, Index(at[f].level, v));
  }

  // ---- Walks ----

  datatype Leaf = Leaf(table: Frame, index: nat, level: nat)

  // The walk stops at an empty entry; the first page's is taken as mapped.
  predicate Empty(level: nat, e: Entry, v: nat) {
    e == Zero && (level > 1 || v != 0)
  }

  // GetPageTableEntry.
  function Lookup(mem: Memory, ghost at: Layout, f: Frame, level: nat, v: nat): (r: Option<Leaf>)
    requires Walking(mem, at, f, v) && at[f].level == level
    decreases level
  {
    Step(mem, at, f, v);
    var i := Index(level, v);
    var e := mem[f][i];
    if Empty(level, e, v) then None
    else if IsLink(level, e) then Lookup(mem, at, e.frame, level - 1, v)
    else Some(Leaf(f, i, level))
  }

  // What page v is mapped to, with the flags of its leaf entry and the P, RW and
  // NX bits accumulated over the entries above the leaf.
  datatype Mapping = Mapping(pfn: nat, present: bool, writable: bool, nx: bool,
                             user: bool, accessed: bool, dirty: bool, enc: bool,
                             pathPresent: bool, pathWritable: bool, pathNx: bool)

  // The page that lies in a given block at the offset that page v has in its own.
  function Compose(level: nat, block: nat, v: nat): (r: nat) {
    if level <= 1 then block else Compose(level - 1, 512 * block + Index(level - 1, v), v)
  }

  // The page mapped by a leaf: its address field with the bits below the leaf's
  // alignment masked off, plus the page's offset in the leaf.
  function LeafPage(level: nat, frame: Frame, v: nat): nat {
    Compose(level, Block(level, frame), v)
  }

  lemma LeafPageMasks(frame: Frame, v: nat)
    ensures LeafPage(1, frame, v) == frame
    ensures LeafPage(2, frame, v) == frame / 512 * 512 + v % 512
    ensures LeafPage(3, frame, v) == frame / 0x4_0000 * 0x4_0000 + v % 0x4_0000
  {
    assert Block(2, v) == v / 512 && Block(2, frame) == frame / 512 && Block(3, frame) == frame / 512 / 512;
    assert LeafPage(2, frame, v) == Compose(1, 512 * Block(2, frame) + Index(1, v), v);
    assert Index(1, v) == v % 512 && Index(2, v) == v / 512 % 512;
    var b := 512 * Block(3, frame) + Index(2, v);
    assert Compose(2, b, v) == Compose(1, 512 * b + Index(1, v), v);
    assert LeafPage(3, frame, v) == 512 * b + Index(1, v);
  }

  function LeafMapping(level: nat, e: Entry, v: nat): Mapping {
    Mapping(LeafPage(level, e.frame, v), e.present, e.writable, e.nx,
            e.user, e.accessed, e.dirty, e.enc, true, true, false)
  }

  function Under(e: Entry, m: Option<Mapping>): Option<Mapping> {
    match m
    case None => None
    case Some(x) => Some(x.(pathPresent := e.present && x.pathPresent,
                            pathWritable := e.writable && x.pathWritable,
                            pathNx := e.nx || x.pathNx))
  }

  ghost function Translate(mem: Memory, at: Layout, f: Frame, level: nat, v: nat): (r: Option<Mapping>)
    requires Walking(mem, at, f, v) && at[f].level == level
    decreases level
  {
    Step(mem, at, f, v);
    var e := mem[f][Index(level, v)];
    if Empty(level, e, v) then None
    else if IsLink(level, e) then Under(e, Translate(mem, at, e.frame, level - 1, v))
    else Some(LeafMapping(level, e, v))
  }

  // ---- Where a walk ends ----

  // A leaf's entry covers the page it was looked up for.
  lemma {:induction false} LookupCovers(mem: Memory, at: Layout, f: Frame, level: nat, v: nat)
    requires Walking(mem, at, f, v) && at[f].level == level
    requires Lookup(mem, at, f, level, v).Some?
    ensures var leaf := Lookup(mem, at, f, level, v).value;
      && 1 <= leaf.level <= 3 && leaf.level <= level && TableOk(mem, at, leaf.table)
      && leaf.level == at[leaf.table].level && leaf.index == Index(leaf.level, v)
      && 512 * at[leaf.table].block + leaf.index == Block(leaf.level, v)
      && !IsLink(leaf.level, mem[leaf.table][leaf.index])
      && !Empty(leaf.level, mem[leaf.table][leaf.index], v)
    decreases level
  {
    Step(mem, at, f, v);
    var e := mem[f][Index(level, v)];
    if IsLink(level, e) { LookupCovers(mem, at, e.frame, level - 1, v); }
  }

  // Pages in one block at some level are in one block at every level above.
  lemma {:induction false} SameBlock(low: nat, high: nat, v: nat, w: nat)
    requires 1 <= low <= high && Block(low, v) == Block(low, w)
    ensures Block(high, v) == Block(high, w)
  {
    if low < high { SameBlock(low, high - 1, v, w); }
  }

  // All pages of a leaf's block end at that leaf.
  lemma {:induction false} SameLeaf(mem: Memory, at: Layout, f: Frame, level: nat, v: nat, w: nat)
    requires Walking(mem, at, f, v) && at[f].level == level
    requires Lookup(mem, at, f, level, v).Some?
    requires var l := Lookup(mem, at, f, level, v).value.level; Block(l, v) == Block(l, w)
    ensures Walking(mem, at, f, w) && Lookup(mem, at, f, level, w) == Lookup(mem, at, f, level, v)
    decreases level
  {
    Step(mem, at, f, v);
    var l := Lookup(mem, at, f, level, v).value.level;
    LookupCovers(mem, at, f, level, v);
    SameBlock(l, level, v, w);
    SameBlock(l, level + 1, v, w);
    Step(mem, at, f, w);
    var e := mem[f][Index(level, v)];
    if IsLink(level, e) { SameLeaf(mem, at, e.frame, level - 1, v, w); }
  }
}
