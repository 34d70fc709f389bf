// The two steps of ConvertMemoryPageAttributes on an address space: rewriting
// the leaf of a page and splitting it, each with what it does to every page.
module PageTableSteps {
  import opened Common
  import opened PageTables
  import opened PageTableEdit

  // ---- An address space ----

  datatype Space = Space(mem: Memory, at: Layout, root: Frame, levels: nat)

  ghost predicate Ok(c: Space) {
    4 <= c.levels <= 5 && Tree(c.mem, c.at) && c.root in c.at && c.at[c.root] == Place(c.levels, 0)
  }

  // Page v is below the top of the address space.
  predicate Inside(levels: nat, v: nat) {
    Block(levels + 1, v) == 0
  }

  ghost function View(c: Space, v: nat): Option<Mapping>
    requires Ok(c) && Inside(c.levels, v)
  {
    Translate(c.mem, c.at, c.root, c.levels, v)
  }

  ghost function Seen(c: Space, v: nat): Option<Leaf>
    requires Ok(c) && Inside(c.levels, v)
  {
    Lookup(c.mem, c.at, c.root, c.levels, v)
  }

  // The entry of a leaf.
  ghost function At(c: Space, leaf: Leaf): Entry {
    if leaf.table in c.mem && leaf.index < |c.mem[leaf.table]| then c.mem[leaf.table][leaf.index] else Zero
  }

  // A leaf that a walk found is an entry of some table.
  ghost predicate Holds(c: Space, leaf: Leaf) {
    && leaf.table in c.mem && leaf.index < |c.mem[leaf.table]| == 512
    && leaf.table in c.at && c.at[leaf.table].level == leaf.level && 1 <= leaf.level <= 3
  }

  lemma SeenHolds(c: Space, b: nat, leaf: Leaf)
    requires Ok(c) && Inside(c.levels, b) && Seen(c, b) == Some(leaf)
    ensures Holds(c, leaf) && TableOk(c.mem, c.at, leaf.table) && leaf.index == Index(leaf.level, b)
    ensures 512 * c.at[leaf.table].block + leaf.index == Block(leaf.level, b)
    ensures !IsLink(leaf.level, At(c, leaf)) && !Empty(leaf.level, At(c, leaf), b)
    ensures View(c, b).Some? && View(c, b).value == Rebase(View(c, b).value, LeafMapping(leaf.level, At(c, leaf), b))
  {
    LookupCovers(c.mem, c.at, c.root, c.levels, b);
    LeafOf(c.mem, c.at, c.root, c.levels, b);
  }

  lemma SeenIsMapped(c: Space, b: nat)
    requires Ok(c) && Inside(c.levels, b)
    ensures Seen(c, b).Some? <==> View(c, b).Some?
  {
    LeafOf(c.mem, c.at, c.root, c.levels, b);
  }

  // Pages of one leaf's block end at that leaf.
  lemma SeenTogether(c: Space, b: nat, leaf: Leaf, v: nat)
    requires Ok(c) && Inside(c.levels, b) && Inside(c.levels, v)
    requires Seen(c, b) == Some(leaf) && Block(leaf.level, v) == Block(leaf.level, b)
    ensures Seen(c, v) == Some(leaf)
  {
    SameLeaf(c.mem, c.at, c.root, c.levels, b, v);
  }

  // ---- Rewriting a leaf ----

  ghost function Converted(c: Space, leaf: Leaf, job: Job): Space
    requires Holds(c, leaf)
  {
    c.(mem := WriteEntry(c.mem, leaf.table, leaf.index, ConvertEntry(At(c, leaf), job)))
  }

  function Mapped(m: Option<Mapping>, job: Job): Option<Mapping> {
    match m case None => None case Some(x) => Some(EditMapping(x, job))
  }

  lemma EditRebase(was: Mapping, m: Mapping, job: Job)
    requires was == Rebase(was, m)
    ensures Rebase(was, EditMapping(m, job)) == EditMapping(was, job)
  {
  }

  // Rewriting the leaf of page b edits exactly the pages of its block, and drops
  // exactly a page whose entry becomes zero.
  lemma ConvertLeaf(c: Space, b: nat, leaf: Leaf, job: Job, v: nat)
    requires Ok(c) && Inside(c.levels, b) && Inside(c.levels, v) && Seen(c, b) == Some(leaf)
    ensures Holds(c, leaf) && Ok(Converted(c, leaf, job))
    ensures var c', same := Converted(c, leaf, job), Block(leaf.level, v) == Block(leaf.level, b);
      var gone := same && ConvertDrops(leaf.level, At(c, leaf), v, job);
      && Seen(c', v) == (if gone then None else Seen(c, v))
      && View(c', v) == if gone then None else if same then Mapped(View(c, v), job) else View(c, v)
    ensures Block(leaf.level, v) == Block(leaf.level, b) ==> View(c, v).Some?
  {
    SeenHolds(c, b, leaf);
    var e' := ConvertEntry(At(c, leaf), job);
    ConvertDropsExactly(leaf.level, At(c, leaf), b, job);
    WriteKeepsTree(c.mem, c.at, leaf.table, leaf.index, e');
    if Block(leaf.level, v) == Block(leaf.level, b) {
      SeenTogether(c, b, leaf, v);
      ConvertInside(c, leaf, job, v);
    } else {
      WriteOutside(c.mem, c.at, leaf.table, leaf.index, e', c.root, c.levels, v);
    }
  }

  lemma ConvertInside(c: Space, leaf: Leaf, job: Job, v: nat)
    requires Ok(c) && Inside(c.levels, v) && Seen(c, v) == Some(leaf)
    requires Holds(c, leaf) && Ok(Converted(c, leaf, job))
    ensures var c', gone := Converted(c, leaf, job), ConvertDrops(leaf.level, At(c, leaf), v, job);
      && Seen(c', v) == (if gone then None else Some(leaf))
      && View(c, v).Some? && View(c', v) == if gone then None else Mapped(View(c, v), job)
  {
    SeenHolds(c, v, leaf);
    var e := At(c, leaf);
    ConvertDropsExactly(leaf.level, e, v, job);
    WriteInside(c.mem, c.at, ConvertEntry(e, job), c.root, c.levels, v);
    ConvertEntryMeans(leaf.level, e, v, job);
    EditRebase(View(c, v).value, LeafMapping(leaf.level, e, v), job);
  }

  // ---- Splitting a leaf ----

  ghost function Splitted(c: Space, leaf: Leaf, spare: Frame, sev: bool): Space
    requires Holds(c, leaf)
  {
    c.(mem := SplitMemory(c.mem, leaf.table, leaf.index, leaf.level, spare, sev),
       at := SplitLayout(c.at, leaf.table, leaf.index, spare))
  }

  // Splitting the leaf of page b gives every page of its block a smaller leaf and
  // the same translation, and drops exactly a page whose new entry is zero.
  lemma SplitLeaf(c: Space, b: nat, leaf: Leaf, spare: Frame, sev: bool, v: nat)
    requires Ok(c) && Inside(c.levels, b) && Inside(c.levels, v) && Seen(c, b) == Some(leaf)
    requires leaf.level > 1 && spare !in c.at
    ensures Holds(c, leaf) && Ok(Splitted(c, leaf, spare, sev))
    ensures var c', same := Splitted(c, leaf, spare, sev), Block(leaf.level, v) == Block(leaf.level, b);
      var gone := same && SplitDrops(leaf.level, At(c, leaf), v, sev);
      && Seen(c', v) == (if gone then None
                         else if same then Some(Leaf(spare, Index(leaf.level - 1, v), leaf.level - 1)) else Seen(c, v))
      && (same ==> View(c, v).Some?)
      && View(c', v) == if gone then None
                        else if same then Some(View(c, v).value.(enc := sev || View(c, v).value.enc)) else View(c, v)
  {
    SeenHolds(c, b, leaf);
    SplitKeepsTree(c.mem, c.at, leaf.table, leaf.index, spare, sev);
    if Block(leaf.level, v) == Block(leaf.level, b) {
      SeenTogether(c, b, leaf, v);
      SeenHolds(c, v, leaf);
      SplitInside(c.mem, c.at, leaf, spare, sev, c.root, c.levels, v);
    } else {
      SplitOutside(c.mem, c.at, leaf.table, leaf.index, spare, sev, c.root, c.levels, v);
    }
  }

  // ---- When the steps keep the map ----

  // Every mapped page of one address space is mapped in the other.
  ghost predicate KeepsMap(c: Space, c': Space)
    requires Ok(c) && Ok(c') && c'.levels == c.levels
  {
    forall v: nat {:trigger View(c, v)} {:trigger View(c', v)} ::
      Inside(c.levels, v) && View(c, v).Some? ==> View(c', v).Some?
  }

  // Converting a leaf keeps the map exactly when the leaf is not a 4 KiB entry of
  // a page other than the first that maps physical page 0 with no bit beside P,
  // RW and NX, all three of which the request leaves clear.
  lemma ConvertKeepsMapExactly(c: Space, b: nat, leaf: Leaf, job: Job)
    requires Ok(c) && Inside(c.levels, b) && Seen(c, b) == Some(leaf)
    ensures Holds(c, leaf) && Ok(Converted(c, leaf, job))
    ensures KeepsMap(c, Converted(c, leaf, job)) <==>
      !(leaf.level == 1 && b != 0 && Bare(At(c, leaf)) && Clears(At(c, leaf), job))
  {
    ConvertLeaf(c, b, leaf, job, b);
    var c' := Converted(c, leaf, job);
    if !ConvertDrops(leaf.level, At(c, leaf), b, job) {
      forall v: nat | Inside(c.levels, v) && View(c, v).Some? ensures View(c', v).Some? {
        ConvertLeaf(c, b, leaf, job, v);
      }
    } else {
      assert View(c, b).Some? && View(c', b).None?;
    }
  }

  // Splitting a leaf keeps the map exactly when it is not a 2 MiB leaf over pages
  // other than the first that maps physical page 0 with no bit the split hands
  // on, on a platform without an encryption bit.
  lemma SplitKeepsMapExactly(c: Space, b: nat, leaf: Leaf, spare: Frame, sev: bool)
    requires Ok(c) && Inside(c.levels, b) && Seen(c, b) == Some(leaf) && leaf.level > 1 && spare !in c.at
    ensures Holds(c, leaf) && Ok(Splitted(c, leaf, spare, sev))
    ensures KeepsMap(c, Splitted(c, leaf, spare, sev)) <==> !(leaf.level == 2 && b >= 512 && Faint(At(c, leaf)) && !sev)
  {
    SplitLeaf(c, b, leaf, spare, sev, b);
    if leaf.level == 2 && b >= 512 && Faint(At(c, leaf)) && !sev {
      SplitLosesFirst(c, b, leaf, spare);
    } else {
      forall v: nat | Inside(c.levels, v) && View(c, v).Some? ensures View(Splitted(c, leaf, spare, sev), v).Some? {
        SplitKeepsPage(c, b, leaf, spare, sev, v);
      }
    }
  }

  lemma SplitKeepsPage(c: Space, b: nat, leaf: Leaf, spare: Frame, sev: bool, v: nat)
    requires Ok(c) && Inside(c.levels, b) && Seen(c, b) == Some(leaf) && leaf.level > 1 && spare !in c.at
    requires !(leaf.level == 2 && b >= 512 && Faint(At(c, leaf)) && !sev)
    requires Inside(c.levels, v) && View(c, v).Some?
    ensures Holds(c, leaf) && Ok(Splitted(c, leaf, spare, sev)) && View(Splitted(c, leaf, spare, sev), v).Some?
  {
    SplitLeaf(c, b, leaf, spare, sev, v);
    if leaf.level == 2 {
      LargeBlocks(b);
      LargeBlocks(v);
    }
  }

  lemma SplitLosesFirst(c: Space, b: nat, leaf: Leaf, spare: Frame)
    requires Ok(c) && Inside(c.levels, b) && Seen(c, b) == Some(leaf) && leaf.level == 2 && spare !in c.at
    requires b >= 512 && Faint(At(c, leaf))
    ensures Holds(c, leaf) && Ok(Splitted(c, leaf, spare, false)) && !KeepsMap(c, Splitted(c, leaf, spare, false))
  {
    var first := b / 512 * 512;
    LargeBlocks(b);
    LargeBlocks(first);
    SameBlock(2, c.levels + 1, b, first);
    SplitLeaf(c, b, leaf, spare, false, first);
    assert View(c, first).Some? && View(Splitted(c, leaf, spare, false), first).None?;
  }

  // Splitting keeps a page's encryption bit exactly when the platform has none to
  // set or the leaf already had it.
  lemma EncryptionKeptExactly(c: Space, b: nat, leaf: Leaf, spare: Frame, sev: bool)
    requires Ok(c) && Inside(c.levels, b) && Seen(c, b) == Some(leaf) && leaf.level > 1 && spare !in c.at
    ensures Holds(c, leaf) && Ok(Splitted(c, leaf, spare, sev)) && View(c, b).Some?
    ensures !SplitDrops(leaf.level, At(c, leaf), b, sev) ==>
      var now := View(Splitted(c, leaf, spare, sev), b);
      now.Some? && (now.value.enc == View(c, b).value.enc <==> !sev || At(c, leaf).enc)
  {
    SeenHolds(c, b, leaf);
    SplitLeaf(c, b, leaf, spare, sev, b);
  }

  // ---- Page sizes ----

  // PageAttributeToLength, in pages.
  function Span(level: nat): (r: nat)
    ensures r > 0
  {
    match level case 2 => 512 case 3 => 0x4_0000 case _ => 1
  }

  // The page is a multiple of the span.
  predicate AlignedTo(level: nat, b: nat) {
    match level case 2 => b % 512 == 0 case 3 => b % 0x4_0000 == 0 case _ => true
  }

  lemma LargeBlocks(v: nat)
    ensures Block(2, v) == v / 512 && Block(3, v) == v / 0x4_0000
  {
    assert Block(2, v) == v / 512;
    assert Block(3, v) == v / 512 / 512;
  }

  // A leaf-aligned page starts its block, which is Span pages long.
  lemma BlockRange(level: nat, b: nat, v: nat)
    requires 1 <= level <= 3 && AlignedTo(level, b)
    ensures Block(level, v) == Block(level, b) <==> b <= v < b + Span(level)
  {
    LargeBlocks(v);
    LargeBlocks(b);
  }

  lemma {:induction false} InsideBelow(level: nat, v: nat, w: nat)
    requires v <= w
    ensures Block(level, v) <= Block(level, w)
  {
    if level > 1 { InsideBelow(level - 1, v, w); }
  }

  // NeedSplitPage: 0 stands for PageNone, 1 for 4 KiB, 2 for 2 MiB. A leaf is left
  // whole exactly when the range covers it from its first page; a split is to a
  // smaller size, and to 2 MiB exactly when a 2 MiB page fits there.
  function NeedSplitPage(b: nat, len: nat, level: nat): (r: nat)
    requires len > 0
    ensures r == 0 <==> b % Span(level) == 0 && b + Span(level) <= b + len
    ensures r != 0 && 1 <= level <= 3 ==> 1 <= r < level
    ensures r == 2 ==> b % 512 == 0 && len >= 512
    ensures r == 1 && level == 3 ==> b % 512 != 0 || len < 512
  {
    if AlignedTo(level, b) && len >= Span(level) then 0
    else if b % 512 != 0 || len < 512 then 1
    else 2
  }
}
