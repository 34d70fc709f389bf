// Small address spaces on which the source's promises fail.
module PageTableExamples {
  import opened Common
  import opened PageTables
  import opened PageTableEdit
  import opened PageTableSteps
  import opened PageTableQuery

  // ---- One chain of tables ----

  // Tables 0, 1, ... at levels 4, 3, ..., each but the last with nothing but a
  // link to the next; the last, at the given level, holds these entries.
  ghost function Column(level: nat, page: seq<Entry>): Space
    requires 1 <= level <= 3 && |page| == 512
  {
    Space(map f | f in Frames(level) :: if f == 4 - level then page else Linking(f + 1),
          map f | f in Frames(level) :: Place(4 - f, 0), 0, 4)
  }

  ghost function Frames(level: nat): (r: set<Frame>)
    requires 1 <= level <= 3
    ensures forall f :: f in r <==> 0 <= f <= 4 - level
  {
    match level case 1 => {0, 1, 2, 3} case 2 => {0, 1, 2} case 3 => {0, 1}
  }

  ghost function Linking(f: Frame): seq<Entry> {
    seq(512, i => if i == 0 then SplitLink(f, false) else Zero)
  }

  // A table with entries 1 and 2.
  ghost function Pair(one: Entry, two: Entry): seq<Entry> {
    seq(512, i => if i == 1 then one else if i == 2 then two else Zero)
  }

  ghost predicate NoLinks(level: nat, page: seq<Entry>) {
    forall i :: 0 <= i < |page| ==> !IsLink(level, page[i])
  }

  lemma ColumnOk(level: nat, page: seq<Entry>)
    requires 1 <= level <= 3 && |page| == 512 && NoLinks(level, page)
    ensures Ok(Column(level, page))
  {
    var c := Column(level, page);
    forall f | f in c.at ensures TableOk(c.mem, c.at, f) {
      forall i | 0 <= i < 512 ensures EntryOk(c.mem, c.at, f, i) {
      }
    }
  }

  // A page below the last table's reach is looked up in it.
  lemma {:induction false} ColumnWalk(level: nat, page: seq<Entry>, f: Frame, v: nat)
    requires 1 <= level <= 3 && |page| == 512 && Ok(Column(level, page)) && NoLinks(level, page)
    requires f <= 4 - level && Block(level + 1, v) == 0
    ensures var c := Column(level, page);
      && Walking(c.mem, c.at, f, v)
      && Lookup(c.mem, c.at, f, 4 - f, v) ==
         if Empty(level, page[Index(level, v)], v) then None else Some(Leaf(4 - level, Index(level, v), level))
    decreases 4 - f
  {
    var c := Column(level, page);
    BlockStaysZero(level + 1, 5 - f, v);
    Step(c.mem, c.at, f, v);
    if f < 4 - level {
      BlockStaysZero(level + 1, 4 - f, v);
      ColumnWalk(level, page, f + 1, v);
    }
  }

  lemma {:induction false} BlockStaysZero(low: nat, high: nat, v: nat)
    requires 1 <= low <= high && Block(low, v) == 0
    ensures Block(high, v) == 0
  {
    if low < high { BlockStaysZero(low, high - 1, v); }
  }

  lemma ColumnSeen(level: nat, page: seq<Entry>, v: nat)
    requires 1 <= level <= 3 && |page| == 512 && NoLinks(level, page) && Block(level + 1, v) == 0
    requires !Empty(level, page[Index(level, v)], v)
    ensures var c, leaf := Column(level, page), Leaf(4 - level, Index(level, v), level);
      && Ok(c) && Inside(c.levels, v) && Seen(c, v) == Some(leaf) && At(c, leaf) == page[Index(level, v)]
  {
    ColumnOk(level, page);
    BlockStaysZero(level + 1, 5, v);
    ColumnWalk(level, page, 0, v);
  }

  // ---- Pages that are lost ----

  // Page 1 maps physical page 0 with nothing but RW. Setting RO leaves a zero
  // entry, and the page is no longer mapped.
  lemma ConvertLoses(xd: bool, sev: bool)
    ensures var page := Pair(Zero.(writable := true), Zero);
      var c, leaf, job := Column(1, page), Leaf(3, 1, 1), Job({RO}, Set, xd, sev);
      && Ok(c) && Inside(c.levels, 1) && View(c, 1).Some? && Holds(c, leaf) && Ok(Converted(c, leaf, job))
      && View(Converted(c, leaf, job), 1).None?
  {
    var page, job := Pair(Zero.(writable := true), Zero), Job({RO}, Set, xd, sev);
    assert Block(2, 1) == 0 && Index(1, 1) == 1;
    ColumnSeen(1, page, 1);
    ConvertLeaf(Column(1, page), 1, Leaf(3, 1, 1), job, 1);
  }

  // The 2 MiB leaf over pages 512..1023 maps physical page 0 with nothing but PS.
  // Splitting it loses page 512.
  lemma SplitLoses(spare: Frame)
    requires spare > 2
    ensures var page := Pair(Zero.(large := true), Zero);
      var c, leaf := Column(2, page), Leaf(2, 1, 2);
      && Ok(c) && Inside(c.levels, 512) && View(c, 512).Some? && Holds(c, leaf) && Ok(Splitted(c, leaf, spare, false))
      && View(Splitted(c, leaf, spare, false), 512).None?
  {
    var page := Pair(Zero.(large := true), Zero);
    assert Block(2, 512) == 1 && Block(3, 512) == 0 && Index(2, 512) == 1;
    ColumnSeen(2, page, 512);
    SplitLeaf(Column(2, page), 512, Leaf(2, 1, 2), spare, false, 512);
  }

  // ---- Attributes misread ----

  // Whatever page b + 1 is mapped to: if page b has a 4 KiB leaf with a shared bit
  // that is not in the encryption mask, asking for both pages finds the attributes
  // of page b.
  lemma SharedHidesNext(c: Space, b: nat, leaf: Leaf, extra: nat)
    requires Ok(c) && Inside(c.levels, b) && Seen(c, b) == Some(leaf) && leaf.level == 1 && extra >= 2
    requires At(c, leaf).enc && At(c, leaf).frame == b
    ensures AttributesAt(c, b).Some?
    ensures Uniform(ReadingOf(c, false, extra), b, b + 2, AttributesAt(c, b).value)
  {
    SeenHolds(c, b, leaf);
    assert LeafPage(1, b, b) == b;
    LeafRun(c, b, leaf, b);
    var f := ReadingOf(c, false, extra);
    assert f.stop(b) == b + 1 && f.shared(b) && SharedEnds(f, b, b + 2);
    BlindAfter(f, b, b + 2, AttributesAt(c, b).value);
  }

  // Page 1 is mapped to itself with a shared bit, page 2 to itself and read-only.
  // Asking for both finds no attributes.
  lemma SharedHidesReadOnly(extra: nat)
    requires extra >= 2
    ensures var one := Zero.(frame := 1, present := true, writable := true, enc := true);
      var two := Zero.(frame := 2, present := true);
      var c := Column(1, Pair(one, two));
      && Ok(c) && AttributesAt(c, 2) == Some({RO}) && Uniform(ReadingOf(c, false, extra), 1, 3, {})
  {
    var one := Zero.(frame := 1, present := true, writable := true, enc := true);
    var two := Zero.(frame := 2, present := true);
    var page := Pair(one, two);
    assert Block(2, 1) == 0 && Block(2, 2) == 0 && Index(1, 1) == 1 && Index(1, 2) == 2;
    ColumnSeen(1, page, 1);
    ColumnSeen(1, page, 2);
    EntryHas(Column(1, page), 1, Leaf(3, 1, 1), {});
    EntryHas(Column(1, page), 2, Leaf(3, 2, 1), {RO});
    SharedHidesNext(Column(1, page), 1, Leaf(3, 1, 1), extra);
  }

  lemma EntryHas(c: Space, b: nat, leaf: Leaf, attrs: set<Attr>)
    requires Ok(c) && Inside(c.levels, b) && Seen(c, b) == Some(leaf) && leaf.level == 1 && At(c, leaf).frame == b
    requires var e := At(c, leaf); EntryAttributes(e.present, e.writable, e.nx) == attrs
    ensures AttributesAt(c, b) == Some(attrs)
  {
    SeenHolds(c, b, leaf);
  }
}
