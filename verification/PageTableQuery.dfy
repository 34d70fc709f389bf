// EfiGetMemoryAttributes: reading the attributes of a region back.
module PageTableQuery {
  import opened Common
  import opened PageTables
  import opened PageTableEdit
  import opened PageTableSteps

  function Least(a: nat, b: nat): nat { if a < b then a else b }

  // ---- The walk ----

  // What the loop reads off the tables at a page: the attributes of its leaf, if
  // it is mapped, the page where the leaf ends, and whether the leaf has a shared
  // bit, which stands for extra pages.
  datatype Reading = Reading(attrs: nat -> Option<set<Attr>>, stop: nat -> nat, shared: nat -> bool, extra: nat)

  ghost predicate Forward(f: Reading) {
    forall v: nat :: v < f.stop(v)
  }

  // Where the loop steps from page b: by the size of the leaf less the distance
  // from the leaf's address, which a shared bit is part of.
  function Onward(f: Reading, b: nat): nat {
    f.stop(b) + if f.shared(b) then f.extra else 0
  }

  // Page v is among the pages of b..end that the loop looks at.
  ghost predicate Looks(f: Reading, b: nat, end: nat, v: nat)
    requires Forward(f)
    decreases end - b
  {
    b < end && if f.attrs(b).Some? then b <= v < Least(f.stop(b), end) || Looks(f, Onward(f, b), end, v) else v == b
  }

  lemma {:induction false} LooksWithin(f: Reading, b: nat, end: nat, v: nat)
    requires Forward(f) && Looks(f, b, end, v)
    ensures b <= v < end
    decreases end - b
  {
    if f.attrs(b).Some? && !(b <= v < Least(f.stop(b), end)) { LooksWithin(f, Onward(f, b), end, v); }
  }

  // The pages from v to the end of its leaf have the same leaf.
  ghost predicate OneLeaf(f: Reading, v: nat, w: nat) {
    v <= w < f.stop(v) ==> f.stop(w) == f.stop(v) && f.shared(w) == f.shared(v) && f.attrs(w) == f.attrs(v)
  }

  // The region is mapped by leaves.
  ghost predicate Leaves(f: Reading, b: nat, end: nat) {
    && Forward(f) && (forall v: nat :: b <= v < end ==> f.attrs(v).Some?)
    && forall v: nat, w: nat :: b <= v <= w < end ==> OneLeaf(f, v, w)
  }

  // A leaf with a shared bit ends before the region does.
  ghost predicate SharedEnds(f: Reading, v: nat, end: nat) {
    f.shared(v) && f.stop(v) < end
  }

  ghost predicate LooksEverywhere(f: Reading, b: nat, end: nat)
    requires Forward(f)
  {
    forall v: nat :: b <= v < end ==> Looks(f, b, end, v)
  }

  ghost predicate NoneShared(f: Reading, b: nat, end: nat) {
    forall v: nat :: b <= v < end ==> !SharedEnds(f, v, end)
  }

  // The loop looks at every page of a mapped region exactly when no leaf with a
  // shared bit ends inside the region.
  lemma {:induction false} LooksEverywhereExactly(f: Reading, b: nat, end: nat)
    requires Leaves(f, b, end) && f.extra > 0
    ensures LooksEverywhere(f, b, end) <==> NoneShared(f, b, end)
    decreases end - b
  {
    if b < end {
      var stop := f.stop(b);
      if SharedEnds(f, b, end) {
        if Looks(f, b, end, stop) { LooksWithin(f, Onward(f, b), end, stop); }
      } else {
        forall v: nat | b <= v < end && v < stop ensures !SharedEnds(f, v, end) {
          assert OneLeaf(f, b, v);
        }
        if stop < end {
          LooksEverywhereExactly(f, stop, end);
          LooksAfter(f, b, end);
        }
      }
    }
  }

  lemma LooksAfter(f: Reading, b: nat, end: nat)
    requires Forward(f) && b < f.stop(b) < end && f.attrs(b).Some? && !f.shared(b)
    ensures LooksEverywhere(f, b, end) <==> LooksEverywhere(f, f.stop(b), end)
  {
    var stop := f.stop(b);
    forall v: nat | stop <= v < end ensures Looks(f, b, end, v) <==> Looks(f, stop, end, v) {
    }
    forall v: nat | b <= v < stop ensures Looks(f, b, end, v) {
    }
  }

  // Without such a leaf it looks at every page up to the first that is not mapped.
  lemma {:induction false} LooksUntilGap(f: Reading, b: nat, end: nat, w: nat)
    requires Forward(f) && NoneShared(f, b, end) && b <= w < end
    requires forall u: nat :: b <= u < w ==> f.attrs(u).Some?
    ensures Looks(f, b, end, w)
    decreases end - b
  {
    if b < w && f.stop(b) <= w {
      assert !SharedEnds(f, b, end);
      LooksUntilGap(f, f.stop(b), end, w);
    }
  }

  // ---- The answer ----

  // All pages that the loop looks at have these attributes.
  ghost predicate Uniform(f: Reading, lo: nat, hi: nat, attrs: set<Attr>)
    requires Forward(f)
  {
    forall v: nat :: Looks(f, lo, hi, v) ==> f.attrs(v) == Some(attrs)
  }

  // One of the pages it looks at is not mapped, or two have different attributes.
  ghost predicate Differ(f: Reading, lo: nat, hi: nat)
    requires Forward(f)
  {
    exists v: nat, w: nat ::
      Looks(f, lo, hi, v) && Looks(f, lo, hi, w) && (f.attrs(w).None? || f.attrs(v) != f.attrs(w))
  }

  // There is no third case.
  lemma UniformOrDiffer(f: Reading, lo: nat, hi: nat)
    requires Forward(f) && lo < hi
    ensures Differ(f, lo, hi) <==> forall attrs :: !Uniform(f, lo, hi, attrs)
  {
    assert Looks(f, lo, hi, lo);
    if !Differ(f, lo, hi) {
      assert f.attrs(lo).Some? && Uniform(f, lo, hi, f.attrs(lo).value);
    }
  }

  // Unless a leaf with a shared bit ends inside the region, the answer is about
  // the whole region.
  lemma RegionExactly(f: Reading, lo: nat, hi: nat, attrs: set<Attr>)
    requires Forward(f) && NoneShared(f, lo, hi)
    ensures Uniform(f, lo, hi, attrs) <==> forall v: nat :: lo <= v < hi ==> f.attrs(v) == Some(attrs)
  {
    if Uniform(f, lo, hi, attrs) {
      forall v: nat | lo <= v < hi ensures f.attrs(v) == Some(attrs) {
        UniformHas(f, lo, hi, attrs, v);
      }
    } else {
      var v: nat :| Looks(f, lo, hi, v) && f.attrs(v) != Some(attrs);
      LooksWithin(f, lo, hi, v);
    }
  }

  lemma {:induction false} UniformHas(f: Reading, lo: nat, hi: nat, attrs: set<Attr>, w: nat)
    requires Forward(f) && NoneShared(f, lo, hi) && Uniform(f, lo, hi, attrs) && lo <= w < hi
    ensures f.attrs(w) == Some(attrs)
    decreases w
  {
    forall u: nat | lo <= u < w ensures f.attrs(u).Some? {
      UniformHas(f, lo, hi, attrs, u);
    }
    LooksUntilGap(f, lo, hi, w);
  }

  // When one ends at page stop, and the region is not longer than the bit, pages
  // from stop on have no part in the answer.
  lemma BlindAfter(f: Reading, lo: nat, hi: nat, attrs: set<Attr>)
    requires Forward(f) && lo < hi && f.attrs(lo) == Some(attrs) && SharedEnds(f, lo, hi) && hi <= lo + f.extra
    requires forall w: nat :: lo <= w < hi ==> OneLeaf(f, lo, w)
    ensures Uniform(f, lo, hi, attrs)
    ensures forall v: nat :: f.stop(lo) <= v < hi ==> !Looks(f, lo, hi, v)
  {
    assert Onward(f, lo) >= hi;
    forall v: nat | Looks(f, lo, hi, v) ensures v < f.stop(lo) && f.attrs(v) == Some(attrs) {
      assert !Looks(f, Onward(f, lo), hi, v);
      assert OneLeaf(f, lo, v);
    }
  }

  // ---- The reading of an address space ----

  // The address field of a leaf, masked with PageAttributeToMask.
  function LeafStart(level: nat, frame: Frame): Frame {
    match level case 2 => frame / 512 * 512 case 3 => frame / 0x4_0000 * 0x4_0000 case _ => frame
  }

  // The page's offset in a leaf of this level.
  function Into(level: nat, b: nat): nat {
    match level case 2 => b % 512 case 3 => b % 0x4_0000 case _ => 0
  }

  ghost predicate IdentityOn(c: Space, lo: nat, hi: nat)
    requires Ok(c)
  {
    forall v: nat :: lo <= v < hi && Inside(c.levels, v) && View(c, v).Some? ==> View(c, v).value.pfn == v
  }

  // The attributes of a page, if it is mapped.
  ghost function AttributesAt(c: Space, v: nat): Option<set<Attr>>
    requires Ok(c)
  {
    if Inside(c.levels, v) && View(c, v).Some? then Some(Attributes(View(c, v).value)) else None
  }

  // Where the leaf of a page ends, when its pages map themselves.
  ghost function LeafStop(c: Space, v: nat): nat
    requires Ok(c)
  {
    if Inside(c.levels, v) && Seen(c, v).Some? then
      var leaf := Seen(c, v).value;
      var stop := LeafStart(leaf.level, At(c, leaf).frame) + Span(leaf.level);
      if v < stop then stop else v + 1
    else v + 1
  }

  // The leaf has a shared bit that is not in the mask of EfiGetMemoryAttributes.
  ghost predicate SharedAt(c: Space, sev: bool, v: nat)
    requires Ok(c)
  {
    Inside(c.levels, v) && Seen(c, v).Some? && At(c, Seen(c, v).value).enc && !sev
  }

  ghost function ReadingOf(c: Space, sev: bool, extra: nat): (f: Reading)
    requires Ok(c)
    ensures Forward(f)
  {
    Reading((v: nat) => AttributesAt(c, v), (v: nat) => LeafStop(c, v), (v: nat) => SharedAt(c, sev, v), extra)
  }

  lemma SameRun(level: nat, b: nat, v: nat)
    requires 1 <= level <= 3 && b <= v < b + Span(level) - Into(level, b)
    ensures Block(level, v) == Block(level, b)
  {
    LargeBlocks(v);
    LargeBlocks(b);
  }

  // In an identity map, the pages from b to the end of its leaf share the leaf.
  lemma LeafRun(c: Space, b: nat, leaf: Leaf, v: nat)
    requires Ok(c) && Inside(c.levels, b) && Seen(c, b) == Some(leaf) && Inside(c.levels, v)
    requires View(c, b).Some? ==> View(c, b).value.pfn == b
    ensures LeafStop(c, b) == LeafStart(leaf.level, At(c, leaf).frame) + Span(leaf.level)
    ensures var e := At(c, leaf); AttributesAt(c, b) == Some(EntryAttributes(e.present, e.writable, e.nx))
    ensures b <= v < LeafStop(c, b) ==> Seen(c, v) == Some(leaf) && AttributesAt(c, v) == AttributesAt(c, b)
  {
    SeenHolds(c, b, leaf);
    LeafPageMasks(At(c, leaf).frame, b);
    assert b == LeafStart(leaf.level, At(c, leaf).frame) + Into(leaf.level, b);
    if b <= v < LeafStop(c, b) {
      SameRun(leaf.level, b, v);
      SeenTogether(c, b, leaf, v);
      SeenHolds(c, v, leaf);
    }
  }

  // A mapped region of an identity map is made of leaves.
  lemma IdentityLeaves(c: Space, sev: bool, extra: nat, lo: nat, hi: nat)
    requires Ok(c) && lo < hi && Inside(c.levels, hi - 1) && IdentityOn(c, lo, hi)
    requires forall v: nat :: lo <= v < hi ==> AttributesAt(c, v).Some?
    ensures Leaves(ReadingOf(c, sev, extra), lo, hi)
  {
    var f := ReadingOf(c, sev, extra);
    forall v: nat, w: nat | lo <= v <= w < hi ensures OneLeaf(f, v, w) {
      LeafAtPage(c, sev, extra, v, hi);
      assert LeafAt(f, v, hi);
    }
  }

  // ---- The loop ----

  // EFI_SUCCESS with attributes, EFI_NO_MAPPING and EFI_UNSUPPORTED.
  datatype Answer = Found(attrs: set<Attr>) | Mixed | Missing

  // The loop looks at page v, and all it looks at before are mapped and have the
  // attributes of the first.
  ghost predicate AlikeBefore(f: Reading, lo: nat, hi: nat, v: nat)
    requires Forward(f)
  {
    && Looks(f, lo, hi, v)
    && forall w: nat :: Looks(f, lo, hi, w) && w < v ==> f.attrs(w).Some? && f.attrs(w) == f.attrs(lo)
  }

  // The answer is right about the pages that the loop looks at: they are alike, or
  // the first that is not has other attributes, or is not mapped.
  ghost predicate Answers(f: Reading, lo: nat, hi: nat, r: Answer)
    requires Forward(f)
  {
    match r
    case Found(attrs) => Uniform(f, lo, hi, attrs)
    case Mixed =>
      exists v: nat :: AlikeBefore(f, lo, hi, v) && lo < v && f.attrs(v).Some? && f.attrs(v) != f.attrs(lo)
    case Missing => exists v: nat :: AlikeBefore(f, lo, hi, v) && f.attrs(v).None?
  }

  // Attributes are found exactly if the pages do not differ.
  lemma AnswersExactly(f: Reading, lo: nat, hi: nat, r: Answer)
    requires Forward(f) && lo < hi && Answers(f, lo, hi, r)
    ensures r.Found? <==> !Differ(f, lo, hi)
  {
    assert Looks(f, lo, hi, lo);
    if r.Found? { UniformOrDiffer(f, lo, hi); }
  }

  // What the loop knows at page b: the pages it has looked at have these attributes.
  ghost predicate UniformUpTo(f: Reading, lo: nat, b: nat, hi: nat, attrs: set<Attr>)
    requires Forward(f)
  {
    && Looks(f, lo, hi, lo) && f.attrs(lo) == Some(attrs)
    && forall v: nat :: Looks(f, lo, hi, v) ==> Looks(f, b, hi, v) || f.attrs(v) == Some(attrs)
  }

  // What is looked at from b on is looked at from lo on.
  ghost predicate Part(f: Reading, lo: nat, b: nat, hi: nat)
    requires Forward(f)
  {
    forall v: nat :: Looks(f, b, hi, v) ==> Looks(f, lo, hi, v)
  }

  // The body of the loop: the attributes of the leaf at page b and the step to
  // the next page to look at. extra is the shared bit, in pages.
  method ReadLeaf(mem: Memory, root: Frame, levels: nat, ghost c: Space, sev: bool, extra: nat, b: nat)
    returns (attrs: Option<set<Attr>>, step: nat)
    requires Ok(c) && c == Space(mem, c.at, root, levels)
    requires Inside(c.levels, b) && (View(c, b).Some? ==> View(c, b).value.pfn == b)
    ensures attrs == AttributesAt(c, b)
    ensures attrs.Some? ==> b + step == LeafStop(c, b) + if SharedAt(c, sev, b) then extra else 0
  {
    attrs, step := None, 0;
    SeenIsMapped(c, b);
    var entry := Lookup(mem, c.at, root, levels, b);
    if entry.Some? {
      var leaf := entry.value;
      SeenHolds(c, b, leaf);
      LeafRun(c, b, leaf, b);
      var e := mem[leaf.table][leaf.index];
      attrs := Some(EntryAttributes(e.present, e.writable, e.nx));
      // The address keeps a bit that the platform's encryption mask does not have.
      var address := LeafStart(leaf.level, e.frame) + (if e.enc && !sev then extra else 0);
      step := Span(leaf.level) + address - b;
    }
  }

  // The pages of b's leaf have the leaf's attributes.
  ghost predicate LeafAt(f: Reading, b: nat, end: nat) {
    forall w: nat :: b <= w < end ==> OneLeaf(f, b, w)
  }

  // The loop steps from page b to the next.
  lemma LookOn(f: Reading, lo: nat, b: nat, hi: nat, next: nat, attrs: set<Attr>)
    requires Forward(f) && lo <= b < hi && Part(f, lo, b, hi) && LeafAt(f, b, hi)
    requires f.attrs(b) == Some(attrs) && next == Onward(f, b) && (b == lo || UniformUpTo(f, lo, b, hi, attrs))
    ensures Part(f, lo, next, hi) && UniformUpTo(f, lo, next, hi, attrs)
  {
    forall v: nat | Looks(f, b, hi, v) ensures Looks(f, next, hi, v) || f.attrs(v) == Some(attrs) {
      assert b <= v < hi ==> OneLeaf(f, b, v);
    }
  }

  lemma AlikeSoFar(f: Reading, lo: nat, b: nat, hi: nat, r: Answer)
    requires Forward(f) && lo <= b < hi && Part(f, lo, b, hi) && Looks(f, b, hi, b)
    requires if b == lo then r.Mixed? else r.Found? && UniformUpTo(f, lo, b, hi, r.attrs)
    ensures AlikeBefore(f, lo, hi, b)
  {
    forall w: nat | Looks(f, lo, hi, w) && w < b ensures f.attrs(w).Some? && f.attrs(w) == f.attrs(lo) {
      LooksWithin(f, lo, hi, w);
      if Looks(f, b, hi, w) { LooksWithin(f, b, hi, w); }
    }
  }

  lemma LookedAll(f: Reading, lo: nat, b: nat, hi: nat, attrs: set<Attr>)
    requires Forward(f) && b >= hi && UniformUpTo(f, lo, b, hi, attrs)
    ensures Uniform(f, lo, hi, attrs)
  {
  }

  lemma LeafAtPage(c: Space, sev: bool, extra: nat, b: nat, end: nat)
    requires Ok(c) && b < end && Inside(c.levels, end - 1) && IdentityOn(c, b, end)
    ensures LeafAt(ReadingOf(c, sev, extra), b, end)
  {
    InsideBelow(c.levels + 1, b, end - 1);
    SeenIsMapped(c, b);
    forall w: nat | b <= w < end ensures OneLeaf(ReadingOf(c, sev, extra), b, w) {
      InsideBelow(c.levels + 1, w, end - 1);
      if b < w < LeafStop(c, b) {
        LeafRun(c, b, Seen(c, b).value, w);
        SeenIsMapped(c, w);
        LeafRun(c, w, Seen(c, w).value, w);
      }
    }
  }

  // The reading at page b is that of the tables.
  ghost predicate ReadsPage(c: Space, sev: bool, f: Reading, b: nat, end: nat)
    requires Ok(c)
  {
    && f.attrs(b) == AttributesAt(c, b) && f.stop(b) == LeafStop(c, b) && f.shared(b) == SharedAt(c, sev, b)
    && LeafAt(f, b, end)
  }

  ghost predicate ReadsRegion(c: Space, sev: bool, f: Reading, lo: nat, hi: nat)
    requires Ok(c)
  {
    forall b: nat :: lo <= b < hi ==> ReadsPage(c, sev, f, b, hi)
  }

  // The loop, for a reading of the region.
  method Scan(mem: Memory, root: Frame, levels: nat, ghost c: Space, sev: bool, extra: nat,
              base: nat, length: nat, ghost f: Reading)
    returns (r: Answer)
    requires Ok(c) && c == Space(mem, c.at, root, levels)
    requires length > 0 && Inside(c.levels, base + length - 1) && IdentityOn(c, base, base + length)
    requires Forward(f) && f.extra == extra
    requires ReadsRegion(c, sev, f, base, base + length)
    ensures Answers(f, base, base + length, r)
  {
    var b, size: int := base, length;
    ghost var end := base + length;
    r := Mixed;
    while size > 0
      invariant b + size == end && base <= b && Part(f, base, b, end)
      invariant if b == base then r.Mixed? else r.Found? && UniformUpTo(f, base, b, end, r.attrs)
      decreases size
    {
      InsideBelow(c.levels + 1, b, end - 1);
      var attrs, step := ReadLeaf(mem, root, levels, c, sev, extra, b);
      assert ReadsPage(c, sev, f, b, end) && Looks(f, b, end, b);
      if attrs.None? || (r.Found? && attrs.value != r.attrs) { AlikeSoFar(f, base, b, end, r); }
      if attrs.None? { return Missing; }
      if r.Found? && attrs.value != r.attrs { return Mixed; }
      LookOn(f, base, b, end, b + step, attrs.value);
      r, size, b := Found(attrs.value), size - step, b + step;
    }
    LookedAll(f, base, b, end, r.attrs);
  }

  ghost predicate Tells(c: Space, sev: bool, extra: nat, lo: nat, hi: nat, r: Answer)
    requires Ok(c)
  {
    Answers(ReadingOf(c, sev, extra), lo, hi, r)
  }

  // EfiGetMemoryAttributes, in pages. It finds attributes exactly when all the
  // pages it looks at have them.
  method GetMemoryAttributes(mem: Memory, root: Frame, levels: nat, ghost c: Space, sev: bool, extra: nat,
                             base: nat, length: nat)
    returns (r: Answer)
    requires Ok(c) && c == Space(mem, c.at, root, levels)
    requires length > 0 && Inside(c.levels, base + length - 1) && IdentityOn(c, base, base + length)
    ensures Tells(c, sev, extra, base, base + length, r)
  {
    ghost var f := ReadingOf(c, sev, extra);
    ghost var end := base + length;
    forall b: nat | base <= b < end ensures ReadsPage(c, sev, f, b, end) {
      LeafAtPage(c, sev, extra, b, end);
    }
    r := Scan(mem, root, levels, c, sev, extra, base, length, f);
  }

  // All pages of a region are mapped with these attributes.
  ghost predicate AllHave(c: Space, lo: nat, hi: nat, attrs: set<Attr>)
    requires Ok(c)
  {
    forall v: nat :: lo <= v < hi ==> AttributesAt(c, v) == Some(attrs)
  }

  // When all pages of the region have the same attributes, these are found.
  lemma SameEverywhere(c: Space, sev: bool, extra: nat, lo: nat, hi: nat, attrs: set<Attr>, r: Answer)
    requires Ok(c) && lo < hi && AllHave(c, lo, hi, attrs)
    requires Tells(c, sev, extra, lo, hi, r)
    ensures r == Found(attrs)
  {
    var f := ReadingOf(c, sev, extra);
    forall v: nat | Looks(f, lo, hi, v) ensures f.attrs(v) == Some(attrs) {
      LooksWithin(f, lo, hi, v);
      assert AttributesAt(c, v) == Some(attrs);
    }
    assert Uniform(f, lo, hi, attrs);
    assert AttributesAt(c, lo) == Some(attrs) && Looks(f, lo, hi, lo);
  }

  method GetKnown(mem: Memory, root: Frame, levels: nat, ghost c: Space, sev: bool, extra: nat,
                  base: nat, length: nat, ghost attrs: set<Attr>, ghost known: bool)
    returns (r: Answer)
    requires Ok(c) && c == Space(mem, c.at, root, levels)
    requires length > 0 && Inside(c.levels, base + length - 1) && IdentityOn(c, base, base + length)
    requires known ==> AllHave(c, base, base + length, attrs)
    ensures known ==> r == Found(attrs)
  {
    r := GetMemoryAttributes(mem, root, levels, c, sev, extra, base, length);
    if known { SameEverywhere(c, sev, extra, base, base + length, attrs, r); }
  }
}
