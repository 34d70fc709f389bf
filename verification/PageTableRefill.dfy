// SplitPage reads the entry it splits again after it has allocated a page. When
// the allocation renews the pool, marking the new buffer read-only edits the
// same tables in between.
module PageTableRefill {
  import opened Common
  import opened PageTables
  import opened PageTableEdit
  import opened PageTableSteps
  import opened PageTableRun

  // ---- Marking a buffer ----

  // Leaves larger than 4 KiB are kept, but for a 1 GiB leaf over the buffer.
  ghost predicate LeavesKept(c: Space, c': Space, buffer: nat)
    requires Ok(c) && Ok(c') && c'.levels == c.levels
  {
    forall v: nat {:trigger Seen(c', v)} :: Inside(c.levels, v) ==> LeafKept(c, c', buffer, v)
  }

  ghost predicate LeafKept(c: Space, c': Space, buffer: nat, v: nat)
    requires Ok(c) && Ok(c') && c'.levels == c.levels && Inside(c.levels, v)
  {
    var large := Seen(c, v).Some? && Seen(c, v).value.level >= 2;
    large && !(Seen(c, v).value.level == 3 && Block(3, v) == Block(3, buffer)) ==> Seen(c', v) == Seen(c, v)
  }

  // A 1 GiB leaf over the buffer is split with page t1 and the buffer's 2 MiB
  // leaf is made read-only.
  ghost function Marked(c: Space, leaf: Leaf, buffer: nat, t1: Frame, job: Job): Space
    requires Holds(c, leaf) && leaf.level == 3 && t1 != leaf.table
  {
    Converted(Splitted(c, leaf, t1, job.sev), Leaf(t1, Index(2, buffer), 2), MarkJob(job))
  }

  // What marking the 512-page buffer does to the tables, up to page to: the
  // buffer is edited and no leaf is split but a 1 GiB leaf over it.
  ghost predicate Marking(c: Space, c': Space, job: Job, buffer: nat, to: nat) {
    && Ok(c) && Ok(c') && buffer % 512 == 0 && Inside(c.levels, buffer + 511)
    && buffer <= to <= buffer + 512
    && Reached(c, c', MarkJob(job), buffer, to, NoTrace)
    && (to < buffer + 512 ==> Inside(c.levels, to) && View(c', to).None?)
    && LeavesKept(c, c', buffer)
    && (Inside(c.levels, buffer) && Seen(c, buffer).Some? && Seen(c, buffer).value.level == 3 ==>
          var leaf := Seen(c, buffer).value;
          Holds(c, leaf) && buffer + 1 !in c.at && c' == Marked(c, leaf, buffer, buffer + 1, job))
  }

  // ---- The resumed split ----

  // Every page keeps its translation, but for the encryption bit and pages whose
  // new entry is zero.
  ghost predicate Faithful(c: Space, c': Space, sev: bool)
    requires Ok(c) && Ok(c') && c'.levels == c.levels
  {
    forall v: nat {:trigger View(c', v)} :: Inside(c.levels, v) ==> PageFaithful(sev, View(c, v), View(c', v), v)
  }

  ghost predicate PageFaithful(sev: bool, was: Option<Mapping>, now: Option<Mapping>, v: nat) {
    match was
    case None => now.None?
    case Some(m) => if now.None? then v != 0 && Blank(m) else Kept(sev, m, now.value)
  }

  // The split works on the entry it was called for.
  ghost predicate Undisturbed(b: nat, leaf: Leaf, buffer: nat) {
    leaf.level == 2 || Block(3, buffer) != Block(3, b)
  }

  // Splitting the leaf of page b with page t2, after the pool was renewed with a
  // buffer: the split keeps every translation of the marked tables exactly when
  // the leaf is a 2 MiB leaf or does not cover the buffer.
  lemma ResumedSplitExactly(c: Space, c2: Space, b: nat, leaf: Leaf, job: Job, buffer: nat, to: nat, t2: Frame)
    requires Marking(c, c2, job, buffer, to) && Inside(c.levels, b) && Seen(c, b) == Some(leaf) && leaf.level > 1
    requires t2 !in c2.at
    ensures Holds(c2, leaf) && Ok(Splitted(c2, leaf, t2, job.sev))
    ensures Faithful(c2, Splitted(c2, leaf, t2, job.sev), job.sev) <==> Undisturbed(b, leaf, buffer)
  {
    if Undisturbed(b, leaf, buffer) {
      LeafSurvives(c, c2, b, leaf, job, buffer, to);
      SplitFaithful(c2, b, leaf, t2, job.sev);
    } else {
      InsideBelow(c.levels + 1, buffer, buffer + 511);
      SpoiltBlock(c, c2, b, leaf, job, buffer, to, t2);
      BufferWasMarked(c, c2, b, leaf, job, buffer, to);
      var c3 := Splitted(c2, leaf, t2, job.sev);
      assert View(c3, buffer) == Some(Spoilt(job.sev, View(c2, buffer).value, buffer));
      assert !PageFaithful(job.sev, View(c2, buffer), View(c3, buffer), buffer);
    }
  }

  lemma LeafSurvives(c: Space, c2: Space, b: nat, leaf: Leaf, job: Job, buffer: nat, to: nat)
    requires Marking(c, c2, job, buffer, to) && Inside(c.levels, b) && Seen(c, b) == Some(leaf) && leaf.level > 1
    requires Undisturbed(b, leaf, buffer)
    ensures Seen(c2, b) == Some(leaf)
  {
    SeenHolds(c, b, leaf);
    assert LeafKept(c, c2, buffer, b);
  }

  lemma SplitFaithful(c: Space, b: nat, leaf: Leaf, spare: Frame, sev: bool)
    requires Ok(c) && Inside(c.levels, b) && Seen(c, b) == Some(leaf) && leaf.level > 1 && spare !in c.at
    ensures Holds(c, leaf) && Ok(Splitted(c, leaf, spare, sev)) && Faithful(c, Splitted(c, leaf, spare, sev), sev)
  {
    SplitLeaf(c, b, leaf, spare, sev, b);
    forall v: nat | Inside(c.levels, v)
      ensures PageFaithful(sev, View(c, v), View(Splitted(c, leaf, spare, sev), v), v)
    {
      SplitFaithfulAt(c, b, leaf, spare, sev, v);
    }
  }

  lemma SplitFaithfulAt(c: Space, b: nat, leaf: Leaf, spare: Frame, sev: bool, v: nat)
    requires Ok(c) && Inside(c.levels, b) && Seen(c, b) == Some(leaf) && leaf.level > 1 && spare !in c.at
    requires Inside(c.levels, v)
    ensures Holds(c, leaf) && Ok(Splitted(c, leaf, spare, sev))
    ensures PageFaithful(sev, View(c, v), View(Splitted(c, leaf, spare, sev), v), v)
  {
    SplitLeaf(c, b, leaf, spare, sev, v);
    var now := View(Splitted(c, leaf, spare, sev), v);
    if Block(leaf.level, v) != Block(leaf.level, b) {
      assert now == View(c, v);
    } else if SplitDrops(leaf.level, At(c, leaf), v, sev) {
      SeenTogether(c, b, leaf, v);
      SplitDropIsBlank(c, leaf, sev, v);
      assert now.None?;
    } else {
      KeptSplit(sev, View(c, v).value, View(c, v).value);
    }
  }

  // ---- The split of a link ----

  // A 1 GiB leaf over the buffer and over page b: marking has split it, so that
  // the resumed split takes the link to its table for a leaf.
  lemma LeafOverBuffer(c: Space, c2: Space, b: nat, leaf: Leaf, job: Job, buffer: nat, to: nat)
    requires Marking(c, c2, job, buffer, to) && Inside(c.levels, b) && Seen(c, b) == Some(leaf) && leaf.level > 1
    requires !Undisturbed(b, leaf, buffer)
    ensures Inside(c.levels, buffer) && Seen(c, buffer) == Some(leaf) && leaf.level == 3
    ensures Holds(c, leaf) && TableOk(c.mem, c.at, leaf.table)
    ensures buffer + 1 !in c.at && c2 == Marked(c, leaf, buffer, buffer + 1, job)
  {
    SeenHolds(c, b, leaf);
    InsideBelow(c.levels + 1, buffer, buffer + 511);
    SeenTogether(c, b, leaf, buffer);
  }

  lemma BufferWasMarked(c: Space, c2: Space, b: nat, leaf: Leaf, job: Job, buffer: nat, to: nat)
    requires Marking(c, c2, job, buffer, to) && Inside(c.levels, b) && Seen(c, b) == Some(leaf) && leaf.level > 1
    requires !Undisturbed(b, leaf, buffer)
    ensures Inside(c.levels, buffer) && View(c2, buffer).Some? && !View(c2, buffer).value.writable
  {
    LeafOverBuffer(c, c2, b, leaf, job, buffer, to);
    SplitLarge(c, leaf, buffer + 1, job.sev, buffer);
    MarkLarge(Splitted(c, leaf, buffer + 1, job.sev), buffer, Leaf(buffer + 1, Index(2, buffer), 2), job, buffer);
  }

  // Splitting a 1 GiB leaf loses no page.
  lemma SplitLarge(c: Space, leaf: Leaf, t1: Frame, sev: bool, v: nat)
    requires Ok(c) && Inside(c.levels, v) && Seen(c, v) == Some(leaf) && leaf.level == 3 && t1 !in c.at
    ensures Holds(c, leaf) && Ok(Splitted(c, leaf, t1, sev)) && View(c, v).Some?
    ensures Seen(Splitted(c, leaf, t1, sev), v) == Some(Leaf(t1, Index(2, v), 2))
    ensures View(Splitted(c, leaf, t1, sev), v).Some?
    ensures SamePath(View(c, v).value, View(Splitted(c, leaf, t1, sev), v).value)
  {
    SplitLeaf(c, v, leaf, t1, sev, v);
  }

  // Neither does marking a 2 MiB leaf, which makes its pages read-only.
  lemma MarkLarge(c: Space, b: nat, leaf: Leaf, job: Job, v: nat)
    requires Ok(c) && Inside(c.levels, b) && Inside(c.levels, v) && Seen(c, b) == Some(leaf) && leaf.level == 2
    requires View(c, v).Some?
    ensures Holds(c, leaf) && Ok(Converted(c, leaf, MarkJob(job))) && View(Converted(c, leaf, MarkJob(job)), v).Some?
    ensures SamePath(View(c, v).value, View(Converted(c, leaf, MarkJob(job)), v).value)
    ensures v == b ==> !View(Converted(c, leaf, MarkJob(job)), v).value.writable
  {
    ConvertLeaf(c, b, leaf, MarkJob(job), v);
  }

  // The resumed split spoils the 1 GiB block and keeps every other page.
  lemma SpoiltBlock(c: Space, c2: Space, b: nat, leaf: Leaf, job: Job, buffer: nat, to: nat, t2: Frame)
    requires Marking(c, c2, job, buffer, to) && Inside(c.levels, b) && Seen(c, b) == Some(leaf) && leaf.level > 1
    requires !Undisturbed(b, leaf, buffer) && t2 !in c2.at
    ensures Holds(c2, leaf) && Ok(Splitted(c2, leaf, t2, job.sev))
    ensures SpoilsBlock(c2, Splitted(c2, leaf, t2, job.sev), job.sev, Block(3, b))
    ensures Seen(Splitted(c2, leaf, t2, job.sev), b) == Some(Leaf(t2, Index(2, b), 2))
  {
    LeafOverBuffer(c, c2, b, leaf, job, buffer, to);
    MarkedTables(c, leaf, buffer, job);
    SplitKeepsTree(c2.mem, c2.at, leaf.table, leaf.index, t2, job.sev);
    var c3 := Splitted(c2, leaf, t2, job.sev);
    forall v: nat | Inside(c.levels, v)
      ensures if Block(3, v) == Block(3, b)
              then View(c2, v).Some? && View(c3, v) == Some(Spoilt(job.sev, View(c2, v).value, v))
              else View(c3, v) == View(c2, v)
    {
      if Block(3, v) == Block(3, b) {
        SpoiltPage(c, c2, b, leaf, job, buffer, to, t2, v);
      } else {
        assert c2.at[leaf.table] == c.at[leaf.table];
        SeenHolds(c, b, leaf);
        SplitOutside(c2.mem, c2.at, leaf.table, leaf.index, t2, job.sev, c2.root, c2.levels, v);
      }
    }
    SpoiltPage(c, c2, b, leaf, job, buffer, to, t2, b);
  }

  lemma MarkedTables(c: Space, leaf: Leaf, buffer: nat, job: Job)
    requires Holds(c, leaf) && leaf.level == 3 && buffer + 1 !in c.at
    requires Ok(Marked(c, leaf, buffer, buffer + 1, job))
    ensures var c2 := Marked(c, leaf, buffer, buffer + 1, job);
      && Holds(c2, leaf) && At(c2, leaf) == SplitLink(buffer + 1, job.sev) && TableOk(c2.mem, c2.at, leaf.table)
      && c2.at[leaf.table] == c.at[leaf.table]
  {
    var c2 := Marked(c, leaf, buffer, buffer + 1, job);
    assert TableOk(c2.mem, c2.at, leaf.table);
  }

  // A page of the block: its path is that of the old leaf, the rest comes from
  // the link, whose address lies in the page's own 1 GiB block.
  lemma SpoiltPage(c: Space, c2: Space, b: nat, leaf: Leaf, job: Job, buffer: nat, to: nat, t2: Frame, v: nat)
    requires Marking(c, c2, job, buffer, to) && Inside(c.levels, b) && Seen(c, b) == Some(leaf) && leaf.level > 1
    requires !Undisturbed(b, leaf, buffer) && t2 !in c2.at && Inside(c.levels, v) && Block(3, v) == Block(3, b)
    requires Holds(c2, leaf) && Ok(Splitted(c2, leaf, t2, job.sev))
    ensures var c3 := Splitted(c2, leaf, t2, job.sev);
      && View(c2, v).Some? && View(c3, v) == Some(Spoilt(job.sev, View(c2, v).value, v))
      && Seen(c3, v) == Some(Leaf(t2, Index(2, v), 2))
  {
    LeafOverBuffer(c, c2, b, leaf, job, buffer, to);
    SeenTogether(c, b, leaf, v);
    MarkedPath(c, leaf, buffer, job, v);
    MarkedTables(c, leaf, buffer, job);
    SeenHolds(c, v, leaf);
    ResumedPage(c, c2, leaf, buffer, job, t2, v);
    LinkPage(buffer, v, job.sev);
  }

  // The link's address, masked to 1 GiB, is that of the block itself.
  lemma LinkPage(buffer: nat, v: nat, sev: bool)
    requires buffer % 512 == 0 && Block(3, v) == Block(3, buffer)
    ensures LeafMapping(3, SplitLink(buffer + 1, sev), v).pfn == v
  {
    assert Block(3, buffer + 1) == Block(3, buffer) by {
      LargeBlocks(buffer);
      LargeBlocks(buffer + 1);
    }
    ComposeBack(3, v);
  }

  // A page is at its own offset in its own block.
  lemma {:induction false} ComposeBack(level: nat, v: nat)
    requires level >= 1
    ensures Compose(level, Block(level, v), v) == v
  {
    if level > 1 { ComposeBack(level - 1, v); }
  }

  // Marking keeps the path of every page of the block.
  lemma MarkedPath(c: Space, leaf: Leaf, buffer: nat, job: Job, v: nat)
    requires Ok(c) && Inside(c.levels, v) && Inside(c.levels, buffer) && leaf.level == 3
    requires Seen(c, v) == Some(leaf) && Seen(c, buffer) == Some(leaf)
    requires Holds(c, leaf) && buffer + 1 !in c.at && Ok(Marked(c, leaf, buffer, buffer + 1, job))
    ensures var c2 := Marked(c, leaf, buffer, buffer + 1, job);
      View(c, v).Some? && View(c2, v).Some? && SamePath(View(c, v).value, View(c2, v).value)
  {
    SplitLarge(c, leaf, buffer + 1, job.sev, v);
    SplitLarge(c, leaf, buffer + 1, job.sev, buffer);
    MarkLarge(Splitted(c, leaf, buffer + 1, job.sev), buffer, Leaf(buffer + 1, Index(2, buffer), 2), job, v);
  }

  ghost predicate SamePath(m: Mapping, n: Mapping) {
    m.pathPresent == n.pathPresent && m.pathWritable == n.pathWritable && m.pathNx == n.pathNx
  }

  lemma ResumedPage(c: Space, c2: Space, leaf: Leaf, buffer: nat, job: Job, t2: Frame, v: nat)
    requires Ok(c) && Ok(c2) && Inside(c.levels, v) && Seen(c, v) == Some(leaf) && leaf.level == 3
    requires Holds(c, leaf) && TableOk(c.mem, c.at, leaf.table) && leaf.index == Index(3, v)
    requires 512 * c.at[leaf.table].block + leaf.index == Block(3, v)
    requires buffer + 1 !in c.at && t2 !in c2.at && c2 == Marked(c, leaf, buffer, buffer + 1, job)
    requires Holds(c2, leaf) && At(c2, leaf) == SplitLink(buffer + 1, job.sev) && TableOk(c2.mem, c2.at, leaf.table)
    requires Ok(Splitted(c2, leaf, t2, job.sev))
    ensures var c3, m := Splitted(c2, leaf, t2, job.sev), LeafMapping(3, SplitLink(buffer + 1, job.sev), v);
      && View(c, v).Some? && View(c3, v) == Some(Rebase(View(c, v).value, m))
      && Seen(c3, v) == Some(Leaf(t2, Index(2, v), 2))
  {
    var c3, m := Splitted(c2, leaf, t2, job.sev), LeafMapping(3, SplitLink(buffer + 1, job.sev), v);
    SplitKeepsTree(c2.mem, c2.at, leaf.table, leaf.index, t2, job.sev);
    assert In(c.at[leaf.table], v);
    SplitChildWalk(c2.mem, c2.at, leaf, t2, job.sev, v, m);
    ResumedAbove(c, leaf, buffer, job, t2, v);
    Replaced(c.mem, c.at, c3.mem, c3.at, c.root, c.levels, v, leaf, Some(m));
  }

  // Neither marking nor the resumed split touches the tables above the leaf.
  lemma ResumedAbove(c: Space, leaf: Leaf, buffer: nat, job: Job, t2: Frame, v: nat)
    requires Ok(c) && buffer + 1 !in c.at && Holds(c, leaf) && leaf.level == 3
    requires var c2 := Marked(c, leaf, buffer, buffer + 1, job); Holds(c2, leaf) && t2 !in c2.at
    ensures var c3 := Splitted(Marked(c, leaf, buffer, buffer + 1, job), leaf, t2, job.sev);
      && Extends(c.at, c3.at)
      && forall g :: g in c.at && In(c.at[g], v) && c.at[g].level > 3 ==> SameEntry(c.mem, c.at, c3.mem, g, v)
  {
    var c3 := Splitted(Marked(c, leaf, buffer, buffer + 1, job), leaf, t2, job.sev);
    forall g | g in c.at && In(c.at[g], v) && c.at[g].level > 3 ensures SameEntry(c.mem, c.at, c3.mem, g, v) {
      assert TableOk(c.mem, c.at, g);
    }
  }
}
