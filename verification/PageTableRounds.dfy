// The rounds of ConvertMemoryPageAttributes' loop and what each of them keeps,
// whether or not it renews the page-table pool.
module PageTableRounds {
  import opened Common
  import opened PageTables
  import opened PageTableEdit
  import opened PageTableSteps
  import opened PageTableRun
  import opened PageTableRefill

  // A round converts the leaf at page b or splits it with a spare page. Before the
  // split it may renew the pool, and then fail or go on. It is dry if the pool is
  // empty and is not renewed: it is locked, or there is no buffer for it.
  datatype Round =
    | Idle
    | Dry(locked: bool)
    | Convert(leaf: Leaf)
    | Split(leaf: Leaf, spare: Frame)
    | Renew(buffer: Frame, to: nat)
    | Resume(leaf: Leaf, via: Space, spare: Frame, buffer: Frame, to: nat)

  ghost predicate LeafAt(c: Space, b: nat, leaf: Leaf)
    requires Ok(c)
  {
    Inside(c.levels, b) && Seen(c, b) == Some(leaf) && Holds(c, leaf)
  }

  // The round takes the tables from c to c'.
  ghost predicate Did(c: Space, c': Space, job: Job, b: nat, r: Round) {
    Ok(c) && Ok(c') &&
    match r
    case Idle => c' == c
    case Dry(_) => c' == c
    case Convert(leaf) => LeafAt(c, b, leaf) && AlignedTo(leaf.level, b) && c' == Converted(c, leaf, job)
    case Split(leaf, spare) =>
      LeafAt(c, b, leaf) && leaf.level > 1 && spare !in c.at && c' == Splitted(c, leaf, spare, job.sev)
    case Renew(buffer, to) => Marking(c, c', job, buffer, to)
    case Resume(leaf, via, spare, buffer, to) =>
      && LeafAt(c, b, leaf) && leaf.level > 1 && Marking(c, via, job, buffer, to) && via != c
      && spare !in via.at && Holds(via, leaf) && c' == Splitted(via, leaf, spare, job.sev)
  }

  lemma DidSplit(c: Space, job: Job, b: nat, leaf: Leaf, spare: Frame)
    requires Ok(c) && LeafAt(c, b, leaf) && leaf.level > 1 && spare !in c.at
    ensures Did(c, Splitted(c, leaf, spare, job.sev), job, b, Split(leaf, spare))
  {
    SplitLeaf(c, b, leaf, spare, job.sev, b);
  }

  lemma DidResume(c: Space, via: Space, job: Job, b: nat, leaf: Leaf, spare: Frame, buffer: Frame, to: nat)
    requires Ok(c) && LeafAt(c, b, leaf) && leaf.level > 1 && Did(c, via, job, 0, Renew(buffer, to))
    requires spare !in via.at && via != c
    ensures Holds(via, leaf)
    ensures Did(c, Splitted(via, leaf, spare, job.sev), job, b, Resume(leaf, via, spare, buffer, to))
  {
    ResumedSplitExactly(c, via, b, leaf, job, buffer, to, spare);
  }

  lemma DidConvert(c: Space, job: Job, b: nat, leaf: Leaf)
    requires Ok(c) && LeafAt(c, b, leaf) && AlignedTo(leaf.level, b)
    ensures Did(c, Converted(c, leaf, job), job, b, Convert(leaf))
  {
    ConvertLeaf(c, b, leaf, job, b);
  }

  function Moved(r: Round): nat {
    if r.Convert? then Span(r.leaf.level) else 0
  }

  // The buffer that a round adds to the pool, if any.
  function NewBuffer(r: Round): Option<Frame> {
    match r case Renew(buffer, _) => Some(buffer) case Resume(_, _, _, buffer, _) => Some(buffer) case _ => None
  }

  function Plus(added: set<Frame>, r: Round): set<Frame> {
    if NewBuffer(r).Some? then added + {NewBuffer(r).value} else added
  }

  ghost function NextTrace(t: Trace, b: nat, r: Round): Trace {
    match r
    case Renew(buffer, to) => t.(marked := t.marked + Pages(buffer, to))
    case Resume(leaf, _, _, buffer, to) =>
      var t' := t.(marked := t.marked + Pages(buffer, to));
      if Undisturbed(b, leaf, buffer) then t' else SpoilTrace(t', Block(3, b))
    case _ => t
  }

  // The loop is at the start of the leaf at page b, unless it started inside it.
  ghost predicate AtStart(c: Space, b0: nat, b: nat)
    requires Ok(c)
  {
    Inside(c.levels, b) && Seen(c, b).Some? && b0 < b ==> AlignedTo(Seen(c, b).value.level, b)
  }

  // ---- What every page becomes ----

  lemma ReachedRound(c0: Space, c: Space, c': Space, job: Job, b0: nat, b: nat, t: Trace, r: Round)
    requires Ok(c0) && Did(c, c', job, b, r) && b0 <= b && Reached(c0, c, job, b0, b, t) && AtStart(c, b0, b)
    requires NewBuffer(r).Some? ==> t.marked !! Pages(NewBuffer(r).value, NewBuffer(r).value + 512)
    ensures Reached(c0, c', job, b0, b + Moved(r), NextTrace(t, b, r))
  {
    match r
    case Idle =>
    case Dry(_) =>
    case Convert(leaf) => ReachedConvert(c0, c, job, b0, b, t, leaf);
    case Split(leaf, spare) => ReachedSplit(c0, c, job, b0, b, t, b, leaf, spare);
    case Renew(buffer, to) => ReachedMark(c0, c, c', job, b0, b, t, buffer, to);
    case Resume(leaf, via, spare, buffer, to) =>
      ReachedMark(c0, c, via, job, b0, b, t, buffer, to);
      ReachedResume(c0, c, c', job, b0, b, t.(marked := t.marked + Pages(buffer, to)), r);
  }

  lemma ReachedResume(c0: Space, c: Space, c': Space, job: Job, b0: nat, b: nat, t: Trace, r: Round)
    requires Ok(c0) && r.Resume? && Did(c, c', job, b, r) && b0 <= b && AtStart(c, b0, b)
    requires Reached(c0, r.via, job, b0, b, t)
    ensures Reached(c0, c', job, b0, b, if Undisturbed(b, r.leaf, r.buffer) then t else SpoilTrace(t, Block(3, b)))
  {
    if Undisturbed(b, r.leaf, r.buffer) {
      LeafSurvives(c, r.via, b, r.leaf, job, r.buffer, r.to);
      ReachedSplit(c0, r.via, job, b0, b, t, b, r.leaf, r.spare);
    } else {
      LeafOverBuffer(c, r.via, b, r.leaf, job, r.buffer, r.to);
      SpoiltBlock(c, r.via, b, r.leaf, job, r.buffer, r.to, r.spare);
      forall v: nat | b0 <= v < b ensures Block(3, v) != Block(3, b) { BlockRange(3, b, v); }
      ReachedSpoil(c0, r.via, c', job, b0, b, t, Block(3, b));
    }
  }

  // ---- Where the loop goes on ----

  ghost function LevelAt(c: Space, b: nat): nat
    requires Ok(c)
  {
    if Inside(c.levels, b) && Seen(c, b).Some? then Seen(c, b).value.level else 0
  }

  // A split makes the leaf at page b smaller.
  lemma RoundShrinks(c: Space, c': Space, job: Job, b: nat, r: Round)
    requires Did(c, c', job, b, r) && (r.Split? || r.Resume?)
    ensures LevelAt(c', b) < LevelAt(c, b) && (LevelAt(c', b) == 0 || LevelAt(c', b) == LevelAt(c, b) - 1)
  {
    if r.Split? {
      SplitLeaf(c, b, r.leaf, r.spare, job.sev, b);
    } else {
      ResumeShrinks(c, c', job, b, r);
    }
  }

  lemma ResumeShrinks(c: Space, c': Space, job: Job, b: nat, r: Round)
    requires Did(c, c', job, b, r) && r.Resume?
    ensures LevelAt(c', b) < LevelAt(c, b) && (LevelAt(c', b) == 0 || LevelAt(c', b) == LevelAt(c, b) - 1)
  {
    if Undisturbed(b, r.leaf, r.buffer) {
      LeafSurvives(c, r.via, b, r.leaf, job, r.buffer, r.to);
      SplitLeaf(r.via, b, r.leaf, r.spare, job.sev, b);
    } else {
      SpoiltBlock(c, r.via, b, r.leaf, job, r.buffer, r.to, r.spare);
    }
  }

  lemma AlignedBelow(high: nat, low: nat, b: nat)
    requires 1 <= low <= high <= 3 && AlignedTo(high, b)
    ensures AlignedTo(low, b)
  {
    if high == 3 { assert b == 512 * (512 * (b / 0x4_0000)); }
  }

  lemma StartRound(c: Space, c': Space, job: Job, b0: nat, b: nat, r: Round)
    requires Did(c, c', job, b, r) && AtStart(c, b0, b) && !r.Renew?
    ensures AtStart(c', b0, b + Moved(r))
  {
    match r
    case Idle =>
    case Dry(_) =>
    case Convert(leaf) => StartConvert(c, job, b, leaf, b + Span(leaf.level));
    case Split(leaf, _) =>
      RoundShrinks(c, c', job, b, r);
      if LevelAt(c', b) > 0 && b0 < b { AlignedBelow(leaf.level, leaf.level - 1, b); }
    case Resume(leaf, _, _, _, _) =>
      RoundShrinks(c, c', job, b, r);
      if LevelAt(c', b) > 0 && b0 < b { AlignedBelow(leaf.level, leaf.level - 1, b); }
  }

  // The page after a leaf starts another leaf.
  lemma StartConvert(c: Space, job: Job, b: nat, leaf: Leaf, next: nat)
    requires Ok(c) && LeafAt(c, b, leaf) && AlignedTo(leaf.level, b) && next == b + Span(leaf.level)
    ensures Ok(Converted(c, leaf, job)) && AtStart(Converted(c, leaf, job), 0, next)
  {
    ConvertLeaf(c, b, leaf, job, b);
    if Inside(c.levels, next) && Seen(Converted(c, leaf, job), next).Some? {
      ConvertedSeen(c, job, b, leaf, next);
      NextLeaf(c, b, leaf, next, Seen(c, next).value);
    }
  }

  lemma NextLeaf(c: Space, b: nat, leaf: Leaf, next: nat, other: Leaf)
    requires Ok(c) && LeafAt(c, b, leaf) && AlignedTo(leaf.level, b) && next == b + Span(leaf.level)
    requires Inside(c.levels, next) && Seen(c, next) == Some(other)
    ensures AlignedTo(other.level, next)
  {
    SeenHolds(c, next, other);
    if !AlignedTo(other.level, next) {
      NotAligned(other.level, next);
      InsideBelow(c.levels + 1, next - 1, next);
      SeenTogether(c, next, other, next - 1);
      BlockRange(leaf.level, b, next - 1);
      SeenTogether(c, b, leaf, next - 1);
      BlockRange(leaf.level, b, next);
    }
  }

  lemma NotAligned(level: nat, b: nat)
    requires 1 <= level <= 3 && !AlignedTo(level, b)
    ensures b > 0 && Block(level, b - 1) == Block(level, b)
  {
    LargeBlocks(b);
    LargeBlocks(b - 1);
  }

  // ---- Accounts of the renewals ----

  // Pages marked lie in new buffers. A 1 GiB block is spoilt only if it holds a
  // new buffer and an end of the range lo..hi.
  ghost predicate Accounts(t: Trace, lo: nat, hi: nat, added: set<Frame>) {
    && (forall v :: v in t.marked ==> v - v % 512 in added)
    && (forall g :: g in t.spoiled ==> Accounted(g, lo, hi, added))
  }

  ghost predicate Accounted(g: nat, lo: nat, hi: nat, added: set<Frame>) {
    && hi > 0 && (g == Block(3, lo) || g == Block(3, hi - 1))
    && exists buffer :: buffer in added && Block(3, buffer) == g
  }

  lemma AccountsRound(c: Space, c': Space, job: Job, lo: nat, b: nat, hi: nat, t: Trace, r: Round, added: set<Frame>)
    requires Did(c, c', job, b, r) && AtStart(c, lo, b) && lo <= b < hi && Accounts(t, lo, hi, added)
    requires r.Resume? ==> NeedSplitPage(b, hi - b, r.leaf.level) != 0
    ensures Accounts(NextTrace(t, b, r), lo, hi, Plus(added, r))
  {
    if r.Renew? {
      AccountsMark(t, lo, hi, added, r.buffer, r.to);
    } else if r.Resume? {
      AccountsMark(t, lo, hi, added, r.buffer, r.to);
      if !Undisturbed(b, r.leaf, r.buffer) {
        LeafOverBuffer(c, r.via, b, r.leaf, job, r.buffer, r.to);
        SpoiltAtEnd(lo, b, hi);
        assert Accounted(Block(3, r.buffer), lo, hi, added + {r.buffer});
      }
    }
  }

  lemma AccountsMark(t: Trace, lo: nat, hi: nat, added: set<Frame>, buffer: Frame, to: nat)
    requires Accounts(t, lo, hi, added) && buffer % 512 == 0 && to <= buffer + 512
    ensures Accounts(t.(marked := t.marked + Pages(buffer, to)), lo, hi, added + {buffer})
  {
    MarkedMore(t.marked, added, buffer, to);
    forall g | g in t.spoiled ensures Accounted(g, lo, hi, added + {buffer}) {
      AccountedMore(g, lo, hi, added, buffer);
    }
  }

  lemma MarkedMore(marked: set<nat>, added: set<Frame>, buffer: Frame, to: nat)
    requires (forall v :: v in marked ==> v - v % 512 in added) && buffer % 512 == 0 && to <= buffer + 512
    ensures forall v :: v in marked + Pages(buffer, to) ==> v - v % 512 in added + {buffer}
  {
    forall v | v in marked + Pages(buffer, to) ensures v - v % 512 in added + {buffer} {
      if v !in marked { InBuffer(buffer, v); }
    }
  }

  lemma AccountedMore(g: nat, lo: nat, hi: nat, added: set<Frame>, buffer: Frame)
    requires Accounted(g, lo, hi, added)
    ensures Accounted(g, lo, hi, added + {buffer})
  {
    var other :| other in added && Block(3, other) == g;
    assert other in added + {buffer};
  }

  lemma InBuffer(buffer: Frame, v: nat)
    requires buffer % 512 == 0 && buffer <= v < buffer + 512
    ensures v - v % 512 == buffer
  {
  }

  // A 1 GiB leaf that the loop splits holds an end of the range.
  lemma SpoiltAtEnd(lo: nat, b: nat, hi: nat)
    requires lo <= b < hi && NeedSplitPage(b, hi - b, 3) != 0 && (lo < b ==> AlignedTo(3, b))
    ensures Block(3, b) == Block(3, lo) || Block(3, b) == Block(3, hi - 1)
  {
    if lo < b { BlockRange(3, b, hi - 1); }
  }

  // Page w was not mapped before the run, or it is lost, or spoilt.
  ghost predicate Gone(c0: Space, job: Job, b0: nat, b: nat, t: Trace, w: nat)
    requires Ok(c0)
  {
    && Inside(c0.levels, w)
    && (|| View(c0, w).None? || Block(3, w) in t.spoiled
        || (w != 0 && Fades(job, View(c0, w).value, b0 <= w < b, w in t.marked)))
  }

  // The run has marked a new buffer read-only up to a page that is gone.
  ghost predicate BufferMarked(c0: Space, job: Job, b0: nat, b: nat, t: Trace, buffer: Frame, to: nat)
    requires Ok(c0)
  {
    && buffer <= to <= buffer + 512
    && (forall v :: buffer <= v < to ==> v in t.marked || Block(3, v) in t.spoiled)
    && (to < buffer + 512 ==> Gone(c0, job, b0, b, t, to))
  }

  ghost predicate BuffersMarked(c0: Space, job: Job, b0: nat, b: nat, t: Trace, added: set<Frame>)
    requires Ok(c0)
  {
    forall buffer :: buffer in added ==> exists to :: BufferMarked(c0, job, b0, b, t, buffer, to)
  }

  // A trace that has only grown, but for pages of spoilt blocks.
  ghost predicate Later(t: Trace, t': Trace) {
    && t.spoiled <= t'.spoiled
    && forall v :: v in t.marked ==> v in t'.marked || Block(3, v) in t'.spoiled
  }

  lemma BufferStays(c0: Space, job: Job, b0: nat, b: nat, b': nat, t: Trace, t': Trace, buffer: Frame, to: nat)
    requires Ok(c0) && BufferMarked(c0, job, b0, b, t, buffer, to) && Later(t, t') && b <= b'
    ensures BufferMarked(c0, job, b0, b', t', buffer, to)
  {
    if to < buffer + 512 && View(c0, to).Some? && Block(3, to) !in t'.spoiled {
      var m := View(c0, to).value;
      assert Fades(job, m, b0 <= to < b, to in t.marked);
      FadesMore(job, m, b0 <= to < b, to in t.marked, b0 <= to < b', to in t'.marked);
    }
  }

  lemma FadesMore(job: Job, m: Mapping, done: bool, marked: bool, done': bool, marked': bool)
    requires Fades(job, m, done, marked) && (done ==> done') && (marked ==> marked')
    ensures Fades(job, m, done', marked')
  {
    var d, k, x :| Goal(job, m, d, k, x) && (d ==> done) && (k ==> marked) && Blank(x);
  }

  // A buffer just marked.
  lemma BufferNew(c0: Space, c: Space, via: Space, job: Job, b0: nat, b: nat, t: Trace, buffer: Frame, to: nat)
    requires Ok(c0) && Marking(c, via, job, buffer, to) && Reached(c0, c, job, b0, b, t)
    requires t.marked !! Pages(buffer, buffer + 512)
    ensures BufferMarked(c0, job, b0, b, t.(marked := t.marked + Pages(buffer, to)), buffer, to)
  {
    ReachedMark(c0, c, via, job, b0, b, t, buffer, to);
    var t' := t.(marked := t.marked + Pages(buffer, to));
    if to < buffer + 512 { assert PageReached(c0, via, job, b0, b, t', to); }
  }

  lemma NextIsLater(t: Trace, b: nat, r: Round)
    ensures Later(t, NextTrace(t, b, r))
    ensures r.Resume? ==> Later(t.(marked := t.marked + Pages(r.buffer, r.to)), NextTrace(t, b, r))
  {
  }

  lemma BuffersRound(c0: Space, c: Space, c': Space, job: Job, b0: nat, b: nat, t: Trace, r: Round, added: set<Frame>)
    requires Ok(c0) && Did(c, c', job, b, r) && Reached(c0, c, job, b0, b, t)
    requires NewBuffer(r).Some? ==> t.marked !! Pages(NewBuffer(r).value, NewBuffer(r).value + 512)
    requires BuffersMarked(c0, job, b0, b, t, added)
    ensures BuffersMarked(c0, job, b0, b + Moved(r), NextTrace(t, b, r),
                          Plus(added, r))
  {
    var added' := Plus(added, r);
    var t', b' := NextTrace(t, b, r), b + Moved(r);
    NextIsLater(t, b, r);
    forall buffer | buffer in added' ensures exists to :: BufferMarked(c0, job, b0, b', t', buffer, to) {
      if buffer in added {
        var to :| BufferMarked(c0, job, b0, b, t, buffer, to);
        BufferStays(c0, job, b0, b, b', t, t', buffer, to);
      } else if r.Renew? {
        BufferNew(c0, c, c', job, b0, b, t, buffer, r.to);
      } else {
        BufferNew(c0, c, r.via, job, b0, b, t, buffer, r.to);
        BufferStays(c0, job, b0, b, b', t.(marked := t.marked + Pages(buffer, r.to)), t', buffer, r.to);
      }
    }
  }

  // ---- The run that marks a buffer ----

  // A run over one aligned 2 MiB block that has reached page cut. It splits nothing
  // but a 1 GiB leaf over the block, once, with page t1.
  ghost predicate BlockRun(c0: Space, c: Space, job: Job, base: nat, cut: nat, t1: Frame, split: bool) {
    && Ok(c0) && Ok(c) && c.levels == c0.levels && Inside(c.levels, base) && base <= cut <= base + 512
    && LeavesKept(c0, c, base)
    && match LevelAt(c0, base)
       case 3 => FromLarge(c0, c, job, base, cut, t1, split)
       case 2 => !split && (if cut == base then c == c0 else cut == base + 512)
       case _ => !split && LevelAt(c, base) <= 1
  }

  // The stages of the run when a 1 GiB leaf covers the block.
  ghost predicate FromLarge(c0: Space, c: Space, job: Job, base: nat, cut: nat, t1: Frame, split: bool)
    requires Ok(c0) && Inside(c0.levels, base)
  {
    && Seen(c0, base).Some? && Holds(c0, Seen(c0, base).value) && Seen(c0, base).value.level == 3 && t1 !in c0.at
    && var leaf := Seen(c0, base).value; var c1 := Splitted(c0, leaf, t1, job.sev);
    if !split then cut == base && c == c0
    else if cut == base then c == c1
    else cut == base + 512 && c == Converted(c1, Leaf(t1, Index(2, base), 2), job)
  }

  lemma BlockStart(c: Space, job: Job, base: nat, t1: Frame)
    requires Ok(c) && Inside(c.levels, base) && t1 !in c.at
    ensures BlockRun(c, c, job, base, base, t1, false)
  {
    if Seen(c, base).Some? { SeenHolds(c, base, Seen(c, base).value); }
    forall v: nat | Inside(c.levels, v) ensures LeafKept(c, c, base, v) {
    }
  }

  // A leaf larger than 4 KiB is the leaf of the whole 2 MiB block.
  lemma SmallLeaves(c: Space, base: nat, b: nat)
    requires Ok(c) && base % 512 == 0 && base <= b < base + 512 && Inside(c.levels, base) && Inside(c.levels, b)
    ensures LevelAt(c, b) >= 2 ==> Seen(c, base) == Seen(c, b)
    ensures LevelAt(c, b) <= 3
  {
    if Seen(c, b).Some? {
      var leaf := Seen(c, b).value;
      SeenHolds(c, b, leaf);
      if leaf.level >= 2 {
        BlockRange(2, base, b);
        SameBlock(2, leaf.level, b, base);
        SeenTogether(c, b, leaf, base);
      }
    }
  }

  // Converting a leaf keeps every leaf or drops a 4 KiB one.
  lemma KeptByConvert(c0: Space, c: Space, job: Job, base: nat, b: nat, leaf: Leaf)
    requires Ok(c0) && Ok(c) && c.levels == c0.levels && LeavesKept(c0, c, base) && LeafAt(c, b, leaf)
    ensures Ok(Converted(c, leaf, job)) && LeavesKept(c0, Converted(c, leaf, job), base)
    ensures forall v: nat :: LevelAt(Converted(c, leaf, job), v) == LevelAt(c, v) ||
                             (LevelAt(c, v) == 1 && LevelAt(Converted(c, leaf, job), v) == 0)
  {
    ConvertLeaf(c, b, leaf, job, b);
    var c' := Converted(c, leaf, job);
    forall v: nat ensures LevelAt(c', v) == LevelAt(c, v) || (LevelAt(c, v) == 1 && LevelAt(c', v) == 0) {
      if Inside(c.levels, v) { ConvertedSeen(c, job, b, leaf, v); }
    }
    forall v: nat | Inside(c.levels, v) ensures LeafKept(c0, c', base, v) {
      assert LeafKept(c0, c, base, v);
      ConvertedSeen(c, job, b, leaf, v);
    }
  }

  lemma ConvertedSeen(c: Space, job: Job, b: nat, leaf: Leaf, v: nat)
    requires Ok(c) && LeafAt(c, b, leaf) && Inside(c.levels, v) && Ok(Converted(c, leaf, job))
    ensures Seen(Converted(c, leaf, job), v) == Seen(c, v) ||
            (LevelAt(c, v) == 1 && Seen(Converted(c, leaf, job), v).None?)
  {
    ConvertLeaf(c, b, leaf, job, v);
    if Block(leaf.level, v) == Block(leaf.level, b) { SeenTogether(c, b, leaf, v); }
  }

  // Splitting a 1 GiB leaf over the block keeps every other leaf.
  lemma KeptBySplit(c: Space, job: Job, base: nat, leaf: Leaf, t1: Frame)
    requires Ok(c) && LeafAt(c, base, leaf) && leaf.level == 3 && t1 !in c.at
    ensures Ok(Splitted(c, leaf, t1, job.sev)) && LeavesKept(c, Splitted(c, leaf, t1, job.sev), base)
    ensures Seen(Splitted(c, leaf, t1, job.sev), base) == Some(Leaf(t1, Index(2, base), 2))
  {
    SplitLarge(c, leaf, t1, job.sev, base);
    var c' := Splitted(c, leaf, t1, job.sev);
    forall v: nat | Inside(c.levels, v) ensures LeafKept(c, c', base, v) {
      SplitLeaf(c, base, leaf, t1, job.sev, v);
      if Block(3, v) == Block(3, base) { SeenTogether(c, base, leaf, v); }
    }
  }

  // A round of the run. Only a 1 GiB leaf is split.
  lemma BlockRound(c0: Space, c: Space, c': Space, job: Job, base: nat, cut: nat, t1: Frame, split: bool, r: Round)
    requires base % 512 == 0 && base <= cut < base + 512 && BlockRun(c0, c, job, base, cut, t1, split)
    requires Did(c, c', job, cut, r) && !r.Renew? && !r.Resume?
    requires r.Convert? ==> Moved(r) <= base + 512 - cut
    requires r.Split? ==> NeedSplitPage(cut, base + 512 - cut, r.leaf.level) != 0 && (!split ==> r.spare == t1)
    ensures r.Split? ==> !split
    ensures BlockRun(c0, c', job, base, cut + Moved(r), t1, split || r.Split?)
  {
    if r.Convert? {
      BlockConvert(c0, c, job, base, cut, t1, split, r.leaf);
    } else if r.Split? {
      BlockSplit(c0, c, job, base, cut, t1, split, r.leaf);
    }
  }

  // Once split, the block has a 2 MiB leaf.
  lemma SplitStage(c0: Space, job: Job, base: nat, t1: Frame)
    requires Ok(c0) && Inside(c0.levels, base) && LevelAt(c0, base) == 3 && t1 !in c0.at
    ensures var leaf := Seen(c0, base).value;
      && LeafAt(c0, base, leaf) && Ok(Splitted(c0, leaf, t1, job.sev))
      && Seen(Splitted(c0, leaf, t1, job.sev), base) == Some(Leaf(t1, Index(2, base), 2))
  {
    var leaf := Seen(c0, base).value;
    SeenHolds(c0, base, leaf);
    KeptBySplit(c0, job, base, leaf, t1);
  }

  lemma BlockConvert(c0: Space, c: Space, job: Job, base: nat, cut: nat, t1: Frame, split: bool, leaf: Leaf)
    requires base % 512 == 0 && base <= cut < base + 512 && BlockRun(c0, c, job, base, cut, t1, split)
    requires LeafAt(c, cut, leaf) && cut + Span(leaf.level) <= base + 512
    ensures Ok(Converted(c, leaf, job))
    ensures BlockRun(c0, Converted(c, leaf, job), job, base, cut + Span(leaf.level), t1, split)
  {
    SmallLeaves(c, base, cut);
    KeptByConvert(c0, c, job, base, cut, leaf);
    if LevelAt(c0, base) == 3 { SplitStage(c0, job, base, t1); }
  }

  lemma BlockSplit(c0: Space, c: Space, job: Job, base: nat, cut: nat, t1: Frame, split: bool, leaf: Leaf)
    requires base % 512 == 0 && base <= cut < base + 512 && BlockRun(c0, c, job, base, cut, t1, split)
    requires LeafAt(c, cut, leaf) && leaf.level > 1 && NeedSplitPage(cut, base + 512 - cut, leaf.level) != 0
    ensures !split && t1 !in c.at
    ensures Ok(Splitted(c, leaf, t1, job.sev)) && BlockRun(c0, Splitted(c, leaf, t1, job.sev), job, base, cut, t1, true)
  {
    SmallLeaves(c, base, cut);
    if LevelAt(c0, base) == 3 {
      SplitStage(c0, job, base, t1);
      KeptBySplit(c0, job, base, leaf, t1);
    }
  }

  // The run over a buffer has marked it.
  lemma BlockRunMarks(c0: Space, c: Space, job: Job, buffer: nat, to: nat, split: bool)
    requires buffer % 512 == 0 && Ok(c0) && Inside(c0.levels, buffer + 511)
    requires BlockRun(c0, c, MarkJob(job), buffer, to, buffer + 1, split)
    requires Reached(c0, c, MarkJob(job), buffer, to, NoTrace)
    requires to < buffer + 512 ==> Inside(c0.levels, to) && View(c, to).None?
    ensures Marking(c0, c, job, buffer, to)
  {
    if LevelAt(c0, buffer) == 3 {
      SplitStage(c0, MarkJob(job), buffer, buffer + 1);
      SeenIsMapped(c, buffer);
    }
  }

  // ---- The whole run ----

  // A run over lo..hi that has reached page b.
  ghost predicate Run(c0: Space, c: Space, job: Job, lo: nat, b: nat, hi: nat, t: Trace, added: set<Frame>) {
    && Ok(c0) && Ok(c) && lo <= b <= hi
    && Reached(c0, c, job, lo, b, t) && Accounts(t, lo, hi, added) && BuffersMarked(c0, job, lo, b, t, added)
  }

  lemma RunStart(c: Space, job: Job, lo: nat, hi: nat)
    requires Ok(c) && lo <= hi
    ensures Run(c, c, job, lo, lo, hi, NoTrace, {})
  {
    ReachedStart(c, job, lo);
  }

  // No page of a new buffer is marked.
  lemma NotMarked(t: Trace, lo: nat, hi: nat, added: set<Frame>, buffer: Frame)
    requires Accounts(t, lo, hi, added) && buffer % 512 == 0 && buffer !in added
    ensures t.marked !! Pages(buffer, buffer + 512)
  {
    forall v | v in t.marked ensures v !in Pages(buffer, buffer + 512) {
      assert v - v % 512 in added;
    }
  }

  // Every round keeps it.
  lemma RunRound(c0: Space, c: Space, c': Space, job: Job, lo: nat, b: nat, hi: nat, t: Trace, added: set<Frame>,
                 r: Round)
    requires Run(c0, c, job, lo, b, hi, t, added) && b < hi && AtStart(c, lo, b) && Did(c, c', job, b, r)
    requires b + Moved(r) <= hi && (r.Resume? ==> NeedSplitPage(b, hi - b, r.leaf.level) != 0)
    requires NewBuffer(r).Some? ==> NewBuffer(r).value !in added
    ensures Run(c0, c', job, lo, b + Moved(r), hi, NextTrace(t, b, r),
                Plus(added, r))
    ensures !r.Renew? ==> AtStart(c', lo, b + Moved(r))
  {
    if NewBuffer(r).Some? { NotMarked(t, lo, hi, added, NewBuffer(r).value); }
    ReachedRound(c0, c, c', job, lo, b, t, r);
    AccountsRound(c, c', job, lo, b, hi, t, r, added);
    BuffersRound(c0, c, c', job, lo, b, t, r, added);
    if !r.Renew? { StartRound(c, c', job, lo, b, r); }
  }

  // ---- Executions ----

  // Where the loop is: the round it did last, its tables and page, what its
  // renewals have done, the buffers they added, the pages it took without one, what
  // AllocateAlignedPages answered, and how often it split a leaf and changed the
  // tables.
  datatype Point = Point(last: Round, c: Space, b: nat, t: Trace, added: set<Frame>, spares: seq<Frame>,
                         answers: seq<Option<Frame>>, splits: nat, changes: nat)

  ghost function Start(c: Space, lo: nat): Point { Point(Idle, c, lo, NoTrace, {}, [], [], 0, 0) }

  // What AllocateAlignedPages answers in a round.
  function Answer(r: Round): seq<Option<Frame>> {
    if NewBuffer(r).Some? then [NewBuffer(r)] else if r.Dry? && !r.locked then [None] else []
  }

  // The point after a round that leaves tables c.
  ghost function Next(p: Point, r: Round, c: Space): Point {
    Point(r, c, p.b + Moved(r), NextTrace(p.t, p.b, r), Plus(p.added, r),
          if r.Split? then p.spares + [r.spare] else p.spares, p.answers + Answer(r),
          p.splits + (if r.Split? || r.Resume? then 1 else 0), p.changes + (if c != p.c then 1 else 0))
  }

  // The leaf at page b is too large for the rest of the range.
  ghost predicate Oversized(c: Space, b: nat, hi: nat)
    requires Ok(c)
  {
    b < hi && LevelAt(c, b) > 0 && NeedSplitPage(b, hi - b, LevelAt(c, b)) != 0
  }

  // A round of the loop up to page hi leads from p to q: an allocation is needed, a
  // new buffer is new, and a renewal without a split changes nothing. A round that
  // gets no page ends the loop.
  ghost predicate Follows(p: Point, q: Point, job: Job, hi: nat) {
    && !p.last.Renew? && !p.last.Dry? && p.b < hi && q == Next(p, q.last, q.c) && q.b <= hi
    && Did(p.c, q.c, job, p.b, q.last)
    && (q.last.Split? || q.last.Resume? ==> NeedSplitPage(p.b, hi - p.b, q.last.leaf.level) != 0)
    && (q.last.Dry? || q.last.Renew? ==> Oversized(p.c, p.b, hi) && q.c == p.c)
    && (NewBuffer(q.last).Some? ==> NewBuffer(q.last).value !in p.added)
  }

  ghost predicate FollowsAt(h: seq<Point>, i: nat, job: Job, hi: nat) {
    0 < i < |h| ==> Follows(h[i - 1], h[i], job, hi)
  }

  // The loop over lo..hi goes through these points, from tables c0 to point p.
  ghost predicate Execution(h: seq<Point>, c0: Space, job: Job, lo: nat, hi: nat, p: Point) {
    && Ok(c0) && lo <= hi && |h| > 0 && h[0] == Start(c0, lo) && h[|h| - 1] == p
    && forall i: nat :: FollowsAt(h, i, job, hi)
  }

  lemma Begin(c0: Space, job: Job, lo: nat, hi: nat)
    requires Ok(c0) && lo <= hi
    ensures Execution([Start(c0, lo)], c0, job, lo, hi, Start(c0, lo))
  {
  }

  lemma Extend(h: seq<Point>, c0: Space, job: Job, lo: nat, hi: nat, p: Point, q: Point)
    requires Execution(h, c0, job, lo, hi, p) && Follows(p, q, job, hi)
    ensures Execution(h + [q], c0, job, lo, hi, q)
  {
    var h' := h + [q];
    forall i: nat ensures FollowsAt(h', i, job, hi) {
      assert FollowsAt(h, i, job, hi);
      if 0 < i < |h| { assert h'[i - 1] == h[i - 1] && h'[i] == h[i]; }
    }
  }

  // The loop up to page hi has come to point p.
  ghost predicate RunTo(c0: Space, job: Job, lo: nat, hi: nat, p: Point) {
    Run(c0, p.c, job, lo, p.b, hi, p.t, p.added) && (!p.last.Renew? ==> AtStart(p.c, lo, p.b))
  }

  lemma RunFollows(c0: Space, job: Job, lo: nat, hi: nat, p: Point, q: Point)
    requires RunTo(c0, job, lo, hi, p) && Follows(p, q, job, hi)
    ensures RunTo(c0, job, lo, hi, q)
  {
    RunRound(c0, p.c, q.c, job, lo, p.b, hi, p.t, p.added, q.last);
  }

  // Every execution leaves every page as a run does, at each of its points.
  lemma {:induction false} ExecutionRuns(h: seq<Point>, c0: Space, job: Job, lo: nat, hi: nat, p: Point, k: nat)
    requires Execution(h, c0, job, lo, hi, p) && k < |h|
    ensures RunTo(c0, job, lo, hi, h[k])
    decreases k
  {
    if k == 0 {
      RunStart(c0, job, lo, hi);
    } else {
      ExecutionRuns(h, c0, job, lo, hi, p, k - 1);
      assert FollowsAt(h, k, job, hi);
      RunFollows(c0, job, lo, hi, h[k - 1], h[k]);
    }
  }

  // ---- Executions that renew nothing ----

  ghost predicate Consecutive(s: seq<Frame>, first: Frame) {
    forall i :: 0 <= i < |s| ==> s[i] == first + i
  }

  lemma ConsecutiveMore(s: seq<Frame>, first: Frame)
    requires Consecutive(s, first)
    ensures Consecutive(s + [first + |s|], first)
  {
  }

  lemma ConsecutiveLess(p: Point, q: Point, first: Frame)
    requires q == Next(p, q.last, q.c) && q.added == {} && Consecutive(q.spares, first)
    ensures p.added == {} && Consecutive(p.spares, first) && !q.last.Renew? && !q.last.Resume?
    ensures q.last.Split? ==> q.last.spare == first + |p.spares|
  {
    if q.last.Split? {
      assert q.spares[|p.spares|] == first + |p.spares|;
      forall i | 0 <= i < |p.spares| ensures p.spares[i] == first + i {
        assert q.spares[i] == first + i;
      }
    }
  }

  lemma {:induction false} TameBefore(h: seq<Point>, c0: Space, job: Job, lo: nat, hi: nat, p: Point, t1: Frame, k: nat)
    requires Execution(h, c0, job, lo, hi, p) && p.added == {} && Consecutive(p.spares, t1) && k < |h|
    ensures h[k].added == {} && Consecutive(h[k].spares, t1)
    decreases |h| - k
  {
    if k + 1 < |h| {
      TameBefore(h, c0, job, lo, hi, p, t1, k + 1);
      assert FollowsAt(h, k + 1, job, hi);
      ConsecutiveLess(h[k], h[k + 1], t1);
    }
  }

  // Over one aligned 2 MiB block they split at most once.
  lemma {:induction false} ExecutionInBlock(h: seq<Point>, c0: Space, job: Job, base: nat, t1: Frame, p: Point, k: nat)
    requires Execution(h, c0, job, base, base + 512, p) && p.added == {} && Consecutive(p.spares, t1) && k < |h|
    requires base % 512 == 0 && Inside(c0.levels, base) && t1 !in c0.at
    ensures h[k].t == NoTrace && |h[k].spares| <= 1
    ensures BlockRun(c0, h[k].c, job, base, h[k].b, t1, |h[k].spares| == 1)
    decreases k
  {
    if k == 0 {
      BlockStart(c0, job, base, t1);
    } else {
      ExecutionInBlock(h, c0, job, base, t1, p, k - 1);
      assert FollowsAt(h, k, job, base + 512);
      TameBefore(h, c0, job, base, base + 512, p, t1, k);
      var p, q := h[k - 1], h[k];
      ConsecutiveLess(p, q, t1);
      BlockRound(c0, p.c, q.c, job, base, p.b, t1, |p.spares| == 1, q.last);
    }
  }

  // ---- Runs that change nothing ----

  // Along an execution the page, the pages taken and the changes only grow.
  lemma {:induction false} Onward(h: seq<Point>, c0: Space, job: Job, lo: nat, hi: nat, p: Point, i: nat, j: nat)
    requires Execution(h, c0, job, lo, hi, p) && i <= j < |h|
    ensures h[i].b <= h[j].b && |h[i].spares| <= |h[j].spares|
    decreases j - i
  {
    if i < j {
      Onward(h, c0, job, lo, hi, p, i, j - 1);
      assert FollowsAt(h, j, job, hi);
    }
  }

  // An execution with a change has a round that changes the tables.
  lemma {:induction false} SomeChange(h: seq<Point>, c0: Space, job: Job, lo: nat, hi: nat, p: Point, k: nat)
    returns (i: nat)
    requires Execution(h, c0, job, lo, hi, p) && k < |h| && h[k].changes > 0
    ensures 0 < i <= k && Follows(h[i - 1], h[i], job, hi) && h[i].c != h[i - 1].c
    decreases k
  {
    assert FollowsAt(h, k, job, hi);
    if k > 0 && h[k].c != h[k - 1].c { return k; }
    i := SomeChange(h, c0, job, lo, hi, p, k - 1);
  }

  // Setting RO changes an entry exactly when it was writable.
  lemma MarkChanges(c: Space, b: nat, leaf: Leaf, job: Job)
    requires Ok(c) && LeafAt(c, b, leaf)
    ensures Converted(c, leaf, MarkJob(job)) != c ==> WritableAt(c, b)
  {
    SeenHolds(c, b, leaf);
    var e := At(c, leaf);
    if !e.writable {
      assert ConvertEntry(e, MarkJob(job)) == e;
      assert c.mem[leaf.table][leaf.index := e] == c.mem[leaf.table];
      assert c.mem[leaf.table := c.mem[leaf.table]] == c.mem;
    }
  }

  ghost predicate MappedAt(c: Space, v: nat)
    requires Ok(c)
  {
    Inside(c.levels, v) && View(c, v).Some?
  }

  ghost predicate WritableAt(c: Space, v: nat)
    requires Ok(c)
  {
    MappedAt(c, v) && View(c, v).value.writable
  }

  ghost predicate MappedUpTo(c: Space, lo: nat, v: nat)
    requires Ok(c)
  {
    forall w: nat :: lo <= w <= v ==> MappedAt(c, w)
  }

  // There is nothing to mark: no 1 GiB leaf covers the buffer, and up to its first
  // page that is not mapped, it is read-only.
  ghost predicate Sealed(c: Space, buffer: nat)
    requires Ok(c)
  {
    && (Inside(c.levels, buffer) ==> LevelAt(c, buffer) != 3)
    && forall v: nat :: buffer <= v < buffer + 512 && MappedUpTo(c, buffer, v) ==> !WritableAt(c, v)
  }

  // A marking that leaves the tables as they are found nothing to mark.
  lemma NothingMarked(c: Space, job: Job, buffer: nat, to: nat)
    requires Marking(c, c, job, buffer, to)
    ensures Sealed(c, buffer)
  {
    InsideBelow(c.levels + 1, buffer, buffer + 511);
    forall v: nat | buffer <= v < buffer + 512 && MappedUpTo(c, buffer, v) ensures !WritableAt(c, v) {
      assert MappedAt(c, v) && (to <= v ==> MappedAt(c, to));
      assert PageReached(c, c, MarkJob(job), buffer, to, NoTrace, v);
      MarkOutcome(MarkJob(job), View(c, v).value, View(c, v), v, true);
    }
  }

  // A page that a marking run finds writable was so from the start.
  lemma FoundWritable(c0: Space, c: Space, c': Space, job: Job, lo: nat, b: nat, to: nat)
    requires Ok(c0) && Ok(c) && Ok(c') && lo <= b < to && Inside(c0.levels, to - 1)
    requires Reached(c0, c, MarkJob(job), lo, b, NoTrace) && Reached(c0, c', MarkJob(job), lo, to, NoTrace)
    requires WritableAt(c, b)
    ensures MappedUpTo(c0, lo, b) && WritableAt(c0, b)
  {
    forall w: nat | lo <= w <= b ensures MappedAt(c0, w) {
      InsideBelow(c0.levels + 1, w, to - 1);
      assert PageReached(c0, c', MarkJob(job), lo, to, NoTrace, w);
    }
    assert PageReached(c0, c, MarkJob(job), lo, b, NoTrace, b);
    MarkOutcome(MarkJob(job), View(c0, b).value, View(c, b), b, false);
  }

  // A point of a marking run over a buffer.
  ghost predicate MarkingAt(c0: Space, job: Job, buffer: nat, p: Point) {
    && RunTo(c0, MarkJob(job), buffer, buffer + 512, p) && p.t == NoTrace && p.added == {} && |p.spares| <= 1
    && BlockRun(c0, p.c, MarkJob(job), buffer, p.b, buffer + 1, |p.spares| == 1)
  }

  lemma MarkingPoint(h: seq<Point>, c0: Space, job: Job, buffer: nat, p: Point, k: nat)
    requires Execution(h, c0, MarkJob(job), buffer, buffer + 512, p) && k < |h|
    requires p.added == {} && Consecutive(p.spares, buffer + 1)
    requires buffer % 512 == 0 && Inside(c0.levels, buffer) && buffer + 1 !in c0.at
    ensures MarkingAt(c0, job, buffer, h[k]) && h[k].b <= p.b
  {
    TameBefore(h, c0, MarkJob(job), buffer, buffer + 512, p, buffer + 1, k);
    Onward(h, c0, MarkJob(job), buffer, buffer + 512, p, k, |h| - 1);
    ExecutionRuns(h, c0, MarkJob(job), buffer, buffer + 512, p, k);
    ExecutionInBlock(h, c0, MarkJob(job), buffer, buffer + 1, p, k);
  }

  // A marking run in which some round changed the tables found something to mark.
  lemma MarkingRunChanges(h: seq<Point>, c0: Space, job: Job, buffer: nat, p: Point)
    requires Execution(h, c0, MarkJob(job), buffer, buffer + 512, p) && p.changes > 0
    requires p.added == {} && Consecutive(p.spares, buffer + 1)
    requires buffer % 512 == 0 && Inside(c0.levels, buffer + 511) && buffer + 1 !in c0.at
    ensures !Sealed(c0, buffer)
  {
    InsideBelow(c0.levels + 1, buffer, buffer + 511);
    var i := SomeChange(h, c0, MarkJob(job), buffer, buffer + 512, p, |h| - 1);
    MarkingPoint(h, c0, job, buffer, p, i - 1);
    MarkingPoint(h, c0, job, buffer, p, i);
    MarkingPoint(h, c0, job, buffer, p, |h| - 1);
    RoundChanges(c0, job, buffer, h[i - 1], h[i], p);
  }

  lemma RoundChanges(c0: Space, job: Job, buffer: nat, p: Point, q: Point, end: Point)
    requires MarkingAt(c0, job, buffer, p) && MarkingAt(c0, job, buffer, q) && MarkingAt(c0, job, buffer, end)
    requires Follows(p, q, MarkJob(job), buffer + 512) && q.c != p.c && q.b <= end.b
    requires Inside(c0.levels, buffer) && Inside(c0.levels, buffer + 511)
    ensures !Sealed(c0, buffer)
  {
    if q.last.Convert? {
      ConvertFound(c0, job, buffer, p, q, end);
    } else {
      SplitFound(c0, job, buffer, p, q);
    }
  }

  // What it converts was writable.
  lemma ConvertFound(c0: Space, job: Job, buffer: nat, p: Point, q: Point, end: Point)
    requires RunTo(c0, MarkJob(job), buffer, buffer + 512, p) && p.t == NoTrace
    requires RunTo(c0, MarkJob(job), buffer, buffer + 512, end) && end.t == NoTrace
    requires Did(p.c, q.c, MarkJob(job), p.b, q.last) && q.last.Convert? && q.c != p.c
    requires q.b == p.b + Moved(q.last) <= end.b && Inside(c0.levels, buffer + 511)
    ensures p.b < buffer + 512 && MappedUpTo(c0, buffer, p.b) && WritableAt(c0, p.b)
  {
    InsideBelow(c0.levels + 1, end.b - 1, buffer + 511);
    MarkChanges(p.c, p.b, q.last.leaf, job);
    FoundWritable(c0, p.c, end.c, job, buffer, p.b, end.b);
  }

  // A marking run splits only a 1 GiB leaf over the buffer.
  lemma SplitFound(c0: Space, job: Job, buffer: nat, p: Point, q: Point)
    requires MarkingAt(c0, job, buffer, q) && Follows(p, q, MarkJob(job), buffer + 512) && q.c != p.c
    requires Inside(c0.levels, buffer) && !q.last.Convert?
    ensures LevelAt(c0, buffer) == 3
  {
    assert q.last.Split?;
  }
}
