// What a whole run of ConvertMemoryPageAttributes makes of every page, when the
// page-table pool may be renewed on the way. A renewal edits the same tables: it
// marks the pool's new buffer read-only.
module PageTableRun {
  import opened Common
  import opened PageTables
  import opened PageTableEdit
  import opened PageTableSteps

  // ---- One page ----

  // The edit that marks a new buffer.
  function MarkJob(job: Job): Job { Job({RO}, Set, job.xd, job.sev) }

  // The mapping of a page whose entry has no bit set.
  predicate Blank(m: Mapping) {
    && m.pfn == 0 && !m.present && !m.writable && !m.nx
    && !m.user && !m.accessed && !m.dirty && !m.enc
  }

  // What a page of a 1 GiB block becomes when a split takes a link for a leaf:
  // mapped to itself, writable and executable.
  function Spoilt(sev: bool, m: Mapping, v: nat): Mapping {
    m.(pfn := v, present := true, writable := true, nx := false,
       user := false, accessed := false, dirty := false, enc := sev)
  }

  function Origin(sev: bool, m: Mapping, v: nat, spoiled: bool): Mapping {
    if spoiled then Spoilt(sev, m, v) else m
  }

  // Mapping x is m after the edit (done) and the marking (marked), in any order.
  ghost predicate Goal(job: Job, m: Mapping, done: bool, marked: bool, x: Mapping) {
    var mark := MarkJob(job);
    if done && marked then x == EditMapping(EditMapping(m, mark), job) || x == EditMapping(EditMapping(m, job), mark)
    else x == if done then EditMapping(m, job) else if marked then EditMapping(m, mark) else m
  }

  ghost predicate Became(job: Job, m: Mapping, done: bool, marked: bool, n: Mapping) {
    exists x :: Goal(job, m, done, marked, x) && Kept(job.sev, x, n)
  }

  // Before or after the edit and the marking, the page is given a mapping
  // without a bit.
  ghost predicate Fades(job: Job, m: Mapping, done: bool, marked: bool) {
    exists d: bool, k: bool, x ::
      Goal(job, m, d, k, x) && (d ==> done) && (k ==> marked) && Blank(x)
  }

  // Page v, mapped as was before the run, is mapped as now.
  ghost predicate Shows(job: Job, was: Option<Mapping>, now: Option<Mapping>, v: nat,
                        done: bool, marked: bool, spoiled: bool) {
    match was
    case None => now.None?
    case Some(m) =>
      var o := Origin(job.sev, m, v, spoiled);
      if now.None? then v != 0 && Fades(job, o, done, marked) else Became(job, o, done, marked, now.value)
  }

  lemma KeptEdit(job: Job, sev: bool, m: Mapping, n: Mapping)
    requires Kept(sev, m, n)
    ensures Kept(sev, EditMapping(m, job), EditMapping(n, job))
    ensures Blank(EditMapping(n, job)) ==> Blank(EditMapping(m, job))
    ensures Blank(n) ==> Blank(m)
  {
  }

  lemma GoalEdit(job: Job, m: Mapping, marked: bool, x: Mapping)
    requires Goal(job, m, false, marked, x)
    ensures Goal(job, m, true, marked, EditMapping(x, job))
  {
  }

  lemma GoalMark(job: Job, m: Mapping, done: bool, x: Mapping)
    requires Goal(job, m, done, false, x)
    ensures Goal(job, m, done, true, EditMapping(x, MarkJob(job)))
  {
  }

  // The page is edited; it is lost only if that leaves no bit.
  lemma ShowsConvert(job: Job, was: Option<Mapping>, now: Option<Mapping>, now': Option<Mapping>, v: nat,
                     marked: bool, spoiled: bool)
    requires Shows(job, was, now, v, false, marked, spoiled) && now.Some?
    requires if now'.None? then v != 0 && Blank(EditMapping(now.value, job)) else now' == Mapped(now, job)
    ensures Shows(job, was, now', v, true, marked, spoiled)
  {
    var o := Origin(job.sev, was.value, v, spoiled);
    var x :| Goal(job, o, false, marked, x) && Kept(job.sev, x, now.value);
    GoalEdit(job, o, marked, x);
    KeptEdit(job, job.sev, x, now.value);
  }

  // The page's leaf is split; the page is lost only if it has no bit.
  lemma ShowsSplit(job: Job, was: Option<Mapping>, now: Option<Mapping>, now': Option<Mapping>, v: nat,
                   done: bool, marked: bool, spoiled: bool)
    requires Shows(job, was, now, v, done, marked, spoiled) && now.Some?
    requires if now'.None? then v != 0 && Blank(now.value)
             else now' == Some(now.value.(enc := job.sev || now.value.enc))
    ensures Shows(job, was, now', v, done, marked, spoiled)
  {
    var o := Origin(job.sev, was.value, v, spoiled);
    var x :| Goal(job, o, done, marked, x) && Kept(job.sev, x, now.value);
    KeptSplit(job.sev, x, now.value);
  }

  lemma KeptSplit(sev: bool, m: Mapping, n: Mapping)
    requires Kept(sev, m, n)
    ensures Kept(sev, m, n.(enc := sev || n.enc))
    ensures Blank(n) ==> Blank(m)
  {
  }

  // A marking run passes over the page.
  lemma ShowsMark(job: Job, was: Option<Mapping>, now: Option<Mapping>, now': Option<Mapping>, v: nat,
                  done: bool, marked: bool, spoiled: bool, here: bool)
    requires Shows(job, was, now, v, done, marked, spoiled) && !(marked && here)
    requires Shows(MarkJob(job), now, now', v, here, false, false)
    ensures Shows(job, was, now', v, done, marked || here, spoiled)
  {
    if now.Some? {
      var o := Origin(job.sev, was.value, v, spoiled);
      var x :| Goal(job, o, done, marked, x) && Kept(job.sev, x, now.value);
      MarkOutcome(MarkJob(job), now.value, now', v, here);
      if here {
        GoalMark(job, o, done, x);
        KeptEdit(MarkJob(job), job.sev, x, now.value);
        ShowsFrom(job, o, done, true, EditMapping(x, MarkJob(job)), EditMapping(now.value, MarkJob(job)), now');
        if now'.None? && Blank(now.value) { FadesFrom(job, o, done, marked, x, now.value); }
      } else {
        ShowsFrom(job, o, done, marked, x, now.value, now');
      }
    }
  }

  // A mapping on the way to the goal stays as it is, or fades if it is blank.
  lemma ShowsFrom(job: Job, o: Mapping, done: bool, marked: bool, x: Mapping, n: Mapping, now': Option<Mapping>)
    requires Goal(job, o, done, marked, x) && Kept(job.sev, x, n)
    ensures now'.Some? && Kept(job.sev, n, now'.value) ==> Became(job, o, done, marked, now'.value)
    ensures Blank(n) ==> Fades(job, o, done, marked)
  {
    if Blank(n) { FadesFrom(job, o, done, marked, x, n); }
    if now'.Some? && Kept(job.sev, n, now'.value) { assert Kept(job.sev, x, now'.value); }
  }

  lemma FadesFrom(job: Job, o: Mapping, done: bool, marked: bool, x: Mapping, n: Mapping)
    requires Goal(job, o, done, marked, x) && Kept(job.sev, x, n) && Blank(n)
    ensures Fades(job, o, done, marked) && Fades(job, o, done, true)
  {
    assert Blank(x);
  }

  lemma MarkOutcome(mark: Job, m: Mapping, now': Option<Mapping>, v: nat, here: bool)
    requires Shows(mark, Some(m), now', v, here, false, false)
    ensures now'.None? ==> v != 0 && (Blank(m) || (here && Blank(EditMapping(m, mark))))
    ensures now'.Some? ==> Kept(mark.sev, if here then EditMapping(m, mark) else m, now'.value)
  {
  }

  // The page is spoilt; what it was before no longer matters.
  lemma ShowsSpoil(job: Job, was: Option<Mapping>, now: Option<Mapping>, v: nat, marked: bool, spoiled: bool)
    requires Shows(job, was, now, v, false, marked, spoiled) && now.Some?
    ensures Shows(job, was, Some(Spoilt(job.sev, now.value, v)), v, false, false, true)
  {
    var x := Spoilt(job.sev, was.value, v);
    assert Goal(job, x, false, false, x) && Kept(job.sev, x, Spoilt(job.sev, now.value, v));
  }

  // ---- All pages ----

  // The pages marked and the 1 GiB blocks spoilt by the renewals of a run.
  datatype Trace = Trace(marked: set<nat>, spoiled: set<nat>)

  const NoTrace := Trace({}, {})

  // The run has edited b0..b, all of which was mapped, and nothing else but what
  // its renewals did.
  ghost predicate Reached(c0: Space, c: Space, job: Job, b0: nat, b: nat, t: Trace)
    requires Ok(c0) && Ok(c)
  {
    && c.levels == c0.levels && c.root == c0.root
    && forall v: nat {:trigger View(c, v)} :: Inside(c.levels, v) ==> PageReached(c0, c, job, b0, b, t, v)
  }

  ghost predicate PageReached(c0: Space, c: Space, job: Job, b0: nat, b: nat, t: Trace, v: nat)
    requires Ok(c0) && Ok(c) && c.levels == c0.levels && Inside(c.levels, v)
  {
    && Shows(job, View(c0, v), View(c, v), v, b0 <= v < b, v in t.marked, Block(3, v) in t.spoiled)
    && (b0 <= v < b ==> View(c0, v).Some?)
  }

  lemma ReachedStart(c: Space, job: Job, b: nat)
    requires Ok(c)
    ensures Reached(c, c, job, b, b, NoTrace)
  {
    forall v: nat | Inside(c.levels, v) ensures PageReached(c, c, job, b, b, NoTrace, v) {
      if View(c, v).Some? {
        assert Goal(job, View(c, v).value, false, false, View(c, v).value);
        assert Kept(job.sev, View(c, v).value, View(c, v).value);
      }
    }
  }

  lemma DropIsBlank(c: Space, leaf: Leaf, job: Job, v: nat)
    requires Ok(c) && Inside(c.levels, v) && Seen(c, v) == Some(leaf) && ConvertDrops(leaf.level, At(c, leaf), v, job)
    ensures View(c, v).Some? && Blank(EditMapping(View(c, v).value, job))
  {
    SeenHolds(c, v, leaf);
    var e := At(c, leaf);
    ConvertEntryMeans(1, e, v, job);
    assert LeafPage(1, e.frame, v) == e.frame;
    EditRebase(View(c, v).value, LeafMapping(1, e, v), job);
  }

  lemma ReachedConvert(c0: Space, c: Space, job: Job, b0: nat, b: nat, t: Trace, leaf: Leaf)
    requires Ok(c0) && Ok(c) && b0 <= b && Reached(c0, c, job, b0, b, t)
    requires Inside(c.levels, b) && Seen(c, b) == Some(leaf) && AlignedTo(leaf.level, b)
    ensures Holds(c, leaf) && Ok(Converted(c, leaf, job))
    ensures Reached(c0, Converted(c, leaf, job), job, b0, b + Span(leaf.level), t)
  {
    SeenHolds(c, b, leaf);
    ConvertLeaf(c, b, leaf, job, b);
    var c' := Converted(c, leaf, job);
    forall v: nat | Inside(c.levels, v) ensures PageReached(c0, c', job, b0, b + Span(leaf.level), t, v) {
      assert PageReached(c0, c, job, b0, b, t, v);
      ConvertLeaf(c, b, leaf, job, v);
      BlockRange(leaf.level, b, v);
      if b <= v < b + Span(leaf.level) {
        SeenTogether(c, b, leaf, v);
        if ConvertDrops(leaf.level, At(c, leaf), v, job) { DropIsBlank(c, leaf, job, v); }
        ShowsConvert(job, View(c0, v), View(c, v), View(c', v), v, v in t.marked, Block(3, v) in t.spoiled);
      }
    }
  }

  lemma SplitDropIsBlank(c: Space, leaf: Leaf, sev: bool, v: nat)
    requires Ok(c) && Inside(c.levels, v) && Seen(c, v) == Some(leaf) && SplitDrops(leaf.level, At(c, leaf), v, sev)
    ensures View(c, v).Some? && Blank(View(c, v).value)
  {
    SeenHolds(c, v, leaf);
    LeafPageMasks(At(c, leaf).frame, v);
  }

  lemma ReachedSplit(c0: Space, c: Space, job: Job, b0: nat, b: nat, t: Trace, w: nat, leaf: Leaf, spare: Frame)
    requires Ok(c0) && Ok(c) && Reached(c0, c, job, b0, b, t)
    requires Inside(c.levels, w) && Seen(c, w) == Some(leaf) && leaf.level > 1 && spare !in c.at
    ensures Holds(c, leaf) && Ok(Splitted(c, leaf, spare, job.sev))
    ensures Reached(c0, Splitted(c, leaf, spare, job.sev), job, b0, b, t)
  {
    SplitLeaf(c, w, leaf, spare, job.sev, w);
    var c' := Splitted(c, leaf, spare, job.sev);
    forall v: nat | Inside(c.levels, v) ensures PageReached(c0, c', job, b0, b, t, v) {
      assert PageReached(c0, c, job, b0, b, t, v);
      SplitLeaf(c, w, leaf, spare, job.sev, v);
      if Block(leaf.level, v) == Block(leaf.level, w) {
        SeenTogether(c, w, leaf, v);
        if SplitDrops(leaf.level, At(c, leaf), v, job.sev) { SplitDropIsBlank(c, leaf, job.sev, v); }
        ShowsSplit(job, View(c0, v), View(c, v), View(c', v), v, b0 <= v < b, v in t.marked, Block(3, v) in t.spoiled);
      }
    }
  }

  // Pages lo..hi.
  ghost function Pages(lo: nat, hi: nat): (r: set<nat>)
    ensures forall v :: v in r <==> lo <= v < hi
  {
    if lo >= hi then {} else Pages(lo, hi - 1) + {hi - 1}
  }

  lemma ReachedMark(c0: Space, c: Space, c': Space, job: Job, b0: nat, b: nat, t: Trace, lo: nat, hi: nat)
    requires Ok(c0) && Ok(c) && Ok(c') && Reached(c0, c, job, b0, b, t)
    requires Reached(c, c', MarkJob(job), lo, hi, NoTrace)
    requires t.marked !! Pages(lo, hi)
    ensures Reached(c0, c', job, b0, b, t.(marked := t.marked + Pages(lo, hi)))
  {
    var t' := t.(marked := t.marked + Pages(lo, hi));
    forall v: nat | Inside(c.levels, v) ensures PageReached(c0, c', job, b0, b, t', v) {
      assert PageReached(c0, c, job, b0, b, t, v);
      assert PageReached(c, c', MarkJob(job), lo, hi, NoTrace, v);
      ShowsMark(job, View(c0, v), View(c, v), View(c', v), v, b0 <= v < b, v in t.marked, Block(3, v) in t.spoiled,
                lo <= v < hi);
    }
  }

  // Every page of 1 GiB block g is spoilt, every other page kept.
  ghost predicate SpoilsBlock(c: Space, c': Space, sev: bool, g: nat)
    requires Ok(c) && Ok(c')
  {
    && c'.levels == c.levels && c'.root == c.root
    && forall v: nat {:trigger View(c, v)} {:trigger View(c', v)} :: Inside(c.levels, v) ==>
         if Block(3, v) == g then View(c, v).Some? && View(c', v) == Some(Spoilt(sev, View(c, v).value, v))
         else View(c', v) == View(c, v)
  }

  ghost function SpoilTrace(t: Trace, g: nat): Trace {
    Trace((set v | v in t.marked && Block(3, v) != g), t.spoiled + {g})
  }

  lemma ReachedSpoil(c0: Space, c: Space, c': Space, job: Job, b0: nat, b: nat, t: Trace, g: nat)
    requires Ok(c0) && Ok(c) && Ok(c') && Reached(c0, c, job, b0, b, t) && SpoilsBlock(c, c', job.sev, g)
    requires forall v: nat :: b0 <= v < b ==> Block(3, v) != g
    ensures Reached(c0, c', job, b0, b, SpoilTrace(t, g))
  {
    forall v: nat | Inside(c.levels, v) ensures PageReached(c0, c', job, b0, b, SpoilTrace(t, g), v) {
      assert PageReached(c0, c, job, b0, b, t, v);
      if Block(3, v) == g {
        ShowsSpoil(job, View(c0, v), View(c, v), v, v in t.marked, Block(3, v) in t.spoiled);
      }
    }
  }
}
