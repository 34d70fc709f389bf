// ConvertMemoryPageAttributes and the renewal of its page-table pool.
module PageTableEditor {
  import opened Common
  import opened PageTables
  import opened PageTableEdit
  import opened PageTableSteps
  import opened PageTableRun
  import opened PageTableRefill
  import opened PageTableRounds
  import opened PageTablePool

  datatype Status = Success | Unsupported | InvalidParameter | OutOfResources

  // A page of a buffer is in no other buffer.
  lemma OneHome(buffer: Frame, other: Frame, k: nat)
    requires buffer % UNIT == 0 && other % UNIT == 0 && buffer != other && k < UNIT
    ensures Home(other + k) == other != buffer
  {
  }

  // What the editor holds: the pages handed out, the pool's buffers, the pages in
  // use as tables, the state of the pool, and the buffers still to come.
  datatype Holdings = Holdings(handed: set<Frame>, buffers: set<Frame>, tables: set<Frame>, lock: bool,
                               base: Frame, offset: nat, free: nat, supply: seq<Option<Frame>>)

  // Pages once handed out and buffers once added stay so, a new table is a page
  // not handed out before, and no buffer is added while the pool is locked.
  ghost predicate Grew(s: Holdings, s': Holdings) {
    && s.handed <= s'.handed && s.buffers <= s'.buffers && s'.lock == s.lock
    && s'.tables <= s.tables + (s'.handed - s.handed)
    && (s.lock ==> s'.buffers == s.buffers && s'.base == s.base && s'.supply == s.supply)
  }

  lemma GrewTwice(s: Holdings, s1: Holdings, s2: Holdings)
    requires Grew(s, s1) && Grew(s1, s2)
    ensures Grew(s, s2)
  {
  }

  // What a conversion tells its caller.
  datatype Report = Report(status: Status, isSplit: bool, isModified: bool)

  function Both(t: Report, u: Report): Report { Report(u.status, t.isSplit || u.isSplit, t.isModified || u.isModified) }

  // Where a conversion up to page end stopped, and why.
  ghost predicate Stopped(status: Status, p: Point, end: nat)
    requires Ok(p.c)
  {
    match status
    case Success => p.b == end
    case Unsupported => p.b < end && Inside(p.c.levels, p.b) && View(p.c, p.b).None?
    case OutOfResources => p.b < end && (p.last.Dry? || p.last.Renew?)
    case InvalidParameter => false
  }

  // ---- What AllocateAlignedPages answers ----

  function Head(s: seq<Option<Frame>>): Option<Frame> { if s == [] then None else s[0] }

  function Tail(s: seq<Option<Frame>>): seq<Option<Frame>> { if s == [] then [] else s[1..] }

  // At most one answer is taken from s.
  ghost predicate Answered(s: seq<Option<Frame>>, a: seq<Option<Frame>>, s': seq<Option<Frame>>) {
    if a == [] then s' == s else a == [Head(s)] && s' == Tail(s)
  }

  // Answers a are taken from s, in order.
  ghost predicate Drawn(s: seq<Option<Frame>>, a: seq<Option<Frame>>, s': seq<Option<Frame>>) {
    && s' == (if |a| <= |s| then s[|a|..] else [])
    && forall i :: 0 <= i < |a| ==> a[i] == if i < |s| then s[i] else None
  }

  lemma DrawnMore(s: seq<Option<Frame>>, a: seq<Option<Frame>>, s1: seq<Option<Frame>>, b: seq<Option<Frame>>,
                  s2: seq<Option<Frame>>)
    requires Drawn(s, a, s1) && Answered(s1, b, s2)
    ensures Drawn(s, a + b, s2)
  {
    if b == [] { assert a + b == a; }
  }

  lemma DrawnTwice(s: seq<Option<Frame>>, a: seq<Option<Frame>>, s1: seq<Option<Frame>>, b: seq<Option<Frame>>,
                   s2: seq<Option<Frame>>)
    requires Drawn(s, a, s1) && Drawn(s1, b, s2)
    ensures Drawn(s, a + b, s2)
  {
    forall i | 0 <= i < |a + b| ensures (a + b)[i] == if i < |s| then s[i] else None {
      if i >= |a| { assert (a + b)[i] == b[i - |a|]; }
    }
  }

  // ---- What a round takes ----

  // The holdings before and after an allocation. Round Idle: the pool had a page.
  ghost predicate Allocated(s: Holdings, s': Holdings, page: Option<Frame>, r: Round) {
    && Grew(s, s') && s'.buffers == Plus(s.buffers, r) && Answered(s.supply, Answer(r), s'.supply)
    && (page.Some? ==>
          && page.value in s'.handed && page.value !in s.handed && page.value !in s'.tables
          && s'.buffers != {} && s'.offset > 0 && page.value == s'.base + s'.offset - 1)
    && match r
       case Idle =>
         && s.free > 0 && page == Some(s.base + s.offset)
         && s'.free + 1 == s.free && s'.base == s.base && s'.offset == s.offset + 1
       case Dry(locked) => s.free == 0 && s' == s.(supply := s'.supply) && locked == s.lock && page == None
       case Renew(buffer, _) => s.free == 0 && !s.lock && buffer !in s.buffers
       case _ => false
  }

  // The holdings before and after a new buffer becomes the pool, which is locked.
  ghost predicate Joined(s: Holdings, s': Holdings, buffer: Frame) {
    && s.lock && Grew(s.(base := buffer, buffers := s.buffers + {buffer}), s') && UNIT - 2 <= s'.free
  }

  // The holdings before and after a round of the loop.
  ghost predicate Used(s: Holdings, s': Holdings, r: Round) {
    && Grew(s, s') && s'.buffers == Plus(s.buffers, r) && Answered(s.supply, Answer(r), s'.supply)
    && (NewBuffer(r).Some? ==> s.free == 0 && !s.lock && NewBuffer(r).value !in s.buffers)
    && (r.Idle? || r.Convert? ==> s' == s)
    && (r.Dry? ==> s.free == 0 && s' == s.(supply := s'.supply) && r.locked == s.lock)
    && (r.Split? ==>
          s'.free + 1 == s.free && s'.base == s.base && s'.offset == s.offset + 1 && r.spare == s.base + s.offset)
  }

  // An allocation and, if it gave a page, the split that follows it are a round.
  lemma AllocatedUsed(s: Holdings, s1: Holdings, page: Option<Frame>, r: Round, leaf: Leaf, c: Space, s': Holdings,
                      r': Round)
    requires Allocated(s, s1, page, r)
    requires page.None? ==> s' == s1 && r' == r
    requires page.Some? ==> s' == s1.(tables := s1.tables + {page.value})
    requires page.Some? ==>
      r' == if r.Renew? then Resume(leaf, c, page.value, r.buffer, r.to) else Split(leaf, page.value)
    ensures Used(s, s', r')
  {
  }

  // The loop is at point p with holdings s, having started with s0. While the pool
  // is locked, pages are taken in order from t1.
  ghost predicate TookFrom(p: Point, s0: Holdings, s: Holdings, t1: Frame) {
    && Grew(s0, s) && p.added == s.buffers - s0.buffers && Drawn(s0.supply, p.answers, s.supply)
    && (p.last.Dry? ==> s.free == 0 && p.last.locked == s.lock)
    && (s.lock ==> Consecutive(p.spares, t1) && t1 + |p.spares| == s.base + s.offset)
  }

  lemma TookMore(p: Point, s0: Holdings, s: Holdings, t1: Frame, r: Round, c: Space, s': Holdings)
    requires TookFrom(p, s0, s, t1) && Used(s, s', r)
    ensures TookFrom(Next(p, r, c), s0, s', t1)
  {
    GrewTwice(s0, s, s');
    DrawnMore(s0.supply, p.answers, s.supply, Answer(r), s'.supply);
    if s.lock { ConsecutiveMore(p.spares, t1); }
  }

  // A loop over base..end that started with tables c0 and holdings s0 has come to
  // point p, at page cut in a leaf of this level, with tables c and holdings s.
  ghost predicate Running(t: Report, h: seq<Point>, p: Point, job: Job, c0: Space, s0: Holdings, c: Space, s: Holdings,
                          base: nat, end: nat, cut: nat, t1: Frame, level: nat) {
    && Execution(h, c0, job, base, end, p) && TookFrom(p, s0, s, t1) && p.c == c && p.b == cut <= end && Ok(c)
    && level == LevelAt(c, cut)
    && (if t.status.Success? then !p.last.Renew? && !p.last.Dry? else Stopped(t.status, p, end))
    && (t.isSplit <==> p.splits > 0) && (t.isModified <==> p.changes > 0) && (t.isModified || c == c0)
  }

  lemma RunningStart(t: Report, job: Job, c0: Space, s0: Holdings, base: nat, end: nat, t1: Frame)
    returns (h: seq<Point>, p: Point, level: nat)
    requires Ok(c0) && base <= end && t == Report(Success, false, false) && t1 == s0.base + s0.offset
    ensures Running(t, h, p, job, c0, s0, c0, s0, base, end, base, t1, level)
  {
    Begin(c0, job, base, end);
    h, p, level := [Start(c0, base)], Start(c0, base), LevelAt(c0, base);
  }

  // A round ended the loop, or it goes on.
  ghost predicate RoundTold(u: Report, r: Round, c: Space, c': Space, b: nat, end: nat)
    requires Ok(c) && Ok(c')
  {
    && b < end && (match u.status
        case Success => r.Convert? || ((r.Split? || r.Resume?) && NeedSplitPage(b, end - b, r.leaf.level) != 0)
        case Unsupported => r.Idle? && Inside(c.levels, b) && View(c, b).None?
        case OutOfResources => (r.Dry? || r.Renew?) && c' == c && Oversized(c, b, end)
        case InvalidParameter => false)
    && (u.isModified <==> c' != c) && (u.isSplit <==> r.Split? || r.Resume?)
    && (u.isSplit ==> LevelAt(c', b) < LevelAt(c, b))
  }

  lemma RunningMore(t: Report, h: seq<Point>, p: Point, job: Job, c0: Space, s0: Holdings, c: Space, s: Holdings,
                    base: nat, end: nat, cut: nat, t1: Frame, level: nat, u: Report, r: Round, c': Space, s': Holdings,
                    cut': nat)
    returns (h': seq<Point>, p': Point, level': nat)
    requires Running(t, h, p, job, c0, s0, c, s, base, end, cut, t1, level) && t.status.Success?
    requires cut' == cut + Moved(r) <= end && cut < end && Used(s, s', r) && Did(c, c', job, cut, r)
    requires RoundTold(u, r, c, c', cut, end)
    ensures Running(Both(t, u), h', p', job, c0, s0, c', s', base, end, cut', t1, level')
    ensures u.status.Success? ==> cut < cut' || (cut' == cut && level' < level)
  {
    p' := Next(p, r, c');
    h', level' := h + [p'], LevelAt(c', cut');
    TookMore(p, s0, s, t1, r, c', s');
    Extend(h, c0, job, base, end, p, p');
  }

  // ---- Ranges beyond the address space ----

  // The number of pages of the address space. Higher address bits take no part in
  // a walk.
  function Top(levels: nat): (r: nat)
    ensures r > 0
  {
    if levels == 5 then 0x2000_0000_0000 else 0x10_0000_0000
  }

  lemma InsideTop(levels: nat, v: nat)
    requires 4 <= levels <= 5
    ensures Inside(levels, v) <==> v < Top(levels)
  {
    assert Block(2, v) == v / 512;
    assert Block(3, v) == v / 512 / 512;
    assert Block(4, v) == v / 512 / 512 / 512;
    assert Block(5, v) == v / 512 / 512 / 512 / 512;
    assert Block(6, v) == v / 512 / 512 / 512 / 512 / 512;
  }

  // Up to the top of the address space, the loop splits as if the range ended there.
  lemma SplitsAlike(levels: nat, b: nat, len: nat, level: nat)
    requires 4 <= levels <= 5 && b < Top(levels) && 1 <= level <= 3 && len >= Top(levels) - b
    ensures NeedSplitPage(b, len, level) == NeedSplitPage(b, Top(levels) - b, level)
  {
    RoomToTop(levels, b);
  }

  lemma RoomToTop(levels: nat, b: nat)
    requires b < Top(levels)
    ensures b % 512 == 0 ==> b + 512 <= Top(levels)
    ensures b % 0x4_0000 == 0 ==> b + 0x4_0000 <= Top(levels)
  {
    if levels == 5 {
      assert b % 512 == 0 ==> b + 512 <= 0x2000_0000_0000;
    } else {
      assert b % 512 == 0 ==> b + 512 <= 0x10_0000_0000;
    }
  }

  // The page of address a and the part of a range from there up to the top.
  method UpToTop(levels: nat, a: nat, len: nat) returns (b: nat, part: nat)
    requires 4 <= levels <= 5 && len > 0
    ensures b == a % Top(levels) && 0 < part == Min(len, Top(levels) - b)
    ensures Inside(levels, b) && Inside(levels, b + part - 1)
  {
    b := a % Top(levels);
    part := if len < Top(levels) - b then len else Top(levels) - b;
    InsideTop(levels, b);
    InsideTop(levels, b + part - 1);
  }

  // A pass over lo..hi, part of a range.
  datatype Leg = Leg(from: Space, lo: nat, hi: nat, h: seq<Point>, p: Point)

  ghost predicate LegRuns(leg: Leg, job: Job) {
    && Execution(leg.h, leg.from, job, leg.lo, leg.hi, leg.p)
    && Run(leg.from, leg.p.c, job, leg.lo, leg.p.b, leg.hi, leg.p.t, leg.p.added)
  }

  // A pass that ran out of pages stopped at a leaf that has to be split, with an
  // empty pool that is locked, or gets no buffer, or gets one with nothing to mark.
  lemma WhyOutOfResources(leg: Leg, job: Job)
    requires LegRuns(leg, job) && Stopped(OutOfResources, leg.p, leg.hi)
    ensures Oversized(leg.p.c, leg.p.b, leg.hi)
    ensures match leg.p.last
      case Dry(locked) => !locked ==> |leg.p.answers| > 0 && leg.p.answers[|leg.p.answers| - 1] == None
      case Renew(buffer, _) => buffer in leg.p.added && Sealed(leg.p.c, buffer)
      case _ => false
  {
    assert FollowsAt(leg.h, |leg.h| - 1, job, leg.hi);
    if leg.p.last.Renew? { NothingMarked(leg.p.c, job, leg.p.last.buffer, leg.p.last.to); }
  }

  ghost predicate LegAt(legs: seq<Leg>, i: nat, job: Job) {
    i < |legs| ==>
      && LegRuns(legs[i], job)
      && (i > 0 ==> legs[i].from == legs[i - 1].p.c && legs[i - 1].p.b == legs[i - 1].hi)
  }

  // The passes over a range, each from where the last one ended, from tables c0 to
  // tables c.
  ghost predicate Journey(legs: seq<Leg>, c0: Space, c: Space, job: Job) {
    && (forall i: nat :: LegAt(legs, i, job))
    && if legs == [] then c == c0 else legs[0].from == c0 && legs[|legs| - 1].p.c == c
  }

  // The last pass has reached its end.
  ghost predicate Whole(legs: seq<Leg>) {
    legs != [] ==> legs[|legs| - 1].p.b == legs[|legs| - 1].hi
  }

  lemma Onwards(legs: seq<Leg>, c0: Space, c: Space, job: Job, leg: Leg)
    requires Journey(legs, c0, c, job) && leg.from == c && Whole(legs)
    requires LegRuns(leg, job)
    ensures Journey(legs + [leg], c0, leg.p.c, job)
  {
    var legs' := legs + [leg];
    forall i: nat ensures LegAt(legs', i, job) {
      assert LegAt(legs, i, job);
      if i < |legs| { assert legs'[i] == legs[i] && (i > 0 ==> legs'[i - 1] == legs[i - 1]); }
    }
  }

  function Min(x: int, y: int): int { if x < y then x else y }

  // Pass i over a range of length pages from first on: the first pass starts there,
  // the others at page 0, and each goes to the end of the range or to the top.
  ghost predicate LaidAt(legs: seq<Leg>, i: nat, top: nat, first: nat, length: nat) {
    i < |legs| ==>
      && (if i == 0 then first else 0) == legs[i].lo < legs[i].hi
      && legs[i].hi == Min(top, legs[i].lo + length - Passed(legs[..i]))
  }

  ghost predicate Laid(legs: seq<Leg>, top: nat, first: nat, length: nat) {
    forall i: nat :: LaidAt(legs, i, top, first, length)
  }

  lemma LaidMore(legs: seq<Leg>, top: nat, first: nat, length: nat, leg: Leg)
    requires Laid(legs, top, first, length) && (if legs == [] then first else 0) == leg.lo < leg.hi
    requires leg.hi == Min(top, leg.lo + length - Passed(legs))
    ensures Laid(legs + [leg], top, first, length)
  {
    var legs' := legs + [leg];
    forall i: nat ensures LaidAt(legs', i, top, first, length) {
      assert LaidAt(legs, i, top, first, length);
      if i < |legs| { assert legs'[..i] == legs[..i]; } else if i == |legs| { assert legs'[..i] == legs; }
    }
  }

  // The page the range goes on at, in 64-bit addresses.
  ghost function Address(base: nat, legs: seq<Leg>): int {
    if legs == [] then base else (base + Passed(legs)) % 0x10_0000_0000_0000
  }

  lemma WrapsAround(levels: nat, a: nat)
    ensures a % 0x10_0000_0000_0000 % Top(levels) == a % Top(levels)
  {
    var q := a / 0x10_0000_0000_0000;
    assert a == q * (0x10_0000_0000_0000 / Top(levels)) * Top(levels) + a % 0x10_0000_0000_0000;
  }

  // The first page's entry is zero, and the page is reached at another address than 0.
  ghost predicate HiddenAt(c: Space, a: int, top: nat)
    requires Ok(c) && top > 0
  {
    a != 0 && a % top == 0 && Inside(c.levels, 0) && Seen(c, 0).Some? && Seen(c, 0).value.table in c.mem
    && Holds(c, Seen(c, 0).value) && At(c, Seen(c, 0).value) == Zero
  }

  // How the passes over a range ended, and why.
  ghost predicate Ended(status: Status, legs: seq<Leg>, c: Space, base: nat, top: nat)
    requires Ok(c) && top > 0
  {
    || (legs != [] && Ok(legs[|legs| - 1].p.c) && Stopped(status, legs[|legs| - 1].p, legs[|legs| - 1].hi))
    || (status.Unsupported? && Whole(legs) && HiddenAt(c, Address(base, legs), top))
  }

  lemma SmallRest(a: nat, top: nat)
    requires a < top
    ensures a % top == a
  {
  }

  // A range within the address space takes one pass.
  lemma OnePass(status: Status, legs: seq<Leg>, c0: Space, c: Space, job: Job, base: nat, length: nat, top: nat)
    requires 0 < length && base + length <= top && Ok(c) && Journey(legs, c0, c, job)
    requires Ended(status, legs, c, base, top) && Laid(legs, top, base % top, length)
    ensures |legs| == 1 && legs[0].lo == base && legs[0].hi == base + length
  {
    SmallRest(base, top);
    if legs != [] {
      assert LaidAt(legs, 0, top, base, length) && Passed(legs[..0]) == 0;
      assert LegAt(legs, 1, job) && LaidAt(legs, 1, top, base, length);
      PassedMore([], legs[0]);
      assert legs[..1] == [] + [legs[0]];
    }
  }

  // Between the passes: page a is the next one, and len pages are left.
  ghost predicate Between(legs: seq<Leg>, a: int, len: nat, base: nat, length: nat, top: nat)
    requires top > 0
  {
    && Whole(legs) && Passed(legs) + len == length && a == Address(base, legs)
    && (if legs == [] then len == length else len < length)
    && (len > 0 ==> a % top == if legs == [] then base % top else 0)
  }

  lemma NextBetween(legs: seq<Leg>, legs': seq<Leg>, a: nat, len: nat, part: nat, base: nat, length: nat, levels: nat)
    requires Between(legs, a, len, base, length, Top(levels)) && Whole(legs') && legs' != []
    requires 0 < part == Min(len, Top(levels) - a % Top(levels)) && Passed(legs') == Passed(legs) + part
    ensures Between(legs', (a + part) % 0x10_0000_0000_0000, len - part, base, length, Top(levels))
  {
    WrapsAround(levels, a + part);
    if legs != [] { SumWraps(base + Passed(legs), part); }
    if part < len { UpToMultiple(levels, a, part); }
    assert (a + part) % 0x10_0000_0000_0000 == Address(base, legs');
  }

  lemma SumWraps(x: int, y: int)
    ensures (x % 0x10_0000_0000_0000 + y) % 0x10_0000_0000_0000 == (x + y) % 0x10_0000_0000_0000
  {
  }

  lemma UpToMultiple(levels: nat, a: int, part: int)
    requires a % Top(levels) + part == Top(levels)
    ensures (a + part) % Top(levels) == 0
  {
    if levels == 5 { assert (a + part) % 0x2000_0000_0000 == 0; }
  }

  // The answers of AllocateAlignedPages during the passes, in order.
  ghost function Answers(legs: seq<Leg>): seq<Option<Frame>> {
    if legs == [] then [] else Answers(legs[..|legs| - 1]) + legs[|legs| - 1].p.answers
  }

  // Some pass split a leaf; some pass changed the tables.
  ghost predicate AnySplit(legs: seq<Leg>) { exists i :: 0 <= i < |legs| && legs[i].p.splits > 0 }

  ghost predicate AnyChange(legs: seq<Leg>) { exists i :: 0 <= i < |legs| && legs[i].p.changes > 0 }

  lemma AnyMore(legs: seq<Leg>, leg: Leg)
    ensures AnySplit(legs + [leg]) <==> AnySplit(legs) || leg.p.splits > 0
    ensures AnyChange(legs + [leg]) <==> AnyChange(legs) || leg.p.changes > 0
  {
    var legs' := legs + [leg];
    assert legs'[|legs|] == leg && forall i :: 0 <= i < |legs| ==> legs'[i] == legs[i];
  }

  // Passes over a range of length pages from base on lead from tables c0 and
  // holdings s0 to tables c and holdings s.
  ghost predicate Travelled(legs: seq<Leg>, job: Job, c0: Space, s0: Holdings, c: Space, s: Holdings, base: nat,
                            length: nat, top: nat)
    requires top > 0
  {
    && Grew(s0, s) && Journey(legs, c0, c, job) && Laid(legs, top, base % top, length)
    && Drawn(s0.supply, Answers(legs), s.supply)
  }

  lemma TravelledMore(legs: seq<Leg>, job: Job, c0: Space, s0: Holdings, s: Holdings, base: nat, length: nat, top: nat,
                      a: int, len: nat, leg: Leg, s': Holdings)
    requires top > 0 && Travelled(legs, job, c0, s0, leg.from, s, base, length, top)
    requires len > 0 && Between(legs, a, len, base, length, top)
    requires Grew(s, s') && LegRuns(leg, job) && Drawn(s.supply, leg.p.answers, s'.supply)
    requires leg.lo == a % top && leg.hi == leg.lo + Min(len, top - leg.lo)
    ensures Travelled(legs + [leg], job, c0, s0, leg.p.c, s', base, length, top)
    ensures Passed(legs + [leg]) == Passed(legs) + leg.p.b - leg.lo
    ensures AnySplit(legs + [leg]) <==> AnySplit(legs) || leg.p.splits > 0
    ensures AnyChange(legs + [leg]) <==> AnyChange(legs) || leg.p.changes > 0
  {
    GrewTwice(s0, s, s');
    DrawnTwice(s0.supply, Answers(legs), s.supply, leg.p.answers, s'.supply);
    Onwards(legs, c0, leg.from, job, leg);
    LaidMore(legs, top, base % top, length, leg);
    PassedMore(legs, leg);
    AnyMore(legs, leg);
  }

  // The pages passed over.
  ghost function Passed(legs: seq<Leg>): int {
    if legs == [] then 0 else Passed(legs[..|legs| - 1]) + legs[|legs| - 1].p.b - legs[|legs| - 1].lo
  }

  lemma PassedMore(legs: seq<Leg>, leg: Leg)
    ensures Passed(legs + [leg]) == Passed(legs) + leg.p.b - leg.lo
    ensures Answers(legs + [leg]) == Answers(legs) + leg.p.answers
  {
    assert (legs + [leg])[..|legs|] == legs;
  }

  // The loop on a range has made these passes and goes on at page a with len pages
  // left, unless it has ended.
  ghost predicate Passing(t: Report, legs: seq<Leg>, job: Job, c0: Space, s0: Holdings, c: Space, s: Holdings,
                          base: nat, length: nat, a: int, len: int, levels: nat) {
    && Ok(c) && len >= 0 && Travelled(legs, job, c0, s0, c, s, base, length, Top(levels))
    && (t.status.Success? ==> Between(legs, a, len, base, length, Top(levels)))
    && (!t.status.Success? || len < length ==> Ended(t.status, legs, c, base, Top(levels)))
    && (t.isSplit <==> AnySplit(legs)) && (t.isModified <==> AnyChange(legs)) && (t.isModified || c == c0)
  }

  lemma PassingStart(job: Job, c: Space, s: Holdings, base: nat, length: nat, levels: nat)
    requires Ok(c)
    ensures Passing(Report(Success, false, false), [], job, c, s, c, s, base, length, base, length, levels)
  {
  }

  // The next page is hidden.
  lemma PassingHidden(t: Report, legs: seq<Leg>, job: Job, c0: Space, s0: Holdings, c: Space, s: Holdings, base: nat,
                      length: nat, a: nat, len: nat, levels: nat, a': int, len': int)
    requires Passing(t, legs, job, c0, s0, c, s, base, length, a, len, levels) && t.status.Success? && len' >= 0
    requires HiddenAt(c, a, Top(levels))
    ensures Passing(t.(status := Unsupported), legs, job, c0, s0, c, s, base, length, a', len', levels)
  {
  }

  // The pass over lo..hi has led from tables c and holdings s to tables c' and
  // holdings s', and tells what it did.
  ghost predicate Over(t: Report, leg: Leg, job: Job, c: Space, s: Holdings, c': Space, s': Holdings, lo: nat,
                       hi: nat) {
    && leg.from == c && leg.lo == lo && leg.hi == hi && leg.p.c == c' && LegRuns(leg, job)
    && Stopped(t.status, leg.p, hi) && (t.isSplit <==> leg.p.splits > 0) && (t.isModified <==> leg.p.changes > 0)
    && (t.isModified || c' == c) && leg.p.added == s'.buffers - s.buffers
    && Grew(s, s') && Drawn(s.supply, leg.p.answers, s'.supply)
    && (leg.p.last.Dry? ==> leg.p.last.locked == s'.lock)
  }

  // One more pass.
  lemma PassingMore(t: Report, legs: seq<Leg>, job: Job, c0: Space, s0: Holdings, c: Space, s: Holdings, base: nat,
                    length: nat, a: nat, len: nat, levels: nat, u: Report, leg: Leg, c': Space, s': Holdings, b: nat,
                    part: nat, a': nat, len': nat)
    requires Passing(t, legs, job, c0, s0, c, s, base, length, a, len, levels) && t.status.Success? && len > 0
    requires b == a % Top(levels) && part == Min(len, Top(levels) - b) && Over(u, leg, job, c, s, c', s', b, b + part)
    requires a' == (a + part) % 0x10_0000_0000_0000 && len' == len - part
    ensures Passing(Both(t, u), legs + [leg], job, c0, s0, c', s', base, length, a', len', levels)
  {
    TravelledMore(legs, job, c0, s0, s, base, length, Top(levels), a, len, leg, s');
    if u.status.Success? { NextBetween(legs, legs + [leg], a, len, part, base, length, levels); }
  }

  // ---- The editor ----

  class Editor {
    const root: Frame
    const levels: nat
    const xd: bool  // execute-disable is active
    const sev: bool // PcdPteMemoryEncryptionAddressOrMask is not zero
    var mem: Memory
    ghost var at: Layout
    const pool: Pool
    var supply: seq<Option<Frame>> // what AllocateAlignedPages returns next

    ghost function S(): Space
      reads this`mem, this`at
    {
      Space(mem, at, root, levels)
    }

    // The tables form a tree that neither the pool's pages nor the buffers still
    // to come are part of.
    ghost predicate Valid()
      reads this, pool
    {
      Ok(S()) && pool.Valid() && pool.Outside(at) && Supplied()
    }

    // A buffer that AllocateAlignedPages may return for the pool.
    ghost predicate Fresh(buffer: Frame)
      reads this`at, pool`buffers
    {
      && buffer % UNIT == 0 && buffer !in pool.buffers && Inside(levels, buffer + UNIT - 1)
      && forall k :: 0 <= k < UNIT ==> Unused(at, buffer, k)
    }

    ghost predicate Supplied()
      reads this`at, this`supply, pool`buffers
    {
      && (forall i :: 0 <= i < |supply| && supply[i].Some? ==> Fresh(supply[i].value))
      && (forall i, j :: 0 <= i < j < |supply| && supply[i].Some? ==> supply[i] != supply[j])
    }

    constructor (mem: Memory, ghost at: Layout, root: Frame, levels: nat, xd: bool, sev: bool, pool: Pool,
                 supply: seq<Option<Frame>>)
      requires Ok(Space(mem, at, root, levels)) && pool.Valid() && pool.Outside(at)
      requires forall i :: 0 <= i < |supply| && supply[i].Some? ==>
        && supply[i].value % UNIT == 0 && supply[i].value !in pool.buffers && Inside(levels, supply[i].value + UNIT - 1)
        && forall k :: 0 <= k < UNIT ==> Unused(at, supply[i].value, k)
      requires forall i, j :: 0 <= i < j < |supply| && supply[i].Some? ==> supply[i] != supply[j]
      ensures Valid() && S() == Space(mem, at, root, levels) && this.supply == supply
      ensures this.pool == pool && this.xd == xd && this.sev == sev
    {
      this.mem, this.at, this.root, this.levels := mem, at, root, levels;
      this.xd, this.sev, this.pool, this.supply := xd, sev, pool, supply;
    }

    ghost function Doing(attrs: set<Attr>, action: Action): Job { Job(attrs, action, xd, sev) }

    ghost function Stock(): Holdings
      reads this, pool
    {
      Holdings(pool.handed, pool.buffers, at.Keys, pool.lock, pool.base, pool.offset, pool.freePages, supply)
    }

    method AllocateAlignedPages() returns (buffer: Option<Frame>)
      requires Valid()
      modifies this`supply
      ensures Valid() && buffer == Head(old(supply)) && supply == Tail(old(supply))
      ensures buffer.Some? ==> Fresh(buffer.value) && buffer !in supply
    {
      if supply == [] { return None; }
      buffer, supply := supply[0], supply[1..];
    }

    // The loop of SplitPage that fills the new table.
    method FillTable(level: nat, e: Entry) returns (page: seq<Entry>)
      ensures page == seq(512, j requires 0 <= j < 512 => SplitChild(level, e, j, sev))
    {
      page := [];
      while |page| < 512
        invariant |page| <= 512
        invariant forall j :: 0 <= j < |page| ==> page[j] == SplitChild(level, e, j, sev)
      {
        page := page + [SplitChild(level, e, |page|, sev)];
      }
    }

    // The end of SplitPage: the entry is read again, its table filled and linked.
    method LinkTable(leaf: Leaf, spare: Frame)
      requires Valid() && Holds(S(), leaf) && leaf.level > 1 && spare !in at
      requires pool.buffers != {} && pool.offset > 0 && spare == pool.base + pool.offset - 1
      modifies this`mem, this`at
      ensures Valid() && S() == Splitted(old(S()), leaf, spare, sev)
      ensures Stock() == old(Stock()).(tables := old(Stock()).tables + {spare})
    {
      SplitKeepsTree(mem, at, leaf.table, leaf.index, spare, sev);
      var page := FillTable(leaf.level, mem[leaf.table][leaf.index]);
      mem := mem[spare := page][leaf.table := mem[leaf.table][leaf.index := SplitLink(spare, sev)]];
      ghost var was := at;
      at := SplitLayout(at, leaf.table, leaf.index, spare);
      forall k | pool.offset <= k < pool.offset + pool.freePages ensures Unused(at, pool.base, k) {
        assert Unused(was, pool.base, k);
      }
      forall i | 0 <= i < |supply| && supply[i].Some? ensures Fresh(supply[i].value) {
        StaysFresh(was, spare, supply[i].value);
      }
    }

    // A page of the pool's buffer is in no buffer still to come.
    lemma StaysFresh(was: Layout, spare: Frame, buffer: Frame)
      requires pool.Valid() && pool.buffers != {} && pool.offset > 0 && spare == pool.base + pool.offset - 1
      requires at.Keys == was.Keys + {spare}
      requires buffer % UNIT == 0 && buffer !in pool.buffers && Inside(levels, buffer + UNIT - 1)
      requires forall k :: 0 <= k < UNIT ==> Unused(was, buffer, k)
      ensures Fresh(buffer)
    {
      forall k | 0 <= k < UNIT ensures Unused(at, buffer, k) {
        assert Unused(was, buffer, k);
        OneHome(pool.base, buffer, k);
      }
    }

    // SplitPage. Its assertions on the leaf and the wanted size are preconditions.
    method SplitPage(leaf: Leaf, split: nat, ghost job: Job, ghost b: nat) returns (status: Status, ghost r: Round)
      requires Valid() && LeafAt(S(), b, leaf) && job.xd == xd && job.sev == sev
      requires leaf.level == 2 || leaf.level == 3
      requires leaf.level == 2 ==> split == 1
      requires leaf.level == 3 ==> split == 1 || split == 2
      modifies this`mem, this`at, this`supply, pool
      ensures Valid() && Used(old(Stock()), Stock(), r) && Did(old(S()), S(), job, b, r)
      ensures status == if old(CanAllocate()) then Success else OutOfResources
      ensures if status.Success? then (r.Split? || r.Resume?) && r.leaf == leaf
              else S() == old(S()) && (r.Dry? || r.Renew?)
      decreases if pool.lock then 0 else 1, 3
    {
      ghost var c, s := S(), Stock();
      var page;
      page, r := AllocatePageTableMemory(job);
      ghost var s1, r1 := Stock(), r;
      if page.None? {
        AllocatedUsed(s, s1, page, r1, leaf, c, s1, r);
        return OutOfResources, r;
      }
      r := Resumed(c, r, job, b, leaf, page.value);
      ghost var via := S();
      LinkTable(leaf, page.value);
      AllocatedUsed(s, s1, page, r1, leaf, via, Stock(), r);
      status := Success;
    }

    // The split that follows an allocation is a round.
    lemma Resumed(c: Space, r: Round, job: Job, b: nat, leaf: Leaf, page: Frame) returns (r': Round)
      requires Ok(c) && LeafAt(c, b, leaf) && leaf.level > 1 && page !in at && job.sev == sev
      requires (r.Idle? || r.Renew?) && Did(c, S(), job, 0, r) && (r.Renew? ==> S() != c)
      ensures Holds(S(), leaf) && Did(c, Splitted(S(), leaf, page, sev), job, b, r')
      ensures r' == if r.Renew? then Resume(leaf, S(), page, r.buffer, r.to) else Split(leaf, page)
    {
      if r.Renew? {
        DidResume(c, S(), job, b, leaf, page, r.buffer, r.to);
        r' := Resume(leaf, S(), page, r.buffer, r.to);
      } else {
        DidSplit(c, job, b, leaf, page);
        r' := Split(leaf, page);
      }
    }

    // The pool has a page, or it can be renewed: it is not locked, there is a
    // buffer, and the buffer has something to mark.
    ghost predicate CanAllocate()
      requires Ok(S())
      reads this, pool
    {
      pool.freePages > 0 || (!pool.lock && Head(supply).Some? && !Sealed(S(), Head(supply).value))
    }

    // AllocatePageTableMemory (1).
    method AllocatePageTableMemory(ghost job: Job) returns (page: Option<Frame>, ghost r: Round)
      requires Valid() && job.xd == xd && job.sev == sev
      modifies this`mem, this`at, this`supply, pool
      ensures Valid() && Allocated(old(Stock()), Stock(), page, r) && Did(old(S()), S(), job, 0, r)
      ensures page.Some? <==> old(CanAllocate())
      ensures page.Some? ==> Home(page.value) in pool.buffers && page.value % UNIT != 0
      ensures old(pool.freePages) == 0 && !old(pool.lock) && Head(old(supply)).Some? ==>
        r.Renew? && pool.buffers == old(pool.buffers) + {Head(old(supply)).value} && (page.Some? <==> S() != old(S()))
      decreases if pool.lock then 0 else 1, 2
    {
      r := Idle;
      if pool.freePages == 0 {
        var ok;
        ok, r := InitializePageTablePool(job);
        if !ok { return None, r; }
      }
      var taken := TakePage();
      page := Some(taken);
    }

    // A page of the pool, which has one.
    method TakePage() returns (page: Frame)
      requires Valid() && pool.freePages > 0
      modifies pool`offset, pool`freePages, pool`handed
      ensures Valid() && page == pool.base + old(pool.offset) && pool.freePages + 1 == old(pool.freePages)
      ensures pool.offset == old(pool.offset) + 1 && pool.handed == old(pool.handed) + {page}
      ensures page !in old(pool.handed) && page !in at && Home(page) in pool.buffers && page % UNIT != 0
    {
      assert Unused(at, pool.base, pool.offset);
      var taken := pool.Take();
      page := taken.value;
      assert Home(page) == pool.base;
    }

    // InitializePageTablePool for single-page requests, whose pool is one buffer.
    // Marking the buffer read-only takes at most one of its 511 pages, so it never
    // renews the pool again.
    method InitializePageTablePool(ghost job: Job) returns (isModified: bool, ghost r: Round)
      requires Valid() && pool.freePages == 0 && job.xd == xd && job.sev == sev
      modifies this`mem, this`at, this`supply, pool
      ensures Valid() && Grew(old(Stock()), Stock()) && (r.Dry? || r.Renew?) && Did(old(S()), S(), job, 0, r)
      ensures (isModified <==> old(CanAllocate())) && (isModified <==> S() != old(S()))
      ensures Answered(old(supply), Answer(r), supply)
      ensures r.Dry? ==> Stock() == old(Stock()).(supply := supply) && r.locked == pool.lock
      ensures r.Renew? ==>
        && !pool.lock && r.buffer !in old(pool.buffers) && pool.buffers == old(pool.buffers) + {r.buffer}
        && pool.base == r.buffer && UNIT - 2 <= pool.freePages
      decreases if pool.lock then 0 else 1, 1
    {
      isModified, r := false, Dry(pool.lock);
      if pool.lock { return; }
      pool.lock := true;
      var buffer := AllocateAlignedPages();
      if buffer.Some? {
        isModified, r := AddBuffer(buffer.value, job);
      }
      pool.lock := false;
    }

    // A new buffer becomes the pool and is marked read-only.
    method AddBuffer(buffer: Frame, ghost job: Job) returns (isModified: bool, ghost r: Round)
      requires Valid() && pool.lock && pool.freePages == 0 && Fresh(buffer) && Some(buffer) !in supply
      requires job.xd == xd && job.sev == sev
      modifies this`mem, this`at, this`supply, pool
      ensures Valid() && r.Renew? && r.buffer == buffer && Marking(old(S()), S(), job, buffer, r.to)
      ensures (isModified <==> !Sealed(old(S()), buffer)) && (isModified <==> S() != old(S()))
      ensures Joined(old(Stock()), Stock(), buffer)
      decreases 0, 7
    {
      LinkBuffer(buffer);
      assert Unused(at, buffer, 1);
      ghost var c0, s0, t1 := S(), Stock(), pool.base + pool.offset;
      var t, cut;
      ghost var h, p, level;
      t, cut, h, p, level := ConvertPages(buffer, UNIT, {RO}, Set);
      MarkingEnds(t, h, p, Doing({RO}, Set), job, c0, s0, S(), Stock(), buffer, cut, t1, level);
      isModified, r := t.isModified, Renew(buffer, cut);
    }

    // Marking the new buffer takes at most one page and comes to an end.
    lemma MarkingEnds(t: Report, h: seq<Point>, p: Point, mark: Job, job: Job, c0: Space, s0: Holdings, c: Space,
                      s: Holdings, buffer: Frame, cut: nat, t1: Frame, level: nat)
      requires Running(t, h, p, mark, c0, s0, c, s, buffer, buffer + UNIT, cut, t1, level) && mark == MarkJob(job)
      requires buffer % UNIT == 0 && Inside(c0.levels, buffer + UNIT - 1) && buffer + 1 !in c0.at
      requires c.levels == c0.levels
      requires s0.lock && s0.base == buffer && t1 == buffer + 1 && s.offset + s.free == UNIT
      requires t.status.Success? ==> cut == buffer + UNIT
      ensures Marking(c0, c, job, buffer, cut) && Grew(s0, s) && UNIT - 2 <= s.free
      ensures (t.isModified <==> !Sealed(c0, buffer)) && (t.isModified <==> c != c0)
    {
      assert FollowsAt(h, |h| - 1, mark, buffer + UNIT);
      MarkingDone(c0, job, buffer, h, p);
      MarkingTold(c0, job, buffer, h, p);
    }

    lemma MarkingDone(c0: Space, job: Job, buffer: Frame, h: seq<Point>, p: Point)
      requires Execution(h, c0, MarkJob(job), buffer, buffer + UNIT, p)
      requires p.added == {} && Consecutive(p.spares, buffer + 1)
      requires buffer % UNIT == 0 && Inside(c0.levels, buffer + UNIT - 1) && buffer + 1 !in c0.at
      requires Ok(p.c) && p.c.levels == c0.levels
      requires p.b < buffer + UNIT ==> |p.spares| > 1 || (Inside(c0.levels, p.b) && View(p.c, p.b).None?)
      ensures |p.spares| <= 1 && Marking(c0, p.c, job, buffer, p.b)
    {
      InsideBelow(c0.levels + 1, buffer, buffer + UNIT - 1);
      ExecutionRuns(h, c0, MarkJob(job), buffer, buffer + UNIT, p, |h| - 1);
      ExecutionInBlock(h, c0, MarkJob(job), buffer, buffer + 1, p, |h| - 1);
      BlockRunMarks(c0, p.c, job, buffer, p.b, |p.spares| == 1);
    }

    // The marking changed the tables exactly if there was something to mark.
    lemma MarkingTold(c0: Space, job: Job, buffer: Frame, h: seq<Point>, p: Point)
      requires Execution(h, c0, MarkJob(job), buffer, buffer + UNIT, p) && (p.changes == 0 ==> p.c == c0)
      requires p.added == {} && Consecutive(p.spares, buffer + 1) && Marking(c0, p.c, job, buffer, p.b)
      requires buffer % UNIT == 0 && Inside(c0.levels, buffer + UNIT - 1) && buffer + 1 !in c0.at
      ensures (p.changes > 0 <==> !Sealed(c0, buffer)) && (p.changes > 0 <==> p.c != c0)
    {
      if p.changes > 0 { MarkingRunChanges(h, c0, job, buffer, p); }
      if p.c == c0 { NothingMarked(c0, job, buffer, p.b); }
    }

    method LinkBuffer(buffer: Frame)
      requires Valid() && pool.freePages == 0 && Fresh(buffer) && Some(buffer) !in supply
      modifies pool
      ensures Valid() && pool.buffers != {}
      ensures Stock() == old(Stock()).(base := buffer, offset := 1, free := UNIT - 1,
                                       buffers := old(pool.buffers) + {buffer})
    {
      pool.Add(buffer);
      forall i | 0 <= i < |supply| && supply[i].Some? ensures Fresh(supply[i].value) {
        assert supply[i] in supply;
      }
    }

    // ConvertPageEntryAttribute.
    method ConvertPageEntryAttribute(leaf: Leaf, attrs: set<Attr>, action: Action) returns (isModified: bool)
      requires Holds(S(), leaf)
      modifies this`mem
      ensures S() == Converted(old(S()), leaf, Doing(attrs, action))
      ensures !isModified <==> mem == old(mem)
    {
      var was := mem[leaf.table][leaf.index];
      var now := ConvertEntry(was, Job(attrs, action, xd, sev));
      assert mem[leaf.table][leaf.index := was] == mem[leaf.table];
      mem := WriteEntry(mem, leaf.table, leaf.index, now);
      assert mem[leaf.table][leaf.index] == now;
      isModified := now != was;
    }

    // One round of the loop: converts the leaf at page b and moves past it, or
    // splits it and stays.
    method ConvertRound(b: nat, len: nat, attrs: set<Attr>, action: Action)
      returns (t: Report, moved: nat, ghost r: Round)
      requires Valid() && len > 0 && Inside(levels, b)
      modifies this`mem, this`at, this`supply, pool
      ensures Valid() && Used(old(Stock()), Stock(), r) && Did(old(S()), S(), Doing(attrs, action), b, r)
      ensures moved == Moved(r) <= len && RoundTold(t, r, old(S()), S(), b, b + len)
      decreases if pool.lock then 0 else 1, 4
    {
      t, moved, r := Report(Unsupported, false, false), 0, Idle;
      SeenIsMapped(S(), b);
      var entry := Lookup(mem, at, root, levels, b);
      if entry.Some? {
        var leaf := entry.value;
        SeenHolds(S(), b, leaf);
        var split := NeedSplitPage(b, len, leaf.level);
        if split == 0 {
          DidConvert(S(), Doing(attrs, action), b, leaf);
          var modified := ConvertPageEntryAttribute(leaf, attrs, action);
          t, moved, r := Report(Success, false, modified), Span(leaf.level), Convert(leaf);
        } else {
          var status;
          status, r := SplitPage(leaf, split, Doing(attrs, action), b);
          t := Report(status, status.Success?, status.Success?);
          if status.Success? { RoundShrinks(old(S()), S(), Doing(attrs, action), b, r); }
        }
      }
    }

    // A round of the loop over base..end.
    method LoopRound(cut: nat, len: nat, attrs: set<Attr>, action: Action, t: Report, ghost h: seq<Point>,
                     ghost p: Point, ghost c0: Space, ghost s0: Holdings, ghost base: nat, ghost end: nat,
                     ghost t1: Frame, ghost level: nat)
      returns (t': Report, cut': nat, left: nat, ghost h': seq<Point>, ghost p': Point, ghost level': nat)
      requires Valid() && len > 0 && cut + len == end && Inside(levels, end - 1) && t.status.Success?
      requires Running(t, h, p, Doing(attrs, action), c0, s0, S(), Stock(), base, end, cut, t1, level)
      modifies this`mem, this`at, this`supply, pool
      ensures Valid() && cut <= cut' && cut' + left == end
      ensures Running(t', h', p', Doing(attrs, action), c0, s0, S(), Stock(), base, end, cut', t1, level')
      ensures t'.status.Success? ==> left < len || (left == len && level' < level)
      decreases if pool.lock then 0 else 1, 5
    {
      ghost var c, s := S(), Stock();
      InsideBelow(levels + 1, cut, end - 1);
      var u, moved;
      ghost var r;
      u, moved, r := ConvertRound(cut, len, attrs, action);
      t', cut', left := Both(t, u), cut + moved, len - moved;
      h', p', level' := RunningMore(t, h, p, Doing(attrs, action), c0, s0, c, s, base, end, cut, t1, level, u, r, S(),
                                    Stock(), cut');
    }

    // The loop of ConvertMemoryPageAttributes, in pages. cut is the page it reached.
    method ConvertPages(base: nat, length: nat, attrs: set<Attr>, action: Action)
      returns (t: Report, cut: nat, ghost h: seq<Point>, ghost p: Point, ghost level: nat)
      requires Valid() && length > 0 && Inside(levels, base + length - 1)
      modifies this`mem, this`at, this`supply, pool
      ensures Valid() && (t.status.Success? ==> cut == base + length)
      ensures Running(t, h, p, Doing(attrs, action), old(S()), old(Stock()), S(), Stock(), base, base + length, cut,
                      old(pool.base) + old(pool.offset), level)
      decreases if pool.lock then 0 else 1, 6
    {
      var len, end := length, base + length;
      ghost var c0, s0, t1 := S(), Stock(), pool.base + pool.offset;
      t, cut := Report(Success, false, false), base;
      h, p, level := RunningStart(t, Doing(attrs, action), c0, s0, base, end, t1);
      while len != 0 && t.status.Success?
        invariant Valid() && base <= cut && cut + len == end
        invariant Running(t, h, p, Doing(attrs, action), c0, s0, S(), Stock(), base, end, cut, t1, level)
        decreases t.status.Success?, len, level
      {
        t, cut, len, h, p, level := LoopRound(cut, len, attrs, action, t, h, p, c0, s0, base, end, t1, level);
      }
    }

    // One pass of the loop, and what it leaves of every page.
    method ConvertPass(base: nat, length: nat, attrs: set<Attr>, action: Action) returns (t: Report, ghost leg: Leg)
      requires Valid() && length > 0 && Inside(levels, base + length - 1)
      modifies this`mem, this`at, this`supply, pool
      ensures Valid()
      ensures Over(t, leg, Doing(attrs, action), old(S()), old(Stock()), S(), Stock(), base, base + length)
    {
      var cut;
      ghost var h, p, level;
      t, cut, h, p, level := ConvertPages(base, length, attrs, action);
      ExecutionRuns(h, old(S()), Doing(attrs, action), base, base + length, p, |h| - 1);
      leg := Leg(old(S()), base, base + length, h, p);
    }

    // The walk finds no entry for address a, whose page is b, although the first
    // page's entry would count as mapped.
    method HiddenFirst(a: nat, b: nat) returns (hidden: bool)
      requires Valid() && Inside(levels, b) && b == a % Top(levels)
      ensures hidden <==> HiddenAt(S(), a, Top(levels))
    {
      var entry := Lookup(mem, at, root, levels, b);
      if entry.Some? { SeenHolds(S(), b, entry.value); }
      hidden := a != 0 && b == 0 && entry.Some? && mem[entry.value.table][entry.value.index] == Zero;
    }

    // A pass over as much of the range as there is up to the top of the address
    // space. A zero entry of the first page counts as mapped at address 0 only.
    method RangeRound(a: nat, len: nat, attrs: set<Attr>, action: Action, t: Report, ghost legs: seq<Leg>,
                      ghost c0: Space, ghost s0: Holdings, ghost base: nat, ghost length: nat)
      returns (t': Report, next: nat, left: nat, ghost legs': seq<Leg>)
      requires Valid() && len > 0 && t.status.Success?
      requires Passing(t, legs, Doing(attrs, action), c0, s0, S(), Stock(), base, length, a, len, levels)
      modifies this`mem, this`at, this`supply, pool
      ensures Valid() && left < len
      ensures Passing(t', legs', Doing(attrs, action), c0, s0, S(), Stock(), base, length, next, left, levels)
    {
      var b, part := UpToTop(levels, a, len);
      next, left := (a + part) % 0x10_0000_0000_0000, len - part;
      var hidden := HiddenFirst(a, b);
      if hidden {
        t', legs' := t.(status := Unsupported), legs;
        PassingHidden(t, legs, Doing(attrs, action), c0, s0, S(), Stock(), base, length, a, len, levels, next, left);
      } else {
        ghost var c, s := S(), Stock();
        ghost var leg;
        var u;
        u, leg := ConvertPass(b, part, attrs, action);
        t', legs' := Both(t, u), legs + [leg];
        PassingMore(t, legs, Doing(attrs, action), c0, s0, c, s, base, length, a, len, levels, u, leg, S(), Stock(), b,
                    part, next, left);
      }
    }

    // The loop on a range that may go past the top of the address space, and the
    // top of the 64-bit addresses, where it goes on at the bottom.
    method ConvertRange(base: nat, length: nat, attrs: set<Attr>, action: Action)
      returns (t: Report, ghost legs: seq<Leg>, ghost a: nat, ghost left: nat)
      requires Valid() && length > 0
      modifies this`mem, this`at, this`supply, pool
      ensures Valid() && (t.status.Success? ==> left == 0) && (left == length ==> !t.status.Success?)
      ensures Passing(t, legs, Doing(attrs, action), old(S()), old(Stock()), S(), Stock(), base, length, a, left,
                      levels)
    {
      var next, len := base, length;
      ghost var c0, s0 := S(), Stock();
      t, legs := Report(Success, false, false), [];
      PassingStart(Doing(attrs, action), c0, s0, base, length, levels);
      while len != 0 && t.status.Success?
        invariant Valid() && len <= length
        invariant Passing(t, legs, Doing(attrs, action), c0, s0, S(), Stock(), base, length, next, len, levels)
        decreases len
      {
        t, next, len, legs := RangeRound(next, len, attrs, action, t, legs, c0, s0, base, length);
      }
      a, left := next, len;
    }

    // ConvertMemoryPageAttributes. otherBits: the request has bits outside
    // EFI_MEMORY_ATTRIBUTE_MASK.
    method ConvertMemoryPageAttributes(baseAddress: nat, length: nat, attrs: set<Attr>, otherBits: bool, action: Action)
      returns (status: Status, isSplit: bool, isModified: bool, ghost legs: seq<Leg>)
      requires Valid()
      modifies this`mem, this`at, this`supply, pool
      ensures Valid() && Grew(old(Stock()), Stock())
      ensures (isSplit <==> AnySplit(legs)) && (isModified <==> AnyChange(legs)) && (isModified || S() == old(S()))
      ensures baseAddress % 4096 != 0 || length % 4096 != 0 ==>
        status.Unsupported? && legs == [] && unchanged(this) && unchanged(pool)
      ensures baseAddress % 4096 == 0 && length == 0 ==>
        status.InvalidParameter? && legs == [] && unchanged(this) && unchanged(pool)
      ensures baseAddress % 4096 == length % 4096 == 0 && length > 0 && otherBits ==>
        status.Unsupported? && legs == [] && unchanged(this) && unchanged(pool)
      ensures baseAddress % 4096 == length % 4096 == 0 && length > 0 && !otherBits ==>
        && Travelled(legs, Doing(attrs, action), old(S()), old(Stock()), S(), Stock(), baseAddress / 4096,
                     length / 4096, Top(levels))
        && Ended(status, legs, S(), baseAddress / 4096, Top(levels))
        && (status.Success? ==> Passed(legs) == length / 4096)
        && (baseAddress + length <= 4096 * Top(levels) ==>
              && |legs| == 1 && legs[0].lo == baseAddress / 4096 && legs[0].hi == (baseAddress + length) / 4096)
    {
      isSplit, isModified, legs := false, false, [];
      if baseAddress % 4096 != 0 { return Unsupported, false, false, []; }
      if length % 4096 != 0 { return Unsupported, false, false, []; }
      if length == 0 { return InvalidParameter, false, false, []; }
      if otherBits { return Unsupported, false, false, []; }
      var t;
      ghost var a, left;
      t, legs, a, left := ConvertRange(baseAddress / 4096, length / 4096, attrs, action);
      if baseAddress + length <= 4096 * Top(levels) {
        OnePass(t.status, legs, old(S()), S(), Doing(attrs, action), baseAddress / 4096, length / 4096, Top(levels));
      }
      status, isSplit, isModified := t.status, t.isSplit, t.isModified;
    }
  }
}
