// Runs of several requests to the page-table code: edits and allocations share
// one pool, and attributes are read back after they were assigned.
module PageTableSession {
  import opened Common
  import opened PageTables
  import opened PageTableEdit
  import opened PageTableSteps
  import opened PageTableRun
  import opened PageTableRounds
  import opened PageTablePool
  import opened PageTableEditor
  import opened PageTableQuery

  // ---- Pages handed out ----

  datatype Request = Allocate | Edit(baseAddress: nat, length: nat, attrs: set<Attr>, otherBits: bool, action: Action)

  // A page handed out in a run that started with holdings s0: it comes from one of
  // the pool's buffers and is no header, no table, and not handed out before.
  ghost predicate Handed(s0: Holdings, s: Holdings, page: Frame) {
    page in s.handed && page !in s0.handed && page !in s.tables && Home(page) in s.buffers && page % UNIT != 0
  }

  ghost predicate AllHanded(s0: Holdings, s: Holdings, pages: seq<Frame>) {
    && (forall i :: 0 <= i < |pages| ==> Handed(s0, s, pages[i]))
    && (forall i, j :: 0 <= i < j < |pages| ==> pages[i] != pages[j])
  }

  lemma StillHanded(s0: Holdings, s: Holdings, s': Holdings, pages: seq<Frame>)
    requires AllHanded(s0, s, pages) && Grew(s, s')
    ensures AllHanded(s0, s', pages)
  {
    forall i | 0 <= i < |pages| ensures Handed(s0, s', pages[i]) {
      assert Handed(s0, s, pages[i]);
    }
  }

  lemma OneMoreHanded(s0: Holdings, s: Holdings, s': Holdings, pages: seq<Frame>, page: Frame)
    requires AllHanded(s0, s, pages) && Grew(s0, s) && Grew(s, s') && Handed(s, s', page)
    ensures AllHanded(s0, s', pages + [page])
  {
    StillHanded(s0, s, s', pages);
    forall i | 0 <= i < |pages| ensures pages[i] != page {
      assert Handed(s0, s, pages[i]);
    }
  }

  // Allocations, edits and the renewals they lead to, in any order: no page is
  // handed out twice, and none that was handed out becomes a table.
  method Serve(e: Editor, requests: seq<Request>) returns (pages: seq<Frame>)
    requires e.Valid()
    modifies e`mem, e`at, e`supply, e.pool
    ensures e.Valid() && Grew(old(e.Stock()), e.Stock()) && AllHanded(old(e.Stock()), e.Stock(), pages)
  {
    pages := [];
    ghost var s0 := e.Stock();
    for k := 0 to |requests|
      invariant e.Valid() && Grew(s0, e.Stock()) && AllHanded(s0, e.Stock(), pages)
    {
      ghost var s := e.Stock();
      match requests[k] {
        case Allocate =>
          var page;
          ghost var r;
          page, r := e.AllocatePageTableMemory(e.Doing({}, Assign));
          GrewTwice(s0, s, e.Stock());
          if page.None? {
            StillHanded(s0, s, e.Stock(), pages);
          } else {
            OneMoreHanded(s0, s, e.Stock(), pages, page.value);
            pages := pages + [page.value];
          }
        case Edit(baseAddress, length, attrs, otherBits, action) =>
          var status, isSplit, isModified;
          ghost var legs;
          status, isSplit, isModified, legs :=
            e.ConvertMemoryPageAttributes(baseAddress, length, attrs, otherBits, action);
          GrewTwice(s0, s, e.Stock());
          StillHanded(s0, s, e.Stock(), pages);
      }
    }
  }

  // ---- Assign, then get ----

  // Every mapping on the way of an identity-mapped page maps it to itself.
  lemma GoalPage(job: Job, m: Mapping, done: bool, marked: bool, x: Mapping)
    requires Goal(job, m, done, marked, x)
    ensures x.pfn == m.pfn
  {
  }

  lemma AssignGives(m: Mapping, job: Job)
    requires job.action.Assign? && job.xd
    ensures Attributes(EditMapping(m, job)) == job.attrs
    ensures RO in job.attrs ==> Attributes(EditMapping(EditMapping(m, job), MarkJob(job))) == job.attrs
  {
    forall x ensures x in Attributes(EditMapping(m, job)) <==> x in job.attrs {
      match x case RP => case RO => case XP =>
    }
    EditMeans(EditMapping(m, job), MarkJob(job));
  }

  // A page assigned in a run maps itself and has the assigned attributes, unless
  // it has been marked read-only after it was assigned others.
  lemma AssignedPage(job: Job, was: Option<Mapping>, now: Option<Mapping>, v: nat, marked: bool, spoiled: bool)
    requires Shows(job, was, now, v, true, marked, spoiled) && was.Some? && was.value.pfn == v
    requires job.action.Assign? && job.xd
    ensures now.Some? && now.value.pfn == v
    ensures (marked ==> RO in job.attrs) ==> Attributes(now.value) == job.attrs
  {
    var o := Origin(job.sev, was.value, v, spoiled);
    if now.None? {
      var d, k, x :| Goal(job, o, d, k, x) && (d ==> true) && (k ==> marked) && Blank(x);
      GoalPage(job, o, d, k, x);
    } else {
      var x :| Goal(job, o, true, marked, x) && Kept(job.sev, x, now.value);
      GoalPage(job, o, true, marked, x);
      KeptAttributes(job.sev, x, now.value);
      if !marked || RO in job.attrs { AssignedGoal(job, o, marked, x); }
    }
  }

  lemma KeptAttributes(sev: bool, m: Mapping, n: Mapping)
    requires Kept(sev, m, n)
    ensures Attributes(n) == Attributes(m) && n.pfn == m.pfn
  {
  }

  lemma AssignedGoal(job: Job, m: Mapping, marked: bool, x: Mapping)
    requires Goal(job, m, true, marked, x) && job.action.Assign? && job.xd && (marked ==> RO in job.attrs)
    ensures Attributes(x) == job.attrs
  {
    AssignGives(m, job);
    AssignGives(EditMapping(m, MarkJob(job)), job);
  }

  // No page of a new buffer is in the range.
  ghost predicate Apart(added: set<Frame>, lo: nat, hi: nat) {
    forall v: nat :: lo <= v < hi ==> Home(v) !in added
  }

  lemma AssignedRange(leg: Leg, job: Job)
    requires LegRuns(leg, job) && leg.p.b == leg.hi && leg.lo < leg.hi
    requires Inside(leg.from.levels, leg.hi - 1) && IdentityOn(leg.from, leg.lo, leg.hi)
    requires job.action.Assign? && job.xd
    ensures IdentityOn(leg.p.c, leg.lo, leg.hi)
    ensures RO in job.attrs || Apart(leg.p.added, leg.lo, leg.hi) ==> AllHave(leg.p.c, leg.lo, leg.hi, job.attrs)
  {
    forall v: nat | leg.lo <= v < leg.hi
      ensures Inside(leg.p.c.levels, v) && View(leg.p.c, v).Some? && View(leg.p.c, v).value.pfn == v
      ensures RO in job.attrs || Apart(leg.p.added, leg.lo, leg.hi) ==> AttributesAt(leg.p.c, v) == Some(job.attrs)
    {
      InsideBelow(leg.from.levels + 1, v, leg.hi - 1);
      assert PageReached(leg.from, leg.p.c, job, leg.lo, leg.p.b, leg.p.t, v);
      assert v in leg.p.t.marked ==> v - v % 512 in leg.p.added;
      assert v - v % 512 == Home(v);
      AssignedPage(job, View(leg.from, v), View(leg.p.c, v), v, v in leg.p.t.marked, Block(3, v) in leg.p.t.spoiled);
    }
  }

  // AssignMemoryPageAttributes, then EfiGetMemoryAttributes, on the same range of
  // an identity map. The attributes come back, unless a renewal on the way put the
  // new buffer into the range and so marked pages of it read-only.
  method AssignThenGet(e: Editor, extra: nat, base: nat, length: nat, attrs: set<Attr>)
    returns (status: Status, got: Answer)
    requires e.Valid() && e.xd && length > 0 && Inside(e.levels, base + length - 1)
    requires IdentityOn(e.S(), base, base + length)
    modifies e`mem, e`at, e`supply, e.pool
    ensures e.Valid()
    ensures status.Success? && (RO in attrs || Apart(e.pool.buffers - old(e.pool.buffers), base, base + length)) ==>
      got == Found(attrs)
  {
    var t;
    ghost var leg;
    t, leg := e.ConvertPass(base, length, attrs, Assign);
    status, got := t.status, Missing;
    if status.Success? {
      AssignedRange(leg, e.Doing(attrs, Assign));
      got := GetKnown(e.mem, e.root, e.levels, e.S(), e.sev, extra, base, length, attrs,
                      RO in attrs || Apart(leg.p.added, base, base + length));
    }
  }
}
