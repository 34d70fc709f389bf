// Page ranges and pin records of EfiHvPinning.c: which pages a list of ranges
// holds, and which gaps are left between always-pinned subranges.
module PinRanges {
  import opened Common

  // ---- Hypercall input ----

  // HV_GPA_PAGE_RANGE. pfn is BasePfn, or BaseLargePfn when large is set.
  datatype Range = Range(additional: nat, large: bool, oneGiB: bool, pfn: nat)

  datatype Interval = Span(lo: nat, hi: nat)

  type Span = s: Interval | s.lo < s.hi witness Span(0, 1)

  // EfiHvpGetGpaRangeBounds.
  function Bounds(r: Range): Span {
    if r.large then
      var base := r.pfn * 512;
      Span(base, base + (r.additional + 1) * if r.oneGiB then 0x4_0000 else 512)
    else
      Span(r.pfn, r.pfn + r.additional + 1)
  }

  // Page p lies in page k of the range, told by addresses in bytes.
  predicate InUnit(r: Range, k: nat, p: nat) {
    var unit := if !r.large then 0x1000 else if r.oneGiB then 0x4000_0000 else 0x20_0000;
    var start := r.pfn * (if r.large then 0x20_0000 else 0x1000) + k * unit;
    start <= 0x1000 * p < start + unit
  }

  // Page p lies in one of the range's pages.
  ghost predicate Holds(r: Range, p: nat) {
    exists k: nat :: k <= r.additional && InUnit(r, k, p)
  }

  lemma BoundsExactly(r: Range, p: nat)
    ensures Within(Bounds(r), p) <==> Holds(r, p)
  {
    var size := if !r.large then 1 else if r.oneGiB then 0x4_0000 else 512;
    if Within(Bounds(r), p) {
      var d := p - Bounds(r).lo;
      var k: nat := d / size;
      assert InUnit(r, k, p) && k <= r.additional;
    }
    if k: nat :| k <= r.additional && InUnit(r, k, p) {
      assert Within(Bounds(r), p);
    }
  }

  function AllBounds(ranges: seq<Range>): (r: seq<Span>)
    ensures |r| == |ranges|
  {
    seq(|ranges|, i requires 0 <= i < |ranges| => Bounds(ranges[i]))
  }

  // Page p lies in one of the ranges.
  ghost predicate Reported(ranges: seq<Range>, p: nat) {
    exists i :: 0 <= i < |ranges| && Holds(ranges[i], p)
  }

  lemma ReportedExactly(ranges: seq<Range>, p: nat)
    ensures InSome(AllBounds(ranges), p) <==> Reported(ranges, p)
  {
    forall i | 0 <= i < |ranges| ensures Within(AllBounds(ranges)[i], p) <==> Holds(ranges[i], p) {
      BoundsExactly(ranges[i], p);
    }
  }

  function Total(ranges: seq<Range>): nat {
    if ranges == [] then 0 else Total(ranges[..|ranges| - 1]) + ranges[|ranges| - 1].additional + 1
  }

  // The number of ranges that hold page p.
  function RangeHits(ranges: seq<Range>, p: nat): nat {
    if ranges == [] then 0
    else RangeHits(ranges[..|ranges| - 1], p) + if Within(Bounds(ranges[|ranges| - 1]), p) then 1 else 0
  }

  const MAX_PAGES_PER_RANGE := 0x800

  // Ranges of 4 KiB pages that follow one another from page base on.
  ghost predicate Consecutive(ranges: seq<Range>, base: nat) {
    forall k :: 0 <= k < |ranges| ==>
      !ranges[k].large && ranges[k].additional < MAX_PAGES_PER_RANGE && ranges[k].pfn == base + Total(ranges[..k])
  }

  lemma ConsecutiveAppend(ranges: seq<Range>, r: Range, base: nat)
    requires Consecutive(ranges, base)
    requires !r.large && r.additional < MAX_PAGES_PER_RANGE && r.pfn == base + Total(ranges)
    ensures Consecutive(ranges + [r], base) && Total(ranges + [r]) == Total(ranges) + r.additional + 1
  {
    var all := ranges + [r];
    assert all[..|ranges|] == ranges;
    forall k | 0 <= k < |all|
      ensures !all[k].large && all[k].additional < MAX_PAGES_PER_RANGE && all[k].pfn == base + Total(all[..k])
    {
      if k < |ranges| { assert all[..k] == ranges[..k]; }
    }
  }

  // Any number of such ranges from the first on hold an unbroken run of pages.
  lemma {:induction false} PrefixPages(ranges: seq<Range>, base: nat, k: nat, p: nat)
    requires Consecutive(ranges, base) && k <= |ranges|
    ensures RangeHits(ranges[..k], p) == if base <= p < base + Total(ranges[..k]) then 1 else 0
  {
    if k > 0 {
      PrefixPages(ranges, base, k - 1, p);
      assert ranges[..k][..k - 1] == ranges[..k - 1];
    }
  }

  lemma {:induction false} TotalPrefix(ranges: seq<Range>, k: nat)
    requires k <= |ranges|
    ensures Total(ranges[..k]) <= Total(ranges)
    ensures k < |ranges| ==> Total(ranges[..k]) < Total(ranges)
    decreases |ranges|
  {
    if k == |ranges| {
      assert ranges[..k] == ranges;
    } else {
      TotalPrefix(ranges[..|ranges| - 1], k);
      assert ranges[..|ranges| - 1][..k] == ranges[..k];
    }
  }

  // ---- Pin records ----

  // EFI_HV_PIN_OBJECT.
  datatype PinObject = PinObject(requestBase: nat, requestCount: nat, base: nat, count: nat)

  predicate Matches(o: PinObject, base: nat, count: nat) {
    o.requestBase == base && o.requestCount == count
  }

  // The number of records that cover page p.
  function Covering(list: seq<PinObject>, p: nat): nat {
    if list == [] then 0
    else (if list[0].base <= p < list[0].base + list[0].count then 1 else 0) + Covering(list[1..], p)
  }

  lemma {:induction false} CoveringConcat(a: seq<PinObject>, b: seq<PinObject>, p: nat)
    ensures Covering(a + b, p) == Covering(a, p) + Covering(b, p)
  {
    if a == [] {
      assert a + b == b;
    } else {
      CoveringConcat(a[1..], b, p);
      assert (a + b)[1..] == a[1..] + b;
    }
  }

  // Taking one record off the list takes its pages off what the list covers.
  lemma CoveringRemove(list: seq<PinObject>, i: nat, p: nat)
    requires i < |list|
    ensures Covering(list, p) == Covering(list[..i] + list[i + 1..], p) + Covering([list[i]], p)
  {
    var a, b := list[..i], list[i + 1..];
    assert list == a + ([list[i]] + b);
    CoveringConcat(a, [list[i]] + b, p);
    CoveringConcat([list[i]], b, p);
    CoveringConcat(a, b, p);
  }

  // ---- Gaps between always-pinned subranges ----

  // The gap sweep over the subranges, from page cur to page end.
  function Gaps(always: seq<Span>, cur: nat, end: nat): seq<Span> {
    if always == [] then
      if cur < end then [Span(cur, end)] else []
    else if always[0].hi <= cur || always[0].lo >= end then
      Gaps(always[1..], cur, end)
    else
      var rest := Gaps(always[1..], if always[0].hi < end then always[0].hi else end, end);
      if always[0].lo > cur then [Span(cur, always[0].lo)] + rest else rest
  }

  predicate Within(s: Span, p: nat) {
    s.lo <= p < s.hi
  }

  // The number of spans that hold page p.
  function Hits(spans: seq<Span>, p: nat): nat {
    if spans == [] then 0 else (if Within(spans[0], p) then 1 else 0) + Hits(spans[1..], p)
  }

  lemma {:induction false} HitsConcat(a: seq<Span>, b: seq<Span>, p: nat)
    ensures Hits(a + b, p) == Hits(a, p) + Hits(b, p)
  {
    if a == [] {
      assert a + b == b;
    } else {
      HitsConcat(a[1..], b, p);
      assert (a + b)[1..] == a[1..] + b;
    }
  }

  predicate InSome(always: seq<Span>, p: nat) {
    exists i :: 0 <= i < |always| && Within(always[i], p)
  }

  predicate Sorted(always: seq<Span>) {
    forall i, j :: 0 <= i < j < |always| ==> always[i].lo <= always[j].lo
  }

  // In whatever order the subranges come, the gaps hold every page outside
  // them once, no page twice and no page outside the swept range.
  lemma {:induction false} GapsHold(always: seq<Span>, cur: nat, end: nat, p: nat)
    ensures Hits(Gaps(always, cur, end), p) <= if cur <= p < end then 1 else 0
    ensures cur <= p < end && !InSome(always, p) ==> Hits(Gaps(always, cur, end), p) == 1
  {
    if always == [] {
    } else {
      var s, rest := always[0], always[1..];
      assert InSome(rest, p) ==> InSome(always, p) by {
        if i :| 0 <= i < |rest| && Within(rest[i], p) { assert Within(always[i + 1], p); }
      }
      var next := if s.hi <= cur || s.lo >= end then cur else if s.hi < end then s.hi else end;
      GapsHold(rest, next, end, p);
      if !(s.hi <= cur || s.lo >= end) && s.lo > cur {
        HitsConcat([Span(cur, s.lo)], Gaps(rest, next, end), p);
      }
    }
  }

  // When they come in order of their bases, the gaps hold no page of them.
  lemma {:induction false} SortedGapsSkip(always: seq<Span>, cur: nat, end: nat, p: nat)
    requires Sorted(always) && InSome(always, p)
    ensures Hits(Gaps(always, cur, end), p) == 0
  {
    var s, rest := always[0], always[1..];
    var next := if s.hi <= cur || s.lo >= end then cur else if s.hi < end then s.hi else end;
    GapsHold(rest, next, end, p);
    assert s.lo <= p;
    if !Within(s, p) {
      var i :| 0 <= i < |always| && Within(always[i], p);
      assert Within(rest[i - 1], p);
      SortedGapsSkip(rest, next, end, p);
    }
    if !(s.hi <= cur || s.lo >= end) && s.lo > cur {
      HitsConcat([Span(cur, s.lo)], Gaps(rest, next, end), p);
    }
  }

  // The sweep towards page p does not stop at the subrange.
  predicate Passes(s: Span, end: nat, p: nat) {
    s.hi <= p || s.lo >= end
  }

  // Subrange i is the first that the sweep stops at, and it starts behind page p.
  predicate StopsBehind(always: seq<Span>, end: nat, p: nat, i: nat) {
    i < |always| && p < always[i].lo < end && forall k :: 0 <= k < i ==> Passes(always[k], end, p)
  }

  // In whatever order the subranges come, a page of them falls into a gap exactly
  // when the first that ends behind the page, and starts inside the range, starts
  // behind the page too.
  lemma {:induction false} UnsortedGapsExactly(always: seq<Span>, cur: nat, end: nat, p: nat)
    requires cur <= p < end && InSome(always, p)
    ensures Hits(Gaps(always, cur, end), p) == 1 <==> exists i: nat :: StopsBehind(always, end, p, i)
  {
    var s, rest := always[0], always[1..];
    var next := if s.hi <= cur || s.lo >= end then cur else if s.hi < end then s.hi else end;
    if !(s.hi <= cur || s.lo >= end) && s.lo > cur {
      HitsConcat([Span(cur, s.lo)], Gaps(rest, next, end), p);
    }
    if Passes(s, end, p) {
      var i :| 0 <= i < |always| && Within(always[i], p);
      assert Within(rest[i - 1], p);
      UnsortedGapsExactly(rest, next, end, p);
      StopsLater(always, end, p);
    } else {
      GapsHold(rest, next, end, p);
      assert s.lo > p ==> StopsBehind(always, end, p, 0);
    }
  }

  lemma StopsLater(always: seq<Span>, end: nat, p: nat)
    requires always != [] && Passes(always[0], end, p)
    ensures (exists i: nat :: StopsBehind(always, end, p, i)) <==>
            (exists i: nat :: StopsBehind(always[1..], end, p, i))
  {
    var rest := always[1..];
    if i: nat :| StopsBehind(always, end, p, i) {
      assert i > 0;
      forall k | 0 <= k < i - 1 ensures Passes(rest[k], end, p) { assert Passes(always[k + 1], end, p); }
      assert StopsBehind(rest, end, p, i - 1);
    }
    if i: nat :| StopsBehind(rest, end, p, i) {
      forall k | 0 <= k < i + 1 ensures Passes(always[k], end, p) {
        if k > 0 { assert Passes(rest[k - 1], end, p); }
      }
      assert StopsBehind(always, end, p, i + 1);
    }
  }

  // Such a list: page 1 is always pinned, but the sweep stops at page 4 first.
  lemma UnsortedGapsPin()
    ensures var always := [Span(4, 5), Span(1, 2)];
      InSome(always, 1) && Hits(Gaps(always, 0, 8), 1) == 1
  {
    var always := [Span(4, 5), Span(1, 2)];
    assert Within(always[1], 1) && StopsBehind(always, 8, 1, 0);
    UnsortedGapsExactly(always, 0, 8, 1);
  }

  // ---- A request, cut in pieces by recursive halving ----

  const MAX_SUBRANGES := 510

  // An answer of the hypervisor: the always-pinned subranges it reported for pages
  // lo..hi. A request is swept piece by piece, each with such an answer.
  datatype Piece = Piece(lo: nat, hi: nat, answer: seq<Range>)

  ghost predicate Tiles(pieces: seq<Piece>, lo: nat, hi: nat) {
    if pieces == [] then lo == hi
    else pieces[0].lo == lo && lo < pieces[0].hi && Tiles(pieces[1..], pieces[0].hi, hi)
  }

  ghost function GapsOf(c: Piece): seq<Span> {
    Gaps(AllBounds(c.answer), c.lo, c.hi)
  }

  ghost function PieceGaps(pieces: seq<Piece>): seq<Span> {
    Flatten(GapsOf, pieces)
  }

  lemma {:induction false} TilesConcat(a: seq<Piece>, b: seq<Piece>, lo: nat, mid: nat, hi: nat)
    requires Tiles(a, lo, mid) && Tiles(b, mid, hi)
    ensures Tiles(a + b, lo, hi)
  {
    if a == [] {
      assert a + b == b;
    } else {
      TilesConcat(a[1..], b, a[0].hi, mid, hi);
      assert (a + b)[1..] == a[1..] + b;
    }
  }

  lemma OnePiece(c: Piece)
    ensures PieceGaps([c]) == Gaps(AllBounds(c.answer), c.lo, c.hi)
  {
    assert Flatten(GapsOf, [c]) == GapsOf(c) + Flatten(GapsOf, [c][1..]);
  }

  lemma GapsConcat(a: seq<Piece>, b: seq<Piece>)
    ensures PieceGaps(a + b) == PieceGaps(a) + PieceGaps(b)
  {
    FlattenConcat(GapsOf, a, b);
  }

  lemma {:induction false} TilesGrow(pieces: seq<Piece>, lo: nat, hi: nat)
    requires Tiles(pieces, lo, hi)
    ensures lo <= hi
  {
    if pieces != [] { TilesGrow(pieces[1..], pieces[0].hi, hi); }
  }

  // Page p lies in a subrange reported for its piece.
  ghost predicate AlwaysPinned(pieces: seq<Piece>, p: nat) {
    exists i :: 0 <= i < |pieces| && pieces[i].lo <= p < pieces[i].hi && Reported(pieces[i].answer, p)
  }

  // The gaps of all pieces hold every requested page that is not always pinned
  // once, no page twice and no page outside the request.
  lemma {:induction false} PiecesHold(pieces: seq<Piece>, lo: nat, hi: nat, p: nat)
    requires Tiles(pieces, lo, hi)
    ensures Hits(PieceGaps(pieces), p) <= if lo <= p < hi then 1 else 0
    ensures lo <= p < hi && !AlwaysPinned(pieces, p) ==> Hits(PieceGaps(pieces), p) == 1
  {
    if pieces != [] {
      var c, rest := pieces[0], pieces[1..];
      TilesGrow(rest, c.hi, hi);
      GapsHold(AllBounds(c.answer), c.lo, c.hi, p);
      ReportedExactly(c.answer, p);
      PiecesHold(rest, c.hi, hi, p);
      HitsConcat(GapsOf(c), PieceGaps(rest), p);
      if i :| 0 <= i < |rest| && rest[i].lo <= p < rest[i].hi && Reported(rest[i].answer, p) {
        assert rest[i] == pieces[i + 1];
      }
    }
  }

  // With subranges in order, they hold no always-pinned page.
  lemma {:induction false} SortedPiecesSkip(pieces: seq<Piece>, lo: nat, hi: nat, p: nat)
    requires Tiles(pieces, lo, hi) && AlwaysPinned(pieces, p)
    requires forall i :: 0 <= i < |pieces| ==> Sorted(AllBounds(pieces[i].answer))
    ensures Hits(PieceGaps(pieces), p) == 0
  {
    var i :| 0 <= i < |pieces| && pieces[i].lo <= p < pieces[i].hi && Reported(pieces[i].answer, p);
    var c, rest := pieces[0], pieces[1..];
    GapsHold(AllBounds(c.answer), c.lo, c.hi, p);
    PiecesHold(rest, c.hi, hi, p);
    HitsConcat(GapsOf(c), PieceGaps(rest), p);
    if i == 0 {
      ReportedExactly(c.answer, p);
      SortedGapsSkip(AllBounds(c.answer), c.lo, c.hi, p);
    } else {
      assert rest[i - 1] == pieces[i];
      TileOrder(rest, c.hi, hi, i - 1);
      SortedPiecesSkip(rest, c.hi, hi, p);
    }
  }

  // ---- What the hypervisor keeps pinned ----

  // The answer reports only pages of the set, and all of them in lo..hi if its page
  // has room for another subrange behind a header of 16 bytes.
  ghost predicate Truthful(c: Piece, always: nat -> bool) {
    && (forall p: nat :: Reported(c.answer, p) ==> always(p))
    && (16 + 8 * (|c.answer| + 1) <= 4096 ==> forall p: nat :: c.lo <= p < c.hi && always(p) ==> Reported(c.answer, p))
  }

  // The piece was not swept with an answer that may be cut short, unless it is a
  // single page.
  predicate Settled(c: Piece) { |c.answer| < MAX_SUBRANGES || c.hi == c.lo + 1 }

  // Page p makes a piece of its own, and its full answer does not report it.
  ghost predicate CutOff(pieces: seq<Piece>, p: nat) {
    exists i :: 0 <= i < |pieces| && pieces[i].lo == p && pieces[i].hi == p + 1
                && |pieces[i].answer| >= MAX_SUBRANGES && !Reported(pieces[i].answer, p)
  }

  lemma {:induction false} PieceOf(pieces: seq<Piece>, lo: nat, hi: nat, p: nat) returns (i: nat)
    requires Tiles(pieces, lo, hi) && lo <= p < hi
    ensures i < |pieces| && pieces[i].lo <= p < pieces[i].hi
    decreases pieces
  {
    if p < pieces[0].hi { return 0; }
    var j := PieceOf(pieces[1..], pieces[0].hi, hi, p);
    i := j + 1;
  }

  lemma {:induction false} OnlyPieceOf(pieces: seq<Piece>, lo: nat, hi: nat, p: nat, i: nat, j: nat)
    requires Tiles(pieces, lo, hi) && i < |pieces| && j < |pieces|
    requires pieces[i].lo <= p < pieces[i].hi && pieces[j].lo <= p < pieces[j].hi
    ensures i == j
    decreases pieces
  {
    if i > 0 && j > 0 {
      OnlyPieceOf(pieces[1..], pieces[0].hi, hi, p, i - 1, j - 1);
    } else if i > 0 {
      TileOrder(pieces[1..], pieces[0].hi, hi, i - 1);
    } else if j > 0 {
      TileOrder(pieces[1..], pieces[0].hi, hi, j - 1);
    }
  }

  // If the hypervisor tells the truth about a set of pages, in order, the gaps hold
  // every requested page outside the set once and no page of the set, but for pages
  // that are cut off.
  lemma PiecesExactly(pieces: seq<Piece>, lo: nat, hi: nat, always: nat -> bool, p: nat)
    requires Tiles(pieces, lo, hi)
    requires forall i :: 0 <= i < |pieces| ==>
      Settled(pieces[i]) && Truthful(pieces[i], always) && Sorted(AllBounds(pieces[i].answer))
    ensures Hits(PieceGaps(pieces), p) == if lo <= p < hi && (!always(p) || CutOff(pieces, p)) then 1 else 0
  {
    PiecesHold(pieces, lo, hi, p);
    if lo <= p < hi {
      var i := PieceOf(pieces, lo, hi, p);
      if AlwaysPinned(pieces, p) { SortedPiecesSkip(pieces, lo, hi, p); }
      assert AlwaysPinned(pieces, p) <==> Reported(pieces[i].answer, p) by { OnlyReport(pieces, lo, hi, p, i); }
      assert CutOff(pieces, p) ==> !Reported(pieces[i].answer, p) by { OnlyReport(pieces, lo, hi, p, i); }
    }
  }

  // What is said of page p is said by its own piece.
  lemma OnlyReport(pieces: seq<Piece>, lo: nat, hi: nat, p: nat, i: nat)
    requires Tiles(pieces, lo, hi) && i < |pieces| && pieces[i].lo <= p < pieces[i].hi
    ensures AlwaysPinned(pieces, p) <==> Reported(pieces[i].answer, p)
    ensures CutOff(pieces, p) ==> !Reported(pieces[i].answer, p)
  {
    forall j: nat | j < |pieces| && pieces[j].lo <= p < pieces[j].hi ensures j == i {
      OnlyPieceOf(pieces, lo, hi, p, i, j);
    }
  }

  lemma {:induction false} TileOrder(pieces: seq<Piece>, lo: nat, hi: nat, i: nat)
    requires Tiles(pieces, lo, hi) && i < |pieces|
    ensures lo <= pieces[i].lo
  {
    if i > 0 { TileOrder(pieces[1..], pieces[0].hi, hi, i - 1); }
  }

  // ---- Records of a request ----

  ghost function Records(base: nat, count: nat, gaps: seq<Span>): seq<PinObject> {
    if gaps == [] then []
    else [PinObject(base, count, gaps[0].lo, gaps[0].hi - gaps[0].lo)] + Records(base, count, gaps[1..])
  }

  lemma {:induction false} RecordsConcat(base: nat, count: nat, a: seq<Span>, b: seq<Span>)
    ensures Records(base, count, a + b) == Records(base, count, a) + Records(base, count, b)
  {
    if a == [] {
      assert a + b == b;
    } else {
      RecordsConcat(base, count, a[1..], b);
      assert (a + b)[1..] == a[1..] + b;
      var first := [PinObject(base, count, a[0].lo, a[0].hi - a[0].lo)];
      assert Records(base, count, a + b) == first + Records(base, count, a[1..] + b);
      assert Records(base, count, a) == first + Records(base, count, a[1..]);
      Associate(first, Records(base, count, a[1..]), Records(base, count, b));
    }
  }

  lemma RecordsJoin(list: seq<PinObject>, base: nat, count: nat, a: seq<Span>, b: seq<Span>)
    ensures list + Records(base, count, a) + Records(base, count, b) == list + Records(base, count, a + b)
  {
    RecordsConcat(base, count, a, b);
  }

  lemma {:induction false} RecordsCover(base: nat, count: nat, gaps: seq<Span>, p: nat)
    ensures Covering(Records(base, count, gaps), p) == Hits(gaps, p)
  {
    if gaps != [] { RecordsCover(base, count, gaps[1..], p); }
  }

  // The list without the records of a request.
  function Without(list: seq<PinObject>, base: nat, count: nat): seq<PinObject> {
    if list == [] then []
    else if Matches(list[0], base, count) then Without(list[1..], base, count)
    else [list[0]] + Without(list[1..], base, count)
  }

  predicate Tracked(list: seq<PinObject>, base: nat, count: nat) {
    exists o :: o in list && Matches(o, base, count)
  }

  lemma {:induction false} WithoutConcat(a: seq<PinObject>, b: seq<PinObject>, base: nat, count: nat)
    ensures Without(a + b, base, count) == Without(a, base, count) + Without(b, base, count)
  {
    if a == [] {
      assert a + b == b;
    } else {
      WithoutConcat(a[1..], b, base, count);
      assert (a + b)[1..] == a[1..] + b;
      if !Matches(a[0], base, count) {
        Associate([a[0]], Without(a[1..], base, count), Without(b, base, count));
      }
    }
  }

  lemma {:induction false} WithoutRecords(base: nat, count: nat, gaps: seq<Span>)
    ensures Without(Records(base, count, gaps), base, count) == []
  {
    if gaps != [] { WithoutRecords(base, count, gaps[1..]); }
  }

  // Removing the records of a request leaves the list as it was exactly when
  // none was tracked; otherwise some page loses a pin.
  lemma {:induction false} WithoutRestores(list: seq<PinObject>, base: nat, count: nat)
    requires forall o :: o in list ==> o.count > 0
    ensures Without(list, base, count) == list <==> !Tracked(list, base, count)
    ensures |Without(list, base, count)| <= |list|
    ensures forall p: nat :: Covering(Without(list, base, count), p) <= Covering(list, p)
    ensures Tracked(list, base, count) ==>
      && |Without(list, base, count)| < |list|
      && exists p: nat :: Covering(Without(list, base, count), p) < Covering(list, p)
  {
    if list != [] {
      var o, rest := list[0], list[1..];
      WithoutRestores(rest, base, count);
      forall p: nat ensures Covering(Without(list, base, count), p) <= Covering(list, p) {
        if !Matches(o, base, count) { CoveringConcat([o], Without(rest, base, count), p); }
      }
      if Matches(o, base, count) {
        assert Covering(Without(list, base, count), o.base) < Covering(list, o.base);
      } else if Tracked(list, base, count) {
        assert Tracked(rest, base, count);
        var p: nat :| Covering(Without(rest, base, count), p) < Covering(rest, p);
        CoveringConcat([o], Without(rest, base, count), p);
      } else {
        assert !Tracked(rest, base, count);
      }
    }
  }
}
