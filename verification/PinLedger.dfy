// EfiHvPinning.c and the pin teardown of EfiHvConnection.c: the list of pin
// records and the pin counts that the hypervisor keeps.
//
// The hypervisor is free to fail any call, after any number of the call's
// ranges, and to report any always-pinned subranges. FAIL_FAST does not return:
// a method that reaches it answers Halted, and nothing is promised then.
module PinLedger {
  import opened Common
  import opened PinRanges

  datatype Status = Success | InvalidParameter | BadBufferSize | OutOfResources | HvError | Halted

  const MAX_RANGES := 511

  // A pin count after a page was pinned or unpinned n times.
  function Changed(pin: bool, before: nat, n: nat): nat {
    if pin then before + n else if before < n then 0 else before - n
  }

  function Times(b: bool): nat {
    if b then 1 else 0
  }

  // EfiHvCountGpaPageRangePages.
  method CountPages(ranges: seq<Range>) returns (pages: nat)
    ensures pages == Total(ranges)
  {
    pages := 0;
    for i := 0 to |ranges|
      invariant pages == Total(ranges[..i])
    {
      assert ranges[..i + 1][..i] == ranges[..i];
      pages := pages + ranges[i].additional + 1;
    }
    assert ranges[..|ranges|] == ranges;
  }

  // EfiHvBuildGpaPageRangeList.
  method BuildRanges(base: nat, count: nat) returns (ranges: seq<Range>, pages: nat)
    ensures Consecutive(ranges, base) && Total(ranges) == pages <= count && |ranges| <= MAX_RANGES
    ensures count > 0 ==> ranges != []
    ensures pages < count ==> pages == MAX_RANGES * MAX_PAGES_PER_RANGE
  {
    ranges, pages := [], 0;
    var left: nat := count;
    while |ranges| < MAX_RANGES && left != 0
      invariant Consecutive(ranges, base) && Total(ranges) == pages && |ranges| <= MAX_RANGES
      invariant pages + left == count && (ranges == [] ==> left == count)
      invariant left > 0 ==> pages == |ranges| * MAX_PAGES_PER_RANGE
      decreases left
    {
      var n := if left < MAX_PAGES_PER_RANGE then left else MAX_PAGES_PER_RANGE;
      ConsecutiveAppend(ranges, Range(n - 1, false, false, base + pages), base);
      ranges := ranges + [Range(n - 1, false, false, base + pages)];
      pages, left := pages + n, left - n;
    }
  }

  // The pieces tile pages lo..hi, and gaps are the gaps of all of them.
  ghost predicate Swept(pieces: seq<Piece>, gaps: seq<Span>, lo: nat, hi: nat) {
    Tiles(pieces, lo, hi) && gaps == PieceGaps(pieces)
  }

  lemma SweptOne(c: Piece, gaps: seq<Span>)
    requires c.lo < c.hi && gaps == Gaps(AllBounds(c.answer), c.lo, c.hi)
    ensures Swept([c], gaps, c.lo, c.hi)
  {
    OnePiece(c);
  }

  lemma SweptConcat(a: seq<Piece>, gapsA: seq<Span>, b: seq<Piece>, gapsB: seq<Span>, lo: nat, mid: nat, hi: nat)
    requires Swept(a, gapsA, lo, mid) && Swept(b, gapsB, mid, hi)
    ensures Swept(a + b, gapsA + gapsB, lo, hi)
  {
    TilesConcat(a, b, lo, mid, hi);
    GapsConcat(a, b);
  }

  // The pieces were swept with answers that the hypervisor gave and that are not cut
  // short, but for single pages.
  ghost predicate AllSettled(pieces: seq<Piece>, answers: seq<Piece>) {
    forall i :: 0 <= i < |pieces| ==> Settled(pieces[i]) && pieces[i] in answers
  }

  lemma SettledConcat(a: seq<Piece>, b: seq<Piece>, before: seq<Piece>, answers: seq<Piece>)
    requires AllSettled(a, before) && AllSettled(b, answers) && before <= answers
    ensures AllSettled(a + b, answers)
  {
    forall i | 0 <= i < |a| ensures a[i] in answers {
      var k :| 0 <= k < |before| && before[k] == a[i];
      assert answers[k] == a[i];
    }
  }

  class Ledger {
    // mPinnedPageList.
    var pinned: seq<PinObject>

    // The hypervisor's pin count of every page, the pages it keeps pinned itself,
    // and every answer it has given about those.
    ghost var pins: nat -> nat
    ghost const always: nat -> bool
    ghost var answers: seq<Piece>

    // The calls that failed so far: hypercalls, answers that are too long, and
    // allocations of a record.
    ghost var faults: nat

    // Every page is pinned as often as records cover it.
    ghost predicate Valid()
      reads this
    {
      && (forall p: nat :: pins(p) == Covering(pinned, p))
      && forall o :: o in pinned ==> o.count > 0
    }

    constructor (ghost always: nat -> bool)
      ensures Valid() && pinned == [] && answers == [] && faults == 0 && this.always == always
    {
      pinned, pins, this.always, answers, faults := [], p => 0, always, [], 0;
    }

    // The hypervisor tells the truth about the pages it keeps pinned, in order.
    ghost predicate Honest()
      reads this`answers
    {
      forall c :: c in answers ==> Truthful(c, always) && Sorted(AllBounds(c.answer))
    }

    // HvCallPinGpaPageRanges or HvCallUnpinGpaPageRanges. The hypervisor has
    // processed that many ranges, from the first on.
    method Hypercall(pin: bool, ranges: seq<Range>) returns (ok: bool, processed: nat)
      requires 8 + 8 * |ranges| <= 4096 // the header and the list fit in a page
      requires forall i :: 0 <= i < |ranges| ==> !ranges[i].large && ranges[i].additional < 2048 // an 11-bit field
      modifies this`pins, this`faults
      ensures faults >= old(faults) && (faults == old(faults) <==> ok && processed == |ranges|)
      ensures processed <= |ranges| ==>
        forall p: nat :: pins(p) == Changed(pin, old(pins)(p), RangeHits(ranges[..processed], p))
    {
      ok, processed := *, *;
      if !(ok && processed == |ranges|) { faults := faults + 1; }
      if processed <= |ranges| {
        ghost var was := pins;
        pins := p => Changed(pin, was(p), RangeHits(ranges[..processed], p));
      }
    }

    // EfiHvpPinUnpinGpaPageRanges.
    method PinUnpin(pin: bool, count: nat, base: nat) returns (status: Status, processed: nat)
      modifies this`pins, this`faults
      ensures status in {Success, InvalidParameter, HvError, Halted} && (status == InvalidParameter <==> count == 0)
      ensures faults >= old(faults) && (status.Success? <==> count > 0 && faults == old(faults))
      ensures !status.Halted? ==>
        && processed <= count && (status.Success? ==> processed == count)
        && forall p: nat :: pins(p) == Changed(pin, old(pins)(p), Times(InRun(base, processed, p)))
    {
      processed := 0;
      if count == 0 { return InvalidParameter, 0; }
      var left := count;
      while true
        invariant left > 0 && processed + left == count && faults == old(faults)
        invariant forall p: nat :: pins(p) == Changed(pin, old(pins)(p), Times(InRun(base, processed, p)))
        decreases left
      {
        ghost var before := pins;
        var ranges, pages := BuildRanges(base + processed, left);
        var ok, done := Hypercall(pin, ranges);
        if done > |ranges| || (ok && done != |ranges|) { return Halted, processed; }
        var n := CountPages(ranges[..done]);
        TotalPrefix(ranges, done);
        forall p: nat ensures pins(p) == Changed(pin, old(pins)(p), Times(InRun(base, processed + n, p))) {
          PrefixPages(ranges, base + processed, done, p);
          assert pins(p) == Changed(pin, before(p), Times(InRun(base + processed, n, p)));
        }
        assert ok ==> ranges[..done] == ranges;
        processed, left := processed + n, left - n;
        if !ok || left == 0 {
          return if ok then Success else HvError, processed;
        }
      }
    }

    // EfiHvpTrackPinnedGpaPageRange.
    method Track(requestBase: nat, requestCount: nat, base: nat, count: nat) returns (status: Status)
      modifies this`pinned, this`faults
      ensures status in {Success, OutOfResources, Halted} && (status.Halted? <==> count == 0)
      ensures faults >= old(faults) && (status.Success? <==> count > 0 && faults == old(faults))
      ensures pinned == if status.Success? then old(pinned) + [PinObject(requestBase, requestCount, base, count)]
                        else old(pinned)
    {
      if count == 0 { return Halted; }
      var memory: bool := *;
      if !memory {
        faults := faults + 1;
        return OutOfResources;
      }
      pinned := pinned + [PinObject(requestBase, requestCount, base, count)];
      return Success;
    }

    // EfiHvpPinAndTrackGpaPageRange.
    method PinAndTrack(requestBase: nat, requestCount: nat, base: nat, count: nat, applied: bool)
      returns (status: Status, applied': bool)
      requires Valid()
      modifies this`pinned, this`pins, this`faults
      ensures !status.InvalidParameter? && (!status.Halted? ==> Valid() && count > 0)
      ensures faults >= old(faults) && (status.Success? <==> count > 0 && faults == old(faults))
      ensures status.Success? ==>
        applied' && pinned == old(pinned) + [PinObject(requestBase, requestCount, base, count)]
      ensures !status.Success? ==> applied' == applied
      ensures !status.Success? && !status.Halted? ==> pinned == old(pinned)
    {
      applied' := applied;
      if count == 0 { return Halted, applied'; }
      var processed, undo;
      status, processed := PinUnpin(true, count, base);
      if status.Halted? { return; }
      if status.HvError? {
        if processed != 0 {
          undo, processed := PinUnpin(false, processed, base);
          if !undo.Success? { return Halted, applied'; }
        }
        return;
      }
      status := Track(requestBase, requestCount, base, count);
      if status.Success? {
        applied' := true;
        forall p: nat ensures pins(p) == Covering(pinned, p) {
          CoveringConcat(old(pinned), [PinObject(requestBase, requestCount, base, count)], p);
        }
      } else {
        undo, processed := PinUnpin(false, count, base);
        if !undo.Success? { status := Halted; }
      }
    }

    // HvCallQueryInformationGpaRange for always-pinned subranges.
    method Query(base: nat, count: nat) returns (ok: bool, subranges: seq<Range>)
      modifies this`answers, this`faults
      ensures answers == old(answers) + [Piece(base, base + count, subranges)]
      ensures faults >= old(faults) && (faults == old(faults) <==> ok && |subranges| <= MAX_SUBRANGES)
    {
      ok, subranges := *, *;
      if !(ok && |subranges| <= MAX_SUBRANGES) { faults := faults + 1; }
      answers := answers + [Piece(base, base + count, subranges)];
    }

    // Pins one gap; list and gaps are what was pinned before.
    method PinGap(requestBase: nat, requestCount: nat, gap: Span, applied: bool,
                  ghost list: seq<PinObject>, ghost gaps: seq<Span>)
      returns (status: Status, applied': bool)
      requires Valid() && pinned == list + Records(requestBase, requestCount, gaps)
      modifies this`pinned, this`pins, this`faults
      ensures !status.InvalidParameter? && (!status.Halted? ==> Valid())
      ensures faults >= old(faults) && (status.Success? <==> faults == old(faults))
      ensures status.Success? ==> applied' && pinned == list + Records(requestBase, requestCount, gaps + [gap])
      ensures !status.Success? && !status.Halted? ==> applied' == applied && pinned == old(pinned)
    {
      status, applied' := PinAndTrack(requestBase, requestCount, gap.lo, gap.hi - gap.lo, applied);
      RecordsJoin(list, requestBase, requestCount, gaps, [gap]);
      assert Records(requestBase, requestCount, [gap]) ==
             [PinObject(requestBase, requestCount, gap.lo, gap.hi - gap.lo)];
    }

    // The gap sweep of EfiHvpPinGpaPageRangeSkippingAlwaysPinnedPages. gaps is
    // the part of the gaps that was pinned.
    method PinGaps(requestBase: nat, requestCount: nat, base: nat, count: nat, subranges: seq<Range>, applied: bool)
      returns (status: Status, applied': bool, ghost gaps: seq<Span>)
      requires Valid()
      modifies this`pinned, this`pins, this`faults
      ensures !status.InvalidParameter? && faults >= old(faults) && (status.Success? <==> faults == old(faults))
      ensures !status.Halted? ==>
        && Valid() && pinned == old(pinned) + Records(requestBase, requestCount, gaps)
        && applied' == (applied || gaps != [])
      ensures status.Success? ==> gaps == Gaps(AllBounds(subranges), base, base + count)
    {
      var current: nat, end: nat, index := base, base + count, 0;
      status, applied', gaps := Success, applied, [];
      ghost var always := AllBounds(subranges);
      while index < |subranges|
        invariant index <= |subranges| && current <= end && Valid() && status.Success? && faults == old(faults)
        invariant pinned == old(pinned) + Records(requestBase, requestCount, gaps)
        invariant applied' == (applied || gaps != [])
        invariant gaps + Gaps(always[index..], current, end) == Gaps(always, base, end)
      {
        var s := Bounds(subranges[index]);
        assert always[index..][1..] == always[index + 1..] && always[index] == s;
        index := index + 1;
        if !(s.hi <= current || s.lo >= end) {
          var next := if s.hi < end then s.hi else end;
          if s.lo > current {
            var gap := Span(current, s.lo);
            status, applied' := PinGap(requestBase, requestCount, gap, applied', old(pinned), gaps);
            if !status.Success? { return; }
            Associate(gaps, [gap], Gaps(always[index..], next, end));
            gaps := gaps + [gap];
          }
          current := next;
        }
      }
      if current < end {
        status, applied' := PinGap(requestBase, requestCount, Span(current, end), applied', old(pinned), gaps);
        if !status.Success? { return; }
        gaps := gaps + [Span(current, end)];
      }
    }

    // EfiHvpPinGpaPageRangeSkippingAlwaysPinnedPages. A full answer may be cut
    // short, so the range is halved; pieces are the ranges swept in the end.
    method PinSkippingAlwaysPinned(requestBase: nat, requestCount: nat, base: nat, count: nat, applied: bool)
      returns (status: Status, applied': bool, ghost gaps: seq<Span>, ghost pieces: seq<Piece>)
      requires Valid()
      modifies this
      ensures !status.InvalidParameter? && faults >= old(faults)
      ensures status.Success? <==> count > 0 && faults == old(faults)
      ensures !status.Halted? ==>
        && Valid() && pinned == old(pinned) + Records(requestBase, requestCount, gaps)
        && applied' == (applied || gaps != [])
      ensures status.Success? ==> Swept(pieces, gaps, base, base + count)
      ensures old(answers) <= answers && AllSettled(pieces, answers)
      decreases count
    {
      status, applied', gaps, pieces := Halted, applied, [], [];
      if count == 0 { return; }
      var ok, subranges := Query(base, count);
      if !ok { status := HvError; return; }
      if |subranges| > MAX_SUBRANGES { status := BadBufferSize; return; }
      if |subranges| == MAX_SUBRANGES && count > 1 {
        var half := count / 2;
        status, applied', gaps, pieces := PinSkippingAlwaysPinned(requestBase, requestCount, base, half, applied');
        if !status.Success? { return; }
        ghost var gaps2, pieces2;
        ghost var before := answers;
        status, applied', gaps2, pieces2 :=
          PinSkippingAlwaysPinned(requestBase, requestCount, base + half, count - half, applied');
        RecordsJoin(old(pinned), requestBase, requestCount, gaps, gaps2);
        SettledConcat(pieces, pieces2, before, answers);
        if status.Success? { SweptConcat(pieces, gaps, pieces2, gaps2, base, base + half, base + count); }
        gaps, pieces := gaps + gaps2, pieces + pieces2;
      } else {
        status, applied', gaps := PinGaps(requestBase, requestCount, base, count, subranges, applied');
        pieces := [Piece(base, base + count, subranges)];
        if status.Success? { SweptOne(pieces[0], gaps); }
      }
    }

    // EfiHvpUnpinTrackedGpaPageRanges.
    method UnpinTracked(base: nat, count: nat) returns (halted: bool, unpinned: nat)
      requires Valid()
      modifies this`pinned, this`pins, this`faults
      ensures faults >= old(faults) && (halted <==> faults > old(faults))
      ensures !halted ==>
        && Valid() && pinned == Without(old(pinned), base, count)
        && (unpinned > 0 <==> Tracked(old(pinned), base, count))
    {
      halted, unpinned := false, 0;
      var i := 0;
      ghost var seen := 0;
      while i < |pinned|
        invariant seen <= |old(pinned)| && i <= |pinned| && Valid() && faults == old(faults)
        invariant pinned[..i] == Without(old(pinned)[..seen], base, count) && pinned[i..] == old(pinned)[seen..]
        invariant unpinned > 0 <==> Tracked(old(pinned)[..seen], base, count)
        decreases |pinned| - i
      {
        var o := pinned[i];
        ghost var front, back := pinned[..i], pinned[i..];
        assert back == [o] + back[1..] && old(pinned)[seen..][1..] == old(pinned)[seen + 1..];
        ScanStep(old(pinned), seen, base, count);
        seen := seen + 1;
        if !Matches(o, base, count) {
          i := i + 1;
          assert pinned[..i] == front + [o] && pinned[i..] == back[1..];
        } else {
          halted := Remove(i);
          if halted { return; }
          unpinned := unpinned + 1;
          assert pinned[..i] == front && pinned[i..] == back[1..];
        }
      }
      assert old(pinned)[..seen] == old(pinned);
      assert pinned[..i] == pinned;
    }

    // Takes one record off the list and unpins its pages.
    method Remove(i: nat) returns (halted: bool)
      requires Valid() && i < |pinned|
      modifies this`pinned, this`pins, this`faults
      ensures pinned == old(pinned)[..i] + old(pinned)[i + 1..]
      ensures faults >= old(faults) && (halted <==> faults > old(faults)) && (!halted ==> Valid())
    {
      var o := pinned[i];
      pinned := pinned[..i] + pinned[i + 1..];
      var status, _ := PinUnpin(false, o.count, o.base);
      halted := !status.Success?;
      forall p: nat ensures !halted ==> pins(p) == Covering(pinned, p) {
        CoveringRemove(old(pinned), i, p);
      }
    }

    // The pin teardown of EfiHvDisconnectFromHypervisor.
    method Teardown() returns (halted: bool)
      requires Valid()
      modifies this`pinned, this`pins, this`faults
      ensures faults >= old(faults) && (halted <==> faults > old(faults))
      ensures !halted ==> Valid() && pinned == [] && forall p: nat :: pins(p) == 0
    {
      halted := false;
      while pinned != []
        invariant Valid() && faults == old(faults)
        decreases |pinned|
      {
        halted := Remove(0);
        if halted { return; }
      }
    }

    // Page p is requested and the hypervisor does not keep it pinned, or its full
    // answer does not say so.
    ghost predicate Wanted(pieces: seq<Piece>, base: nat, count: nat, p: nat) {
      base <= p < base + count && (!always(p) || CutOff(pieces, p))
    }

    // EfiHvPinAddressRange.
    method PinAddressRange(address: nat, bytes: nat) returns (status: Status, applied: bool, ghost pieces: seq<Piece>)
      requires Valid()
      modifies this
      ensures status.InvalidParameter? <==> address % 4096 != 0 || bytes % 4096 != 0 || bytes == 0
      ensures faults >= old(faults) && (status.Success? <==> !status.InvalidParameter? && faults == old(faults))
      ensures status.InvalidParameter? ==> unchanged(this)
      ensures !status.Success? ==> !applied
      ensures !status.Halted? ==> Valid()
      // A successful request pins what PiecesHold and SortedPiecesSkip say.
      ensures status.Success? ==>
        var base, count := address / 4096, bytes / 4096;
        && Tiles(pieces, base, base + count)
        && pinned == old(pinned) + Records(base, count, PieceGaps(pieces))
        && applied == (PieceGaps(pieces) != [])
        && AllSettled(pieces, answers)
        && (forall p: nat :: pins(p) == old(pins)(p) + Hits(PieceGaps(pieces), p))
        && (Honest() ==> forall p: nat :: pins(p) == old(pins)(p) + Times(Wanted(pieces, base, count, p)))
      // A failed one takes the records of the same request off the list.
      ensures !status.Success? && !status.InvalidParameter? && !status.Halted? ==>
        var base, count := address / 4096, bytes / 4096;
        && pinned == Without(old(pinned), base, count)
        && (!Tracked(old(pinned), base, count) ==> pinned == old(pinned) && forall p: nat :: pins(p) == old(pins)(p))
        && (Tracked(old(pinned), base, count) ==> |pinned| < |old(pinned)| && exists p: nat :: pins(p) < old(pins)(p))
    {
      applied, pieces := false, [];
      if address % 4096 != 0 || bytes % 4096 != 0 || bytes == 0 { status := InvalidParameter; return; }
      var base, count := address / 4096, bytes / 4096;
      var done;
      ghost var gaps;
      status, done, gaps, pieces := PinSkippingAlwaysPinned(base, count, base, count, false);
      if status.Halted? { return; }
      if !status.Success? {
        var halted, _ := UnpinTracked(base, count);
        if halted { status := Halted; return; }
        WithoutConcat(old(pinned), Records(base, count, gaps), base, count);
        WithoutRecords(base, count, gaps);
        assert pinned == Without(old(pinned), base, count) + [];
        WithoutRestores(old(pinned), base, count);
        assert forall p: nat :: pins(p) == Covering(pinned, p) && old(pins)(p) == Covering(old(pinned), p);
        return;
      }
      applied := done;
      forall p: nat ensures pins(p) == old(pins)(p) + Hits(gaps, p) {
        CoveringConcat(old(pinned), Records(base, count, gaps), p);
        RecordsCover(base, count, gaps, p);
      }
      if Honest() {
        forall p: nat ensures pins(p) == old(pins)(p) + Times(Wanted(pieces, base, count, p)) {
          PiecesExactly(pieces, base, base + count, always, p);
        }
      }
    }

    // EfiHvUnpinAddressRange.
    method UnpinAddressRange(address: nat, bytes: nat) returns (halted: bool)
      requires Valid()
      modifies this`pinned, this`pins, this`faults
      ensures !halted <==>
        && address % 4096 == 0 && bytes % 4096 == 0 && bytes != 0 && Tracked(old(pinned), address / 4096, bytes / 4096)
        && faults == old(faults)
      ensures faults >= old(faults)
      ensures !halted ==> Valid() && pinned == Without(old(pinned), address / 4096, bytes / 4096)
    {
      if address % 4096 != 0 || bytes % 4096 != 0 || bytes == 0 { return true; }
      var unpinned;
      halted, unpinned := UnpinTracked(address / 4096, bytes / 4096);
      halted := halted || unpinned == 0;
    }
  }

  datatype Request = Pin(address: nat, bytes: nat) | Unpin(address: nat, bytes: nat)

  // A connection: any run of requests, and the teardown.
  method Session(requests: seq<Request>, ghost always: nat -> bool) returns (ledger: Ledger, halted: bool)
    ensures !halted ==> ledger.pinned == [] && forall p: nat :: ledger.pins(p) == 0
  {
    ledger := new Ledger(always);
    halted := false;
    for i := 0 to |requests|
      invariant fresh(ledger) && ledger.Valid()
    {
      match requests[i] {
        case Pin(address, bytes) =>
          var status, _, _ := ledger.PinAddressRange(address, bytes);
          halted := status.Halted?;
        case Unpin(address, bytes) =>
          halted := ledger.UnpinAddressRange(address, bytes);
      }
      if halted { return; }
    }
    halted := ledger.Teardown();
  }

  lemma ScanStep(list: seq<PinObject>, i: nat, base: nat, count: nat)
    requires i < |list|
    ensures var o, before := list[i], Without(list[..i], base, count);
      Without(list[..i + 1], base, count) == if Matches(o, base, count) then before else before + [o]
    ensures Tracked(list[..i + 1], base, count) <==> Tracked(list[..i], base, count) || Matches(list[i], base, count)
  {
    assert list[..i + 1] == list[..i] + [list[i]];
    WithoutConcat(list[..i], [list[i]], base, count);
    assert list[i] in list[..i + 1];
  }
}
