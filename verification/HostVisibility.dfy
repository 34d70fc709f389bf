// EfiHvPageVisibility.c and the visibility teardown of EfiHvConnection.c: which
// pages the host can see, which the hardware accepts as private, and the list of
// protection objects that tracks the former.
//
// The hypervisor may fail any call after any number of its pages. FAIL_FAST does
// not return: a method that reaches it answers Halted, and nothing is promised.
module HostVisibility {
  import opened Common

  datatype Isolation = NotIsolated | Vbs | Snp | Tdx

  datatype Status = Success | InvalidParameter | OutOfResources | HvError | Halted

  // EFI_HV_PROTECTION_OBJECT.
  datatype Protection = Protection(base: nat, count: nat)

  const READABLE := 1
  const WRITABLE := 2

  // Page numbers that fit in a hypercall input page behind its header.
  const MAX_REPS: nat := (4096 - 16) / 8

  predicate InObjects(list: seq<Protection>, p: nat) {
    exists i :: 0 <= i < |list| && InRun(list[i].base, list[i].count, p)
  }

  // No object overlaps the given run.
  predicate Clear(list: seq<Protection>, base: nat, count: nat) {
    forall i :: 0 <= i < |list| ==> list[i].base + list[i].count <= base || base + count <= list[i].base
  }

  predicate Disjoint(list: seq<Protection>) {
    forall i, j :: 0 <= i < j < |list| ==>
      list[i].base + list[i].count <= list[j].base || list[j].base + list[j].count <= list[i].base
  }

  function Dropped(list: seq<Protection>, i: nat): seq<Protection>
    requires i < |list|
  {
    list[..i] + list[i + 1..]
  }

  // Hiding the pages of one object leaves the others' pages visible, and no
  // more, exactly when no other object overlaps it.
  lemma DropExactly(list: seq<Protection>, i: nat)
    requires i < |list| && forall o :: o in list ==> o.count > 0
    ensures Clear(Dropped(list, i), list[i].base, list[i].count) <==>
      forall p: nat :: InObjects(Dropped(list, i), p) == (InObjects(list, p) && !InRun(list[i].base, list[i].count, p))
  {
    var rest, o := Dropped(list, i), list[i];
    if Clear(rest, o.base, o.count) {
      forall p: nat ensures InObjects(rest, p) == (InObjects(list, p) && !InRun(o.base, o.count, p)) {
        DropAt(list, i, p);
      }
    } else {
      var k :| 0 <= k < |rest| && !(rest[k].base + rest[k].count <= o.base || o.base + o.count <= rest[k].base);
      assert rest[k] in list;
      var p := if rest[k].base < o.base then o.base else rest[k].base;
      assert InRun(rest[k].base, rest[k].count, p) && InRun(o.base, o.count, p);
      assert InObjects(rest, p);
    }
  }

  lemma DropAt(list: seq<Protection>, i: nat, p: nat)
    requires i < |list|
    ensures InObjects(list, p) <==> InObjects(Dropped(list, i), p) || InRun(list[i].base, list[i].count, p)
  {
    var rest := Dropped(list, i);
    if k :| 0 <= k < |rest| && InRun(rest[k].base, rest[k].count, p) {
      assert rest[k] == list[if k < i then k else k + 1];
    }
    if k :| 0 <= k < |list| && InRun(list[k].base, list[k].count, p) {
      assert k != i ==> rest[if k < i then k else k - 1] == list[k];
    }
  }

  // ---- The ledger ----

  datatype Snapshot = Snapshot(accepted: nat -> bool, visible: nat -> bool)

  ghost predicate Apart(s: Snapshot) {
    forall p: nat :: !(s.accepted(p) && s.visible(p))
  }

  // The two states differ in page p at most.
  ghost predicate ExceptAt(s: Snapshot, s': Snapshot, p: nat) {
    forall q: nat :: q != p ==> s'.accepted(q) == s.accepted(q) && s'.visible(q) == s.visible(q)
  }

  ghost predicate OnePage(s: Snapshot, s': Snapshot) {
    exists p: nat :: ExceptAt(s, s', p)
  }

  // A log of states that change one page at a time and end with s.
  ghost predicate Log(history: seq<Snapshot>, s: Snapshot) {
    && |history| > 0 && history[|history| - 1] == s
    && forall i :: 0 < i < |history| ==> OnePage(history[i - 1], history[i])
  }

  lemma LogMore(history: seq<Snapshot>, s: Snapshot, s': Snapshot, p: nat)
    requires Log(history, s) && ExceptAt(s, s', p)
    ensures Log(history + [s'], s') && history <= history + [s']
  {
    var more := history + [s'];
    forall i | 0 < i < |more| ensures OnePage(more[i - 1], more[i]) {
      if i < |history| { assert more[i - 1] == history[i - 1] && more[i] == history[i]; }
    }
  }

  class Ledger {
    const isolation: Isolation
    const paravisor: bool
    const svsm: bool  // an SVSM calling area is present
    const takes: bool // TDX: the hypervisor takes the private mapping of a page it shows

    // mHostVisiblePageList.
    var objects: seq<Protection>

    // Pages accepted by the hardware, pages visible to the host, and every
    // state that these two went through.
    ghost var accepted: nat -> bool
    ghost var visible: nat -> bool
    ghost var history: seq<Snapshot>

    // The calls that failed so far: hypercalls, changes of acceptance, allocations.
    ghost var faults: nat

    // IsHardwareIsolatedNoParavisorEx.
    predicate NoParavisor() {
      (isolation.Snp? || isolation.Tdx?) && !paravisor
    }

    // The platforms on which a page that is shown is given up: on SNP by the
    // firmware, unless an SVSM does it, on TDX by the hypervisor, if it does.
    predicate Guarded() {
      NoParavisor() && if isolation.Snp? then !svsm else takes
    }

    // On these, no page was ever accepted and visible at once.
    ghost predicate Safe()
      reads this
    {
      && Log(history, Snapshot(accepted, visible))
      && (Guarded() ==> forall i :: 0 <= i < |history| ==> Apart(history[i]))
    }

    // The host sees exactly the pages of the objects, which do not overlap.
    ghost predicate Exact()
      reads this
    {
      && (forall p: nat :: visible(p) <==> InObjects(objects, p))
      && Disjoint(objects) && forall o :: o in objects ==> o.count > 0
    }

    constructor (isolation: Isolation, paravisor: bool, svsm: bool, takes: bool, ghost accepted: nat -> bool)
      ensures this.isolation == isolation && this.paravisor == paravisor && this.svsm == svsm && this.takes == takes
      ensures Safe() && Exact() && objects == [] && this.accepted == accepted
      ensures faults == 0 && history == [Snapshot(accepted, visible)] && forall p: nat :: !visible(p)
    {
      this.isolation, this.paravisor, this.svsm, this.takes, objects := isolation, paravisor, svsm, takes, [];
      var none := (p: nat) => false;
      this.accepted, visible, history, faults := accepted, none, [Snapshot(accepted, none)], 0;
    }

    // A new state is logged.
    ghost method Record(accepted': nat -> bool, visible': nat -> bool, p: nat)
      requires Safe() && ExceptAt(Snapshot(accepted, visible), Snapshot(accepted', visible'), p)
      requires Guarded() ==> !(accepted'(p) && visible'(p))
      modifies this`accepted, this`visible, this`history
      ensures Safe() && accepted == accepted' && visible == visible' && old(history) <= history
    {
      ghost var s, s' := Snapshot(accepted, visible), Snapshot(accepted', visible');
      assert Guarded() ==> Apart(history[|history| - 1]);
      LogMore(history, s, s', p);
      accepted, visible, history := accepted', visible', history + [s'];
    }

    // Whether a page is still accepted after the hypervisor changed its visibility,
    // if it did.
    function Left(flag: bool, was: bool, here: bool): bool {
      was && !(here && flag && isolation.Tdx? && takes)
    }

    // The hypervisor changes the visibility of one page.
    ghost method SetVisible(p: nat, flag: bool)
      requires Safe() && (flag && Guarded() ==> isolation.Tdx? || !accepted(p))
      modifies this`accepted, this`visible, this`history
      ensures Safe() && old(history) <= history
      ensures forall q: nat :: visible(q) == if q == p then flag else old(visible)(q)
      ensures forall q: nat :: accepted(q) == Left(flag, old(accepted)(q), q == p)
    {
      ghost var was, had := visible, accepted;
      Record((q: nat) => Left(flag, had(q), q == p), (q: nat) => if q == p then flag else was(q), p);
    }

    // HvCallModifySparseGpaPageHostVisibility: the pages from the first on are
    // processed one by one until all are or the hypervisor fails.
    method Hypercall(flag: bool, pages: seq<nat>) returns (ok: bool, processed: nat)
      requires Safe() && 16 + 8 * |pages| <= 4096 // the header and the list fit in a page
      requires flag && Guarded() ==> isolation.Tdx? || forall i :: 0 <= i < |pages| ==> !accepted(pages[i])
      modifies this`accepted, this`visible, this`history, this`faults
      ensures Safe() && old(history) <= history
      ensures faults >= old(faults) && (faults == old(faults) <==> ok && processed == |pages|)
      ensures processed <= |pages| ==>
        && (forall q: nat :: visible(q) == if q in pages[..processed] then flag else old(visible)(q))
        && (forall q: nat :: accepted(q) == Left(flag, old(accepted)(q), q in pages[..processed]))
    {
      ok, processed := *, *;
      if !(ok && processed == |pages|) { faults := faults + 1; }
      if processed > |pages| { return; }
      for i := 0 to processed
        invariant Safe() && old(history) <= history
        invariant faults >= old(faults) && (faults == old(faults) <==> ok && processed == |pages|)
        invariant forall q: nat :: visible(q) == if q in pages[..i] then flag else old(visible)(q)
        invariant forall q: nat :: accepted(q) == Left(flag, old(accepted)(q), q in pages[..i])
      {
        assert pages[..i + 1] == pages[..i] + [pages[i]];
        SetVisible(pages[i], flag);
      }
    }

    // What EfiUpdatePageRangeAcceptance does to a page of its range (here). On TDX
    // it revokes nothing, and the SVSM is asked to validate the page in either case.
    function Updated(accept: bool, was: bool, here: bool): bool {
      if !here then was else accept || if isolation.Tdx? then was else svsm
    }

    // The hardware accepts one page or gives it up.
    ghost method SetAccepted(p: nat, accept: bool)
      requires Safe() && (accept && Guarded() ==> !visible(p))
      modifies this`accepted, this`visible, this`history
      ensures Safe() && old(history) <= history && visible == old(visible)
      ensures forall q: nat :: accepted(q) == if q == p then accept else old(accepted)(q)
    {
      ghost var had := accepted;
      Record((q: nat) => if q == p then accept else had(q), visible, p);
    }

    // EfiUpdatePageRangeAcceptance.
    method UpdateAcceptance(base: nat, count: nat, accept: bool) returns (ok: bool)
      requires Safe() && NoParavisor() && (accept ==> forall p: nat :: InRun(base, count, p) ==> !visible(p))
      modifies this`accepted, this`visible, this`history, this`faults
      ensures Safe() && old(history) <= history && visible == old(visible)
      ensures faults >= old(faults) && (ok <==> faults == old(faults))
      ensures ok ==> forall q: nat :: accepted(q) == Updated(accept, old(accepted)(q), InRun(base, count, q))
    {
      ok := true;
      if isolation.Tdx? && !accept { return; }
      for i := 0 to count
        invariant Safe() && old(history) <= history && visible == old(visible) && ok && faults == old(faults)
        invariant forall q: nat :: accepted(q) == Updated(accept, old(accepted)(q), InRun(base, i, q))
      {
        ok := *;
        if !ok {
          faults := faults + 1;
          return;
        }
        assert InRun(base, count, base + i);
        SetAccepted(base + i, Updated(accept, accepted(base + i), true));
      }
    }

    // The batching loop of EfiHvpModifySparseGpaPageHostVisibility.
    method ModifyInBatches(flag: bool, count: nat, base: nat) returns (status: Status, processed: nat)
      requires Safe() && count > 0
      requires flag && Guarded() ==> isolation.Tdx? || forall p: nat :: InRun(base, count, p) ==> !accepted(p)
      modifies this`accepted, this`visible, this`history, this`faults
      ensures Safe() && old(history) <= history && (status.Success? || status.HvError? || status.Halted?)
      ensures faults >= old(faults) && (status.Success? <==> faults == old(faults))
      ensures !status.Halted? ==>
        && processed <= count && (status.Success? ==> processed == count)
        && (forall q: nat :: visible(q) == if InRun(base, processed, q) then flag else old(visible)(q))
        && (forall q: nat :: accepted(q) == Left(flag, old(accepted)(q), InRun(base, processed, q)))
    {
      processed := 0;
      var left: nat, index: nat := count, 0;
      while true
        invariant Safe() && old(history) <= history && left > 0 && processed + left == count && index == processed
        invariant faults == old(faults)
        invariant forall q: nat :: visible(q) == if InRun(base, processed, q) then flag else old(visible)(q)
        invariant forall q: nat :: accepted(q) == Left(flag, old(accepted)(q), InRun(base, processed, q))
        decreases left
      {
        var reps := if left < MAX_REPS then left else MAX_REPS;
        var pages: seq<nat> := [];
        while |pages| < reps
          invariant |pages| <= reps && index == processed + |pages|
          invariant forall i :: 0 <= i < |pages| ==> pages[i] == base + processed + i
        {
          pages := pages + [base + index];
          index := index + 1;
        }
        assert forall i :: 0 <= i < |pages| ==> InRun(base, count, pages[i]);
        var ok, done := Hypercall(flag, pages);
        if done > reps || done > left || (ok && done != reps) { return Halted, processed; }
        forall q: nat ensures q in pages[..done] <==> InRun(base + processed, done, q) {
          assert InRun(base + processed, done, q) ==> pages[..done][q - base - processed] == q;
        }
        processed, left := processed + done, left - done;
        if !ok || left == 0 { return if ok then Success else HvError, processed; }
      }
    }

    // What a change that succeeds leaves of the acceptance of a page of its range.
    function Accepts(flag: bool, was: bool, here: bool): bool {
      if !here then was
      else if !flag then true
      else if isolation.Tdx? then was && !takes
      else svsm
    }

    // EfiHvpModifySparseGpaPageHostVisibility, once the hypercall connection is up.
    method Modify(flag: bool, count: nat, base: nat) returns (status: Status, processed: nat)
      requires Safe()
      modifies this`visible, this`accepted, this`history, this`faults
      ensures Safe() && old(history) <= history && (status.InvalidParameter? <==> count == 0) && !status.OutOfResources?
      ensures faults >= old(faults) && (status.Success? <==> count > 0 && faults == old(faults))
      ensures !status.Halted? ==>
        && processed <= count && (status.Success? ==> processed == count)
        && forall q: nat :: visible(q) == if InRun(base, processed, q) then flag else old(visible)(q)
      ensures NoParavisor() ==>
        && (status.Success? ==> forall q: nat :: accepted(q) == Accepts(flag, old(accepted)(q), InRun(base, count, q)))
        && !status.HvError?
      ensures !NoParavisor() && !status.Halted? ==>
        forall q: nat :: accepted(q) == Left(flag, old(accepted)(q), InRun(base, processed, q))
    {
      if count == 0 { return InvalidParameter, 0; }
      processed := 0;
      if NoParavisor() && flag {
        var ok := UpdateAcceptance(base, count, false);
        if !ok { return Halted, 0; }
      }
      status, processed := ModifyInBatches(flag, count, base);
      if NoParavisor() && !status.Halted? {
        if !status.Success? { return Halted, processed; }
        if !flag {
          var ok := UpdateAcceptance(base, processed, true);
          if !ok { status := Halted; }
        }
      }
    }

    // Showing pages leaves none of them accepted exactly on a guarded platform, or
    // on TDX if none was accepted.
    method Show(count: nat, base: nat) returns (status: Status)
      requires Safe() && NoParavisor() && count > 0
      modifies this`visible, this`accepted, this`history, this`faults
      ensures Safe() && old(history) <= history && (status.Success? <==> faults == old(faults))
      ensures status.Success? ==>
        ((forall q: nat :: InRun(base, count, q) ==> !(accepted(q) && visible(q))) <==>
         Guarded() || (isolation.Tdx? && forall q: nat :: InRun(base, count, q) ==> !old(accepted)(q)))
    {
      var processed;
      status, processed := Modify(true, count, base);
      if status.Success? {
        assert InRun(base, count, base);
        if q: nat :| InRun(base, count, q) && old(accepted)(q) {
          assert accepted(q) == Accepts(true, true, true) && visible(q);
        }
        assert accepted(base) == Accepts(true, old(accepted)(base), true);
      }
    }

    // A request that is not aligned, does not make pages readable, or asks for
    // read-only pages where the hardware isolates.
    predicate Refused(flags: nat, address: nat, bytes: nat) {
      || isolation.NotIsolated? || address % 4096 != 0 || bytes % 4096 != 0
      || (flags != READABLE && flags != READABLE + WRITABLE)
      || ((isolation.Snp? || isolation.Tdx?) && flags == READABLE)
    }

    // EfiHvMakeAddressRangeHostVisible. On an error of the hypervisor, undone
    // is the number of pages that were made visible and hidden again.
    method MakeVisible(flags: nat, address: nat, bytes: nat) returns (status: Status, ghost undone: nat)
      requires Safe()
      modifies this
      ensures Safe() && old(history) <= history
      ensures status.InvalidParameter? <==> Refused(flags, address, bytes) || (bytes == 0 && !status.OutOfResources?)
      ensures faults >= old(faults) && (!status.Success? && !status.InvalidParameter? ==> faults > old(faults))
      ensures status.Success? <==> !Refused(flags, address, bytes) && bytes > 0 && faults == old(faults)
      ensures status.Success? ==>
        && objects == old(objects) + [Protection(address / 4096, bytes / 4096)]
        && forall p: nat :: visible(p) == (old(visible)(p) || InRun(address / 4096, bytes / 4096, p))
      ensures !status.Success? && !status.Halted? ==>
        && objects == old(objects) && undone <= bytes / 4096
        && forall p: nat :: visible(p) == (old(visible)(p) && !InRun(address / 4096, undone, p))
      ensures old(Exact()) && Clear(old(objects), address / 4096, bytes / 4096) && !status.Halted? ==> Exact()
    {
      undone := 0;
      if isolation.NotIsolated? || address % 4096 != 0 || bytes % 4096 != 0 || flags % 2 == 0 || flags / 4 != 0 {
        status := InvalidParameter;
        return;
      }
      if (isolation.Snp? || isolation.Tdx?) && flags % 4 == READABLE { status := InvalidParameter; return; }
      var memory: bool := *;
      if !memory {
        status, faults := OutOfResources, faults + 1;
        return;
      }
      var tracked := Protection(address / 4096, bytes / 4096);
      var processed;
      status, processed := Modify(true, tracked.count, tracked.base);
      if status.Halted? { return; }
      if status.Success? {
        objects := objects + [tracked];
        AddedAt(old(objects), tracked);
      } else if processed != 0 {
        undone := processed;
        var revert;
        revert, processed := Modify(false, processed, tracked.base);
        if !revert.Success? { status := Halted; }
      }
    }

    // EfiHvMakeAddressRangeNotHostVisible. The handle is the place of the object
    // in the list; None is a null handle.
    method MakeNotVisible(handle: Option<nat>) returns (status: Status)
      requires Safe() && (handle.Some? ==> handle.value < |objects|)
      modifies this
      ensures Safe() && old(history) <= history && (status.Success? || status.Halted?)
      ensures faults >= old(faults)
      ensures status.Success? <==> handle.Some? && old(objects)[handle.value].count > 0 && faults == old(faults)
      ensures status.Success? ==>
        var o := old(objects)[handle.value];
        && objects == Dropped(old(objects), handle.value)
        && forall p: nat :: visible(p) == (old(visible)(p) && !InRun(o.base, o.count, p))
      ensures old(Exact()) && status.Success? ==> Exact()
    {
      if handle.None? { return Halted; }
      var o := objects[handle.value];
      objects := Dropped(objects, handle.value);
      var modified, _ := Modify(false, o.count, o.base);
      if !modified.Success? { return Halted; }
      status := Success;
      if old(Exact()) {
        DropExactly(old(objects), handle.value);
      }
    }

    // The visibility teardown of EfiHvDisconnectFromHypervisor.
    method Teardown() returns (status: Status)
      requires Safe()
      modifies this
      ensures Safe() && old(history) <= history && (status.Success? || status.Halted?)
      ensures faults >= old(faults)
      ensures status.Success? <==> faults == old(faults) && forall o :: o in old(objects) ==> o.count > 0
      ensures status.Success? ==>
        objects == [] && forall p: nat :: visible(p) == (old(visible)(p) && !InObjects(old(objects), p))
    {
      ghost var gone := 0;
      while objects != []
        invariant Safe() && old(history) <= history && gone <= |old(objects)| && objects == old(objects)[gone..]
        invariant faults == old(faults) && forall o :: o in old(objects)[..gone] ==> o.count > 0
        invariant forall p: nat :: visible(p) == (old(visible)(p) && !InObjects(old(objects)[..gone], p))
        decreases |objects|
      {
        ghost var o := objects[0];
        status := MakeNotVisible(Some(0));
        if status.Halted? { return; }
        assert old(objects)[..gone + 1] == old(objects)[..gone] + [o];
        AddedAt(old(objects)[..gone], o);
        gone := gone + 1;
      }
      assert old(objects)[..gone] == old(objects);
      status := Success;
    }
  }

  datatype Request = Show(flags: nat, address: nat, bytes: nat) | Hide(place: nat)

  // A connection: any run of requests and the teardown. A run ends early when a
  // request hides an object that is not there. disjoint says that no request
  // showed a page of an object tracked at the time. The log starts with the first
  // state, ends with the last and changes one page at a time, so that on a guarded
  // platform no page is accepted and visible at any moment of the run.
  method Session(isolation: Isolation, paravisor: bool, svsm: bool, takes: bool, requests: seq<Request>,
                 ghost accepted: nat -> bool)
    returns (ledger: Ledger, halted: bool, ghost disjoint: bool)
    ensures ledger.isolation == isolation && ledger.paravisor == paravisor
    ensures ledger.svsm == svsm && ledger.takes == takes && ledger.Safe()
    ensures Log(ledger.history, Snapshot(ledger.accepted, ledger.visible))
    ensures ledger.history[0].accepted == accepted && forall p: nat :: !ledger.history[0].visible(p)
    ensures ledger.Guarded() ==> forall i :: 0 <= i < |ledger.history| ==> Apart(ledger.history[i])
    ensures halted ==> ledger.faults > 0
    ensures !halted && disjoint ==> ledger.objects == [] && forall p: nat :: !ledger.visible(p)
  {
    ledger := new Ledger(isolation, paravisor, svsm, takes, accepted);
    halted, disjoint := false, true;
    ghost var first := ledger.history;
    for i := 0 to |requests|
      invariant fresh(ledger) && ledger.Safe() && ledger.isolation == isolation && ledger.paravisor == paravisor
      invariant ledger.svsm == svsm && ledger.takes == takes && first <= ledger.history
      invariant (disjoint ==> ledger.Exact()) && forall o :: o in ledger.objects ==> o.count > 0
    {
      var status;
      match requests[i] {
        case Show(flags, address, bytes) =>
          disjoint := disjoint && Clear(ledger.objects, address / 4096, bytes / 4096);
          ghost var undone;
          status, undone := ledger.MakeVisible(flags, address, bytes);
        case Hide(place) =>
          if place >= |ledger.objects| { break; }
          status := ledger.MakeNotVisible(Some(place));
      }
      halted := status.Halted?;
      if halted { return; }
    }
    var status := ledger.Teardown();
    halted := status.Halted?;
  }

  // A TDX platform whose hypervisor leaves private mappings alone, or an SNP
  // platform with an SVSM: page 1, accepted and shown, is accepted and visible.
  method BothAtOnce(isolation: Isolation) returns (ledger: Ledger, status: Status)
    requires isolation.Tdx? || isolation.Snp?
    ensures status.Success? ==> ledger.accepted(1) && ledger.visible(1)
  {
    ledger := new Ledger(isolation, false, true, false, p => true);
    var processed;
    status, processed := ledger.Modify(true, 1, 1);
    assert InRun(1, 1, 1);
  }

  lemma AddedAt(list: seq<Protection>, o: Protection)
    ensures forall p: nat :: InObjects(list + [o], p) <==> InObjects(list, p) || InRun(o.base, o.count, p)
  {
    forall p: nat ensures InObjects(list + [o], p) <==> InObjects(list, p) || InRun(o.base, o.count, p) {
      if i :| 0 <= i < |list| && InRun(list[i].base, list[i].count, p) {
        assert (list + [o])[i] == list[i];
      }
      assert (list + [o])[|list|] == o;
    }
  }
}
