// What rewriting one leaf entry and splitting one leaf entry do to the
// translation of every page.
module PageTableEdit {
  import opened Common
  import opened PageTables

  // ---- Attributes ----

  datatype Attr = RP | RO | XP

  datatype Action = Assign | Set | Clear

  // GetAttributesFromPageEntry.
  function EntryAttributes(present: bool, writable: bool, nx: bool): set<Attr> {
    (if present then {} else {RP}) + (if writable then {} else {RO}) + (if nx then {XP} else {})
  }

  function Attributes(m: Mapping): set<Attr> {
    EntryAttributes(m.present, m.writable, m.nx)
  }

  // A request to edit attributes, on a platform that has execute-disable active
  // (xd) or an encryption bit that splits set (sev).
  datatype Job = Job(attrs: set<Attr>, action: Action, xd: bool, sev: bool)

  // What a job makes of a page's attributes; XP is out of reach unless
  // execute-disable is active.
  function Edited(old_: set<Attr>, job: Job): set<Attr> {
    var scope := if job.xd then {RP, RO, XP} else {RP, RO};
    match job.action
    case Assign => job.attrs * scope + (old_ - scope)
    case Set => old_ + job.attrs * scope
    case Clear => old_ - job.attrs * scope
  }

  // Whether a page that had an attribute or not has it afterwards.
  function Has(job: Job, x: Attr, had: bool): bool {
    if x == XP && !job.xd then had
    else match job.action
      case Assign => x in job.attrs
      case Set => had || x in job.attrs
      case Clear => had && x !in job.attrs
  }

  function EditMapping(m: Mapping, job: Job): Mapping {
    m.(present := !Has(job, RP, !m.present), writable := !Has(job, RO, !m.writable), nx := Has(job, XP, m.nx))
  }

  // ConvertPageEntryAttribute.
  function ConvertEntry(e: Entry, job: Job): Entry {
    var present :=
      if RP in job.attrs then (match job.action case Assign => false case Set => false case Clear => true)
      else (match job.action case Assign => true case Set => e.present case Clear => e.present);
    var writable :=
      if RO in job.attrs then (match job.action case Assign => false case Set => false case Clear => true)
      else (match job.action case Assign => true case Set => e.writable case Clear => e.writable);
    var nx :=
      if !job.xd then e.nx
      else if XP in job.attrs then (match job.action case Assign => true case Set => true case Clear => false)
      else (match job.action case Assign => false case Set => e.nx case Clear => e.nx);
    e.(present := present, writable := writable, nx := nx)
  }

  // Editing a mapping is the set operation on its attributes.
  lemma EditMeans(m: Mapping, job: Job)
    ensures Attributes(EditMapping(m, job)) == Edited(Attributes(m), job)
  {
    forall x ensures x in Attributes(EditMapping(m, job)) <==> x in Edited(Attributes(m), job) {
      match x case RP => case RO => case XP =>
    }
  }

  // The switch statements compute it.
  lemma ConvertEntryMeans(level: nat, e: Entry, v: nat, job: Job)
    ensures LeafMapping(level, ConvertEntry(e, job), v) == EditMapping(LeafMapping(level, e, v), job)
  {
  }

  // ---- Entries that become zero ----

  // An entry that maps physical page 0 and has no bit beside P, RW and NX.
  predicate Bare(e: Entry) {
    e.frame == 0 && !e.user && !e.accessed && !e.dirty && !e.large && !e.enc && e.rest == 0
  }

  // The job leaves P, RW and NX of the entry clear.
  predicate Clears(e: Entry, job: Job) {
    && (if RP in job.attrs then job.action != Clear else job.action != Assign && !e.present)
    && (if RO in job.attrs then job.action != Clear else job.action != Assign && !e.writable)
    && (if !job.xd then !e.nx
        else if XP in job.attrs then job.action == Clear
        else job.action == Assign || !e.nx)
  }

  // A 4 KiB page other than the first loses its mapping when its entry becomes zero.
  predicate ConvertDrops(level: nat, e: Entry, v: nat, job: Job) {
    level == 1 && v != 0 && Bare(e) && Clears(e, job)
  }

  lemma ConvertDropsExactly(level: nat, e: Entry, v: nat, job: Job)
    requires 1 <= level <= 3 && !IsLink(level, e) && !Empty(level, e, v)
    ensures !IsLink(level, ConvertEntry(e, job))
    ensures Empty(level, ConvertEntry(e, job), v) <==> ConvertDrops(level, e, v, job)
  {
  }

  // A 2 MiB entry that maps physical page 0 and has no bit that a split hands on.
  predicate Faint(e: Entry) {
    && e.frame < 512
    && !e.present && !e.writable && !e.nx && !e.user && !e.accessed && !e.dirty && !e.enc
  }

  // So does the first page of such a leaf, when the leaf is split on a platform
  // without an encryption bit.
  predicate SplitDrops(level: nat, e: Entry, v: nat, sev: bool) {
    level == 2 && v != 0 && v % 512 == 0 && Faint(e) && !sev
  }

  // ---- Locality ----

  ghost predicate Extends(at: Layout, at': Layout) {
    forall f :: f in at ==> f in at' && at'[f] == at[f]
  }

  // Table f has the same entry for page v in both memories.
  ghost predicate SameEntry(mem: Memory, at: Layout, mem': Memory, f: Frame, v: nat) {
    && f in at && f in mem && f in mem' && |mem[f]| == |mem'[f]| == 512
    && mem'[f][Index(at[f].level, v)] == mem[f][Index(at[f].level, v)]
  }

  // A page none of whose entries changed keeps its translation.
  lemma {:induction false} Agree(mem: Memory, at: Layout, mem': Memory, at': Layout, f: Frame, level: nat, v: nat)
    requires Walking(mem, at, f, v) && at[f].level == level
    requires Tree(mem', at') && Extends(at, at')
    requires forall g :: g in at && In(at[g], v) ==> SameEntry(mem, at, mem', g, v)
    ensures Walking(mem', at', f, v)
    ensures Translate(mem', at', f, level, v) == Translate(mem, at, f, level, v)
    ensures Lookup(mem', at', f, level, v) == Lookup(mem, at, f, level, v)
    decreases level
  {
    Step(mem, at, f, v);
    assert SameEntry(mem, at, mem', f, v);
    Step(mem', at', f, v);
    var e := mem[f][Index(level, v)];
    if IsLink(level, e) { Agree(mem, at, mem', at', e.frame, level - 1, v); }
  }

  // The leaf's part of a mapping under the path of another.
  function Rebase(path: Mapping, leaf: Mapping): Mapping {
    leaf.(pathPresent := path.pathPresent, pathWritable := path.pathWritable, pathNx := path.pathNx)
  }

  ghost predicate Neutral(m: Mapping) {
    m.pathPresent && m.pathWritable && !m.pathNx
  }

  // A mapped page has the flags of its leaf.
  lemma {:induction false} LeafOf(mem: Memory, at: Layout, f: Frame, level: nat, v: nat)
    requires Walking(mem, at, f, v) && at[f].level == level
    ensures Lookup(mem, at, f, level, v).Some? <==> Translate(mem, at, f, level, v).Some?
    ensures Lookup(mem, at, f, level, v).Some? ==>
      var leaf, was := Lookup(mem, at, f, level, v).value, Translate(mem, at, f, level, v).value;
      && leaf.table in mem && leaf.index < |mem[leaf.table]|
      && was == Rebase(was, LeafMapping(leaf.level, mem[leaf.table][leaf.index], v))
    decreases level
  {
    Step(mem, at, f, v);
    var e := mem[f][Index(level, v)];
    if IsLink(level, e) { LeafOf(mem, at, e.frame, level - 1, v); }
  }

  function Rebased(path: Mapping, leaf: Option<Mapping>): Option<Mapping> {
    match leaf case None => None case Some(m) => Some(Rebase(path, m))
  }

  // A page whose leaf was replaced is translated by what replaced it, if anything.
  lemma {:induction false} Replaced(mem: Memory, at: Layout, mem': Memory, at': Layout, f: Frame, level: nat, v: nat,
                                    leaf: Leaf, now: Option<Mapping>)
    requires Walking(mem, at, f, v) && at[f].level == level
    requires Lookup(mem, at, f, level, v) == Some(leaf)
    requires Tree(mem', at') && Extends(at, at')
    requires forall g :: g in at && In(at[g], v) && at[g].level > leaf.level ==> SameEntry(mem, at, mem', g, v)
    requires leaf.table in at && at[leaf.table].level == leaf.level && In(at[leaf.table], v)
    requires Translate(mem', at', leaf.table, leaf.level, v) == now && (now.Some? ==> Neutral(now.value))
    ensures Walking(mem', at', f, v) && Translate(mem, at, f, level, v).Some?
    ensures Lookup(mem', at', f, level, v) == Lookup(mem', at', leaf.table, leaf.level, v)
    ensures Translate(mem', at', f, level, v) == Rebased(Translate(mem, at, f, level, v).value, now)
    decreases level
  {
    Step(mem, at, f, v);
    var e := mem[f][Index(level, v)];
    if IsLink(level, e) {
      LookupCovers(mem, at, e.frame, level - 1, v);
      Replaced(mem, at, mem', at', e.frame, level - 1, v, leaf, now);
      SameLink(mem, at, mem', at', f, level, v);
      UnderRebase(e, Translate(mem, at, e.frame, level - 1, v).value, now);
    }
  }

  lemma SameLink(mem: Memory, at: Layout, mem': Memory, at': Layout, f: Frame, level: nat, v: nat)
    requires Walking(mem, at, f, v) && at[f].level == level
    requires Tree(mem', at') && Extends(at, at') && SameEntry(mem, at, mem', f, v)
    requires IsLink(level, mem[f][Index(level, v)])
    ensures var e := mem[f][Index(level, v)];
      && Walking(mem', at', f, v) && Walking(mem', at', e.frame, v)
      && e.frame in at && at'[e.frame].level == at[e.frame].level == level - 1
      && Lookup(mem', at', f, level, v) == Lookup(mem', at', e.frame, level - 1, v)
      && Translate(mem', at', f, level, v) == Under(e, Translate(mem', at', e.frame, level - 1, v))
  {
    Step(mem, at, f, v);
    Step(mem', at', f, v);
  }

  lemma UnderRebase(e: Entry, was: Mapping, now: Option<Mapping>)
    requires now.Some? ==> Neutral(now.value)
    ensures Under(e, Rebased(was, now)) == Rebased(Under(e, Some(was)).value, now)
  {
  }

  // ---- Rewriting a leaf ----

  function WriteEntry(mem: Memory, f: Frame, i: nat, e: Entry): Memory
    requires f in mem && i < |mem[f]|
  {
    mem[f := mem[f][i := e]]
  }

  lemma WriteKeepsTree(mem: Memory, at: Layout, f: Frame, i: nat, e: Entry)
    requires Tree(mem, at) && f in at && i < 512
    requires !IsLink(at[f].level, e)
    ensures TableOk(mem, at, f) && Tree(WriteEntry(mem, f, i, e), at)
  {
    assert TableOk(mem, at, f);
    var mem' := WriteEntry(mem, f, i, e);
    forall g | g in at ensures TableOk(mem', at, g) {
      assert TableOk(mem, at, g);
      forall j | 0 <= j < 512 ensures EntryOk(mem', at, g, j) {
        assert EntryOk(mem, at, g, j);
      }
    }
  }

  // Pages outside the entry's block do not see the write.
  lemma WriteOutside(mem: Memory, at: Layout, f: Frame, i: nat, e: Entry, root: Frame, level: nat, v: nat)
    requires Walking(mem, at, root, v) && at[root].level == level
    requires f in at && i < 512 && !IsLink(at[f].level, e)
    requires TableOk(mem, at, f) && Block(at[f].level, v) != 512 * at[f].block + i
    ensures var mem' := WriteEntry(mem, f, i, e);
      && Walking(mem', at, root, v)
      && Translate(mem', at, root, level, v) == Translate(mem, at, root, level, v)
      && Lookup(mem', at, root, level, v) == Lookup(mem, at, root, level, v)
  {
    var mem' := WriteEntry(mem, f, i, e);
    WriteKeepsTree(mem, at, f, i, e);
    forall g | g in at && In(at[g], v) ensures SameEntry(mem, at, mem', g, v) {
      Step(mem, at, g, v);
    }
    Agree(mem, at, mem', at, root, level, v);
  }

  // Pages inside it are translated by the new entry, or not at all if it is empty.
  lemma WriteInside(mem: Memory, at: Layout, e: Entry, root: Frame, level: nat, v: nat)
    requires Walking(mem, at, root, v) && at[root].level == level
    requires Lookup(mem, at, root, level, v).Some?
    requires !IsLink(Lookup(mem, at, root, level, v).value.level, e)
    ensures var leaf := Lookup(mem, at, root, level, v).value;
      && leaf.table in at && TableOk(mem, at, leaf.table) && leaf.index < 512
      && var mem', gone := WriteEntry(mem, leaf.table, leaf.index, e), Empty(leaf.level, e, v);
      && Walking(mem', at, root, v)
      && Lookup(mem', at, root, level, v) == (if gone then None else Some(leaf))
      && Translate(mem, at, root, level, v).Some?
      && Translate(mem', at, root, level, v) ==
         Rebased(Translate(mem, at, root, level, v).value, if gone then None else Some(LeafMapping(leaf.level, e, v)))
  {
    LookupCovers(mem, at, root, level, v);
    var leaf := Lookup(mem, at, root, level, v).value;
    WriteKeepsTree(mem, at, leaf.table, leaf.index, e);
    var mem' := WriteEntry(mem, leaf.table, leaf.index, e);
    forall g | g in at && In(at[g], v) && at[g].level > leaf.level ensures SameEntry(mem, at, mem', g, v) {
      Step(mem, at, g, v);
    }
    Step(mem', at, leaf.table, v);
    Replaced(mem, at, mem', at, root, level, v, leaf, Translate(mem', at, leaf.table, leaf.level, v));
  }

  // ---- Splitting a leaf ----

  // Entry i of the table that replaces a 2 MiB or 1 GiB leaf. sev: the platform
  // has an encryption bit, which the source sets in every new entry.
  function SplitChild(level: nat, e: Entry, i: nat, sev: bool): Entry {
    var frame := if level == 2 then e.frame / 512 * 512 + i else e.frame / 0x4_0000 * 0x4_0000 + 512 * i;
    Entry(frame, e.present, e.writable, e.nx, e.user, e.accessed, e.dirty, level != 2, sev || e.enc, 0)
  }

  function SplitLink(f: Frame, sev: bool): Entry {
    Entry(f, true, true, false, false, false, false, false, sev, 0)
  }

  function SplitMemory(mem: Memory, f: Frame, i: nat, level: nat, spare: Frame, sev: bool): Memory
    requires f in mem && i < |mem[f]|
  {
    var e := mem[f][i];
    mem[spare := seq(512, j requires 0 <= j < 512 => SplitChild(level, e, j, sev))]
       [f := mem[f][i := SplitLink(spare, sev)]]
  }

  function SplitLayout(at: Layout, f: Frame, i: nat, spare: Frame): Layout
    requires f in at && at[f].level >= 1
  {
    at[spare := Place(at[f].level - 1, 512 * at[f].block + i)]
  }

  lemma SplitKeepsTree(mem: Memory, at: Layout, f: Frame, i: nat, spare: Frame, sev: bool)
    requires Tree(mem, at) && f in at && i < 512 && spare !in at && (at[f].level == 2 || at[f].level == 3)
    ensures TableOk(mem, at, f)
    ensures Tree(SplitMemory(mem, f, i, at[f].level, spare, sev), SplitLayout(at, f, i, spare))
    ensures Extends(at, SplitLayout(at, f, i, spare))
  {
    assert TableOk(mem, at, f);
    var mem', at' := SplitMemory(mem, f, i, at[f].level, spare, sev), SplitLayout(at, f, i, spare);
    forall g | g in at' ensures TableOk(mem', at', g) {
      if g != spare { assert TableOk(mem, at, g); }
      forall j | 0 <= j < 512 ensures EntryOk(mem', at', g, j) {
        if g != spare { assert EntryOk(mem, at, g, j); }
      }
    }
  }

  lemma SplitOutside(mem: Memory, at: Layout, f: Frame, i: nat, spare: Frame, sev: bool, root: Frame, level: nat,
                     v: nat)
    requires Walking(mem, at, root, v) && at[root].level == level
    requires f in at && i < 512 && spare !in at && (at[f].level == 2 || at[f].level == 3)
    requires TableOk(mem, at, f) && Block(at[f].level, v) != 512 * at[f].block + i
    ensures var mem', at' := SplitMemory(mem, f, i, at[f].level, spare, sev), SplitLayout(at, f, i, spare);
      && Walking(mem', at', root, v)
      && Translate(mem', at', root, level, v) == Translate(mem, at, root, level, v)
      && Lookup(mem', at', root, level, v) == Lookup(mem, at, root, level, v)
  {
    var mem', at' := SplitMemory(mem, f, i, at[f].level, spare, sev), SplitLayout(at, f, i, spare);
    SplitKeepsTree(mem, at, f, i, spare, sev);
    forall g | g in at && In(at[g], v) ensures SameEntry(mem, at, mem', g, v) {
      Step(mem, at, g, v);
    }
    Agree(mem, at, mem', at', root, level, v);
  }

  // The same mapping, but that splitting sets the encryption bit.
  ghost predicate Kept(sev: bool, was: Mapping, now: Mapping) {
    now == was || (sev && now == was.(enc := true))
  }

  // Entry j of the new table covers block j of the leaf's block.
  lemma ChildBlock(level: nat, frame: Frame, j: nat)
    requires (level == 2 || level == 3) && j < 512
    ensures var child := if level == 2 then frame / 512 * 512 + j else frame / 0x4_0000 * 0x4_0000 + 512 * j;
      Block(level - 1, child) == 512 * Block(level, frame) + j
  {
    assert Block(2, frame) == frame / 512;
    if level == 3 {
      var child := frame / 0x4_0000 * 0x4_0000 + 512 * j;
      assert Block(2, child) == child / 512;
      assert Block(3, frame) == frame / 512 / 512 == frame / 0x4_0000;
    }
  }

  // The new entry for page v maps v as the old one did, unless it is zero.
  lemma ChildMapping(level: nat, e: Entry, v: nat, sev: bool)
    requires level == 2 || level == 3
    ensures var child := SplitChild(level, e, Index(level - 1, v), sev);
      && LeafMapping(level - 1, child, v) == LeafMapping(level, e, v).(enc := sev || e.enc)
      && !IsLink(level - 1, child)
  {
    var j := Index(level - 1, v);
    ChildBlock(level, e.frame, j);
    var child := SplitChild(level, e, j, sev);
    assert LeafPage(level, e.frame, v) == Compose(level - 1, 512 * Block(level, e.frame) + j, v);
    assert LeafPage(level - 1, child.frame, v) == LeafPage(level, e.frame, v);
  }

  lemma ChildDrops(level: nat, e: Entry, v: nat, sev: bool)
    requires level == 2 || level == 3
    ensures Empty(level - 1, SplitChild(level, e, Index(level - 1, v), sev), v) <==> SplitDrops(level, e, v, sev)
  {
    if level == 2 { assert Index(1, v) == v % 512; }
  }

  // What splitting gives a page that was mapped as m by entry e.
  function SplitResult(level: nat, e: Entry, v: nat, sev: bool, m: Mapping): Option<Mapping> {
    if SplitDrops(level, e, v, sev) then None else Some(m.(enc := sev || m.enc))
  }

  lemma SplitInside(mem: Memory, at: Layout, leaf: Leaf, spare: Frame, sev: bool, root: Frame, level: nat, v: nat)
    requires Walking(mem, at, root, v) && at[root].level == level && spare !in at
    requires Lookup(mem, at, root, level, v) == Some(leaf) && leaf.level > 1
    requires Translate(mem, at, root, level, v).Some?
    ensures leaf.table in at && TableOk(mem, at, leaf.table) && leaf.index < 512
    ensures var mem', at' := SplitMemory(mem, leaf.table, leaf.index, leaf.level, spare, sev),
                             SplitLayout(at, leaf.table, leaf.index, spare);
      && Walking(mem', at', root, v)
      && Lookup(mem', at', root, level, v) ==
         (if SplitDrops(leaf.level, mem[leaf.table][leaf.index], v, sev) then None
          else Some(Leaf(spare, Index(leaf.level - 1, v), leaf.level - 1)))
      && Translate(mem', at', root, level, v) ==
         SplitResult(leaf.level, mem[leaf.table][leaf.index], v, sev, Translate(mem, at, root, level, v).value)
  {
    LookupCovers(mem, at, root, level, v);
    LeafOf(mem, at, root, level, v);
    var e := mem[leaf.table][leaf.index];
    SplitReplaced(mem, at, leaf, spare, sev, root, level, v, LeafMapping(leaf.level, e, v));
    SplitRebase(leaf.level, e, v, sev, Translate(mem, at, root, level, v).value, LeafMapping(leaf.level, e, v));
  }

  lemma SplitRebase(level: nat, e: Entry, v: nat, sev: bool, was: Mapping, m: Mapping)
    requires was == Rebase(was, m)
    ensures Rebased(was, SplitResult(level, e, v, sev, m)) == SplitResult(level, e, v, sev, was)
  {
  }

  lemma SplitReplaced(mem: Memory, at: Layout, leaf: Leaf, spare: Frame, sev: bool, root: Frame, level: nat, v: nat,
                      m: Mapping)
    requires Walking(mem, at, root, v) && at[root].level == level && spare !in at
    requires Lookup(mem, at, root, level, v) == Some(leaf) && (leaf.level == 2 || leaf.level == 3)
    requires leaf.table in at && TableOk(mem, at, leaf.table) && leaf.level == at[leaf.table].level
    requires leaf.index == Index(leaf.level, v) && In(at[leaf.table], v)
    requires m == LeafMapping(leaf.level, mem[leaf.table][leaf.index], v)
    ensures var mem', at' := SplitMemory(mem, leaf.table, leaf.index, leaf.level, spare, sev),
                             SplitLayout(at, leaf.table, leaf.index, spare);
      && Walking(mem', at', root, v) && Translate(mem, at, root, level, v).Some?
      && Lookup(mem', at', root, level, v) ==
         (if SplitDrops(leaf.level, mem[leaf.table][leaf.index], v, sev) then None
          else Some(Leaf(spare, Index(leaf.level - 1, v), leaf.level - 1)))
      && Translate(mem', at', root, level, v) ==
         Rebased(Translate(mem, at, root, level, v).value,
                 SplitResult(leaf.level, mem[leaf.table][leaf.index], v, sev, m))
  {
    var mem', at' := SplitMemory(mem, leaf.table, leaf.index, leaf.level, spare, sev),
                     SplitLayout(at, leaf.table, leaf.index, spare);
    SplitKeepsTree(mem, at, leaf.table, leaf.index, spare, sev);
    SplitChildWalk(mem, at, leaf, spare, sev, v, m);
    SplitAbove(mem, at, leaf, spare, sev, v);
    Replaced(mem, at, mem', at', root, level, v, leaf,
             SplitResult(leaf.level, mem[leaf.table][leaf.index], v, sev, m));
  }

  // Tables above the split entry are unchanged.
  lemma SplitAbove(mem: Memory, at: Layout, leaf: Leaf, spare: Frame, sev: bool, v: nat)
    requires Tree(mem, at) && leaf.table in at && TableOk(mem, at, leaf.table) && leaf.index < 512 && spare !in at
    requires leaf.level == at[leaf.table].level
    ensures var mem' := SplitMemory(mem, leaf.table, leaf.index, leaf.level, spare, sev);
      forall g :: g in at && In(at[g], v) && at[g].level > leaf.level ==> SameEntry(mem, at, mem', g, v)
  {
    var mem' := SplitMemory(mem, leaf.table, leaf.index, leaf.level, spare, sev);
    forall g | g in at && In(at[g], v) && at[g].level > leaf.level ensures SameEntry(mem, at, mem', g, v) {
      Step(mem, at, g, v);
    }
  }

  // From the split entry on, the walk of v goes through the new table.
  lemma SplitChildWalk(mem: Memory, at: Layout, leaf: Leaf, spare: Frame, sev: bool, v: nat, m: Mapping)
    requires leaf.table in at && leaf.table in mem && |mem[leaf.table]| == 512 && spare != leaf.table
    requires leaf.level == at[leaf.table].level && (leaf.level == 2 || leaf.level == 3)
    requires leaf.index == Index(leaf.level, v)
    requires Walking(SplitMemory(mem, leaf.table, leaf.index, leaf.level, spare, sev),
                     SplitLayout(at, leaf.table, leaf.index, spare), leaf.table, v)
    requires m == LeafMapping(leaf.level, mem[leaf.table][leaf.index], v)
    ensures var e, mem', at' := mem[leaf.table][leaf.index],
          SplitMemory(mem, leaf.table, leaf.index, leaf.level, spare, sev),
          SplitLayout(at, leaf.table, leaf.index, spare);
      && Lookup(mem', at', leaf.table, leaf.level, v) ==
         (if SplitDrops(leaf.level, e, v, sev) then None
          else Some(Leaf(spare, Index(leaf.level - 1, v), leaf.level - 1)))
      && Translate(mem', at', leaf.table, leaf.level, v) == SplitResult(leaf.level, e, v, sev, m)
  {
    var e, mem', at' := mem[leaf.table][leaf.index],
      SplitMemory(mem, leaf.table, leaf.index, leaf.level, spare, sev), SplitLayout(at, leaf.table, leaf.index, spare);
    var j := Index(leaf.level - 1, v);
    var child, m' := SplitChild(leaf.level, e, j, sev), m.(enc := sev || m.enc);
    ChildMapping(leaf.level, e, v, sev);
    ChildDrops(leaf.level, e, v, sev);
    SplitTables(mem, at, leaf.table, leaf.index, spare, sev, j);
    TwoSteps(mem', at', leaf.table, SplitLink(spare, sev), child, v, m');
  }

  lemma SplitTables(mem: Memory, at: Layout, f: Frame, i: nat, spare: Frame, sev: bool, j: nat)
    requires f in mem && |mem[f]| == 512 && i < 512 && j < 512 && f in at && spare != f && at[f].level >= 1
    ensures var mem' := SplitMemory(mem, f, i, at[f].level, spare, sev);
      && f in mem' && |mem'[f]| == 512 && mem'[f][i] == SplitLink(spare, sev)
      && spare in mem' && |mem'[spare]| == 512 && mem'[spare][j] == SplitChild(at[f].level, mem[f][i], j, sev)
    ensures SplitLayout(at, f, i, spare).Keys == at.Keys + {spare} && SplitLayout(at, f, i, spare)[f] == at[f]
  {
  }

  // A walk through one link to a leaf or an empty entry.
  lemma TwoSteps(mem: Memory, at: Layout, f: Frame, link: Entry, e: Entry, v: nat, m: Mapping)
    requires Walking(mem, at, f, v) && f in mem && at[f].level > 1 && |mem[f]| == 512
    requires var level := at[f].level;
      && mem[f][Index(level, v)] == link && IsLink(level, link) && !Empty(level, link, v)
      && link.frame in mem && |mem[link.frame]| == 512 && mem[link.frame][Index(level - 1, v)] == e
      && !IsLink(level - 1, e) && LeafMapping(level - 1, e, v) == m
    ensures var level := at[f].level;
      && Lookup(mem, at, f, level, v) ==
         (if Empty(level - 1, e, v) then None else Some(Leaf(link.frame, Index(level - 1, v), level - 1)))
      && Translate(mem, at, f, level, v) == if Empty(level - 1, e, v) then None else Under(link, Some(m))
  {
    Step(mem, at, f, v);
    Step(mem, at, link.frame, v);
  }
}
