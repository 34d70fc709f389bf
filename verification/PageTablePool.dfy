// The pool that page-table pages are taken from (CpuPageTable.c): 2 MiB-aligned
// buffers of 512 pages whose first page is a header.
module PageTablePool {
  import opened Common
  import opened PageTables

  const UNIT: nat := 512 // PAGE_TABLE_POOL_UNIT_PAGES

  // The buffer that a page of some buffer belongs to.
  function Home(f: Frame): Frame { f - f % UNIT }

  // Page k of the buffer at base is not a table of the tree.
  ghost predicate Unused(at: Layout, base: Frame, k: nat) { base + k !in at }

  class Pool {
    var base: Frame     // mPageTablePool
    var offset: nat     // in pages
    var freePages: nat
    var lock: bool      // mPageTablePoolLock
    ghost var buffers: set<Frame>
    ghost var handed: set<Frame> // every page handed out so far

    // Pages handed out lie in some buffer and are no header; what is left of the
    // current buffer has not been handed out.
    ghost predicate Valid()
      reads this
    {
      && (if buffers == {} then freePages == 0 else base in buffers && 0 < offset && offset + freePages == UNIT)
      && (forall b :: b in buffers ==> b % UNIT == 0)
      && (forall f :: f in handed ==> HandedOk(f))
    }

    ghost predicate HandedOk(f: Frame)
      reads this
    {
      Home(f) in buffers && f % UNIT != 0 && (Home(f) == base ==> f < base + offset)
    }

    // The pages left are not in use.
    ghost predicate Outside(at: Layout)
      reads this
    {
      forall k :: offset <= k < offset + freePages ==> Unused(at, base, k)
    }

    constructor ()
      ensures Valid() && freePages == 0 && handed == {} && buffers == {} && !lock
    {
      base, offset, freePages, lock, buffers, handed := 0, 0, 0, false, {}, {};
    }

    // AllocatePageTableMemory (1) when the pool is not renewed: while it has a free
    // page, or while a renewal is under way.
    method Take() returns (r: Option<Frame>)
      requires Valid()
      modifies this`offset, this`freePages, this`handed
      ensures Valid()
      ensures old(freePages) == 0 ==> r == None && unchanged(this)
      ensures old(freePages) > 0 ==>
        && r == Some(base + old(offset)) && r.value !in old(handed) && handed == old(handed) + {r.value}
        && offset == old(offset) + 1 && freePages == old(freePages) - 1
    {
      if freePages == 0 { return None; }
      var page := base + offset;
      assert Home(page) == base;
      offset, freePages, handed := offset + 1, freePages - 1, handed + {page};
      return Some(page);
    }

    // InitializePageTablePool up to the marking: a new buffer becomes the pool.
    method Add(buffer: Frame)
      requires Valid() && freePages == 0 && buffer % UNIT == 0 && buffer !in buffers
      modifies this
      ensures Valid() && base == buffer && offset == 1 && freePages == UNIT - 1
      ensures buffers == old(buffers) + {buffer} && handed == old(handed) && lock == old(lock)
    {
      base, offset, freePages, buffers := buffer, 1, UNIT - 1, buffers + {buffer};
    }
  }
}
