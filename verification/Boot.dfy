/** The boot-time half of kern/pmap.c: `boot_alloc`, the mappings of `boot_mem_init` and
    their check, in place. */
module Boot {
  import opened Options
  import opened Mmu
  import opened Queue
  import opened PageState
  import opened BootState
  import opened Pmap
  import Memory

  /** The first page that `page_init` finds unused: behind the kernel image, the directory and
      its tables, and the `struct Page` array. */
  function FirstFree(end: Word, npages: nat): nat
    requires end >= KERNBASE
  {
    (RoundUp(RoundUp(end) + 66 * PGSIZE + 12 * npages) - KERNBASE) / PGSIZE
  }

  lemma DoableBounds(t: Task, n: nat)
    requires Doable(t) && n < t.size
    ensures t.perm < PGSIZE && t.first + n < 0x10_0000 && t.page + n < 0x10_0000 && !InWindow(t.first + n)
  {
  }

  lemma NextIs(next: nat, page: nat)
    requires next >= KERNBASE && next % PGSIZE == 0 && page == (next - KERNBASE) / PGSIZE
    ensures next == KERNBASE + page * PGSIZE
  {
  }

  lemma FirstFreeIs(end: Word, npages: nat)
    requires end >= KERNBASE && FirstFree(end, npages) < npages <= MAX_PAGES
    ensures var chunk := KERNBASE + (PageAfter(end) + 66) * PGSIZE;
            && (RoundUp(chunk + 12 * npages) - KERNBASE) / PGSIZE == FirstFree(end, npages)
            && chunk <= chunk + 12 * npages <= RoundUp(chunk + 12 * npages) < 0x1_0000_0000
  {
    hide RoundUp;
    NextIs(RoundUp(end), PageAfter(end));
    NextIs(RoundUp(RoundUp(end) + 66 * PGSIZE + 12 * npages), FirstFree(end, npages));
  }

  /** The directory that the boot code built can be walked, and its first entry is empty. */
  lemma KernelWalkable(s: State, first: nat, next: nat, bootstack: Word, was: Page)
    requires BootInv(s, first, next) && s.free == []
    requires KERNBASE <= bootstack && bootstack % PGSIZE == 0
    requires KernelMapped(s, (bootstack - KERNBASE) / PGSIZE, was)
    ensures Walkable(s) && s.dir < |s.mem| && Pde(s, 0) == 0
    ensures MemoryMapped(s) && StackMapped(s, bootstack) && DirectoryUsed(s)
  {
    KernelIsChecked(s, bootstack, was);
  }

  /** Physical memory, `nextfree` and `kern_pgdir` before there is a free list. `end` is
      the address after the kernel's own image. */
  class BootMemory {
    const mem: array2<Word>
    const end: Word
    var nextfree: Word
    var dir: nat
    ghost var pages: seq<Page>

    ghost predicate Valid()
      reads this, mem
    {
      && Memory.Holds(mem, pages) && |pages| <= MAX_PAGES
      && KERNBASE <= end && (nextfree == 0 || nextfree >= end)
    }

    /** The memory as a state without counts and free pages. */
    ghost function Value(): State
      reads this
    {
      State(dir, {}, pages, [], [])
    }

    /** Where the next chunk starts. */
    ghost function Next(): nat
      reads this
    {
      RoundUp(if nextfree == 0 then end else nextfree)
    }

    constructor (mem: array2<Word>, end: Word, ghost pages: seq<Page>)
      requires Memory.Holds(mem, pages) && |pages| <= MAX_PAGES && KERNBASE <= end
      ensures Valid() && this.mem == mem && this.end == end && this.pages == pages && nextfree == 0 && dir == 0
    {
      this.mem, this.end, this.pages := mem, end, pages;
      nextfree, dir := 0, 0;
    }

    /** `boot_alloc`: nothing checks that the memory is there, and the pointer that is
        kept is rounded up in the next call only. */
    method BootAlloc(n: Word) returns (v: Word)
      requires Valid() && Next() + n < 0x1_0000_0000
      modifies this`nextfree
      ensures Valid() && v == old(Next()) && nextfree == v + n && Next() == RoundUp(v + n)
    {
      if nextfree == 0 {
        nextfree := RoundUp(end);
      }
      nextfree := RoundUp(nextfree);
      v := nextfree;
      nextfree := nextfree + n;
    }

    /** The page that `boot_alloc` gives out next. */
    ghost function NextPage(): nat
      requires Valid()
      reads this, mem
    {
      (Next() - KERNBASE) / PGSIZE
    }

    /** `boot_pgdir_walk`, with `create` as the permissions of a new directory entry. */
    method BootPgdirWalk(la: Word, create: nat, ghost low: nat) returns (pte: Option<EntryPtr>)
      requires Valid() && create < PGSIZE && Pdx(la) != SELF
      requires BootInv(Value(), low, NextPage())
      requires create != 0 && Pde(Value(), Pdx(la)) == 0 ==> NextPage() < |pages| && Next() + PGSIZE < 0x1_0000_0000
      modifies this, mem
      ensures Valid() && dir == old(dir)
      ensures create == 0 ==> Value() == old(Value()) && NextPage() == old(NextPage())
      ensures create == 0 && pte.None? ==> Pde(Value(), Pdx(la)) == 0
      ensures create != 0 ==> pte.Some? && (Value(), NextPage()) == BootWalk(old(Value()), old(NextPage()), Pdx(la), create)
      ensures pte.Some? ==> pte.value == EntryPtr(Table(Value(), Pdx(la)), Ptx(la)) && pte.value.table < |pages|
    {
      var pde := mem[dir, Pdx(la)];
      assert pde == Pde(Value(), Pdx(la));
      if !Present(pde) {
        if create == 0 {
          return None;
        }
        var v := BootAlloc(PGSIZE);
        pages := Memory.StoreWord(mem, pages, dir, Pdx(la), Entry((v - KERNBASE) / PGSIZE, create));
        assert Entry((v - KERNBASE) / PGSIZE, create) == Pde(Value(), Pdx(la));
      }
      return Some(EntryPtr(EntryPage(mem[dir, Pdx(la)]), Ptx(la)));
    }

    /** The body of the loop of `boot_map_segment`. */
    method BootMapPage(la: Word, pa: Word, perm: nat, ghost low: nat, ghost v: nat, ghost page: nat)
      requires Valid() && perm < PGSIZE && la == v * PGSIZE && pa == page * PGSIZE && v / NPTENTRIES != SELF
      requires BootInv(Value(), low, NextPage())
      requires Pde(Value(), v / NPTENTRIES) == 0 ==> NextPage() + 1 < |pages|
      modifies this, mem
      ensures Valid() && (Value(), NextPage()) == BootMap(old(Value()), old(NextPage()), v, page, perm)
    {
      PageIndices(v);
      var pte := BootPgdirWalk(la, WithPresent(perm), low);
      pages := Memory.StoreWord(mem, pages, pte.value.table, pte.value.index, Entry(pa / PGSIZE, perm));
    }

    /** One round of the loop, as progress with the segment. */
    method BootMapNext(la: Word, pa: Word, perm: nat, ghost low: nat, ghost t: Task, ghost n: nat)
      requires Valid() && Progress(t, n, Value(), NextPage(), low) && Doable(t) && n < t.size && perm == t.perm
      requires la == (t.first + n) * PGSIZE && pa == (t.page + n) * PGSIZE
      modifies this, mem
      ensures Valid() && Progress(t, n + 1, Value(), NextPage(), low)
    {
      hide Progress, Missing, Doable, BootInv, BootMap, RoundUp;
      ProgressStep(t, n, Value(), NextPage(), low);
      DoableBounds(t, n);
      BootMapPage(la, pa, perm, low, t.first + n, t.page + n);
    }

    /** `boot_map_segment`. The size need not be a multiple of the page size: the last page
        is mapped whole. */
    method BootMapSegment(la: Word, size: Word, pa: Word, perm: nat, ghost low: nat, ghost t: Task)
      requires Valid() && BootInv(Value(), low, NextPage()) && Doable(t)
      requires t.start == Value() && t.next == NextPage() && t.size == PagesIn(size) && t.perm == perm
      requires la == t.first * PGSIZE && pa == t.page * PGSIZE
      modifies this, mem
      ensures Valid() && BootInv(Value(), low, NextPage()) && dir == old(dir) && |pages| == |old(pages)|
      ensures SegmentMapped(t, t.size, Value(), NextPage())
      ensures NextPage() == old(NextPage()) + Missing(t.start, t.first, t.size)
    {
      hide Progress, BootMap, RoundUp, BootInv, Missing, SegmentMapped, Pdx, Pde, InWindow, Memory.Holds, PagesIn, NextPage, Doable;
      ProgressStart(t, low);
      var i := 0;
      ghost var n := 0;
      while i < size
        invariant i == n * PGSIZE && n <= t.size
        invariant Valid() && Progress(t, n, Value(), NextPage(), low)
      {
        OnePageMore(size, n);
        DoableBounds(t, n);
        BootMapNext(la + i, pa + i, perm, low, t, n);
        i := i + PGSIZE;
        n := n + 1;
      }
      OnePageMore(size, n);
      ProgressDone(t, n, Value(), NextPage(), low);
    }

    /** Allocates and clears `kern_pgdir` and enters it in itself at VPT. */
    method BootDirectory()
      requires Valid() && nextfree == 0 && PageAfter(end) + 1 < |pages|
      modifies this, mem
      ensures Valid() && |pages| == |old(pages)| && dir == PageAfter(end) && NextPage() == PageAfter(end) + 1
      ensures BootInv(Value(), PageAfter(end), NextPage())
      ensures forall d: nat :: d < NPTENTRIES ==> (Pde(Value(), d) != 0 <==> d == SELF)
      ensures EntryFlags(Pde(Value(), SELF)) == PTE_W + PTE_P
      ensures forall u: nat :: u < 0x10_0000 && !InWindow(u) ==> MappingAt(Value(), u) == None
      ensures forall p :: 0 <= p < |pages| && p != dir ==> pages[p] == old(pages)[p]
    {
      var v := BootAlloc(PGSIZE);
      dir := (v - KERNBASE) / PGSIZE;
      pages := Memory.ClearPage(mem, pages, dir);
      pages := Memory.StoreWord(mem, pages, dir, Pdx(VPT), Entry((v - KERNBASE) / PGSIZE, PTE_W));
      SelfEntryInv(Value(), dir);
    }

    /** The mapping of the kernel stack. */
    method MapStack(bootstack: Word, ghost low: nat)
      requires Valid() && BootInv(Value(), low, NextPage()) && NextPage() + 1 < |pages|
      requires KERNBASE <= bootstack && bootstack % PGSIZE == 0 && bootstack + KSTKSIZE <= end
      requires forall d: nat :: d < NPTENTRIES ==> (Pde(Value(), d) != 0 <==> d == SELF)
      modifies this, mem
      ensures Valid() && |pages| == |old(pages)| && dir == old(dir)
      ensures BootInv(Value(), low, NextPage()) && NextPage() == old(NextPage()) + 1
      ensures SegmentMapped(StackTask(old(Value()), old(NextPage()), (bootstack - KERNBASE) / PGSIZE), 8, Value(), NextPage())
    {
      hide BootInv, PagesIn, Missing, InWindow, SegmentMapped, Memory.Holds, RoundUp, Pde;
      KernelSizes();
      StackTables(Value());
      BootMapSegment(KSTACKTOP - KSTKSIZE, KSTKSIZE, bootstack - KERNBASE, PTE_W, low,
                     StackTask(Value(), NextPage(), (bootstack - KERNBASE) / PGSIZE));
    }

    /** The mappings of `boot_mem_init`: the kernel stack and all of physical memory. The
        directory and the tables take 66 pages. */
    method MapKernel(bootstack: Word)
      requires Valid() && nextfree == 0 && PageAfter(end) + 66 < |pages|
      requires KERNBASE <= bootstack && bootstack % PGSIZE == 0 && bootstack + KSTKSIZE <= end
      modifies this, mem
      ensures Valid() && |pages| == |old(pages)| && dir == PageAfter(end)
      ensures KernelMapped(Value(), (bootstack - KERNBASE) / PGSIZE, old(pages)[PageAfter(end) + 1])
      ensures BootInv(Value(), PageAfter(end), NextPage()) && NextPage() == PageAfter(end) + 66
    {
      hide BootInv, KernelMapped, PagesIn, Missing, InWindow, SegmentMapped, MappingAt, Memory.Holds, PageAfter, Pde, RoundUp;
      BootDirectory();
      ghost var low, s0, next := PageAfter(end), Value(), NextPage();
      ghost var stack := (bootstack - KERNBASE) / PGSIZE;
      KernelSizes();
      MapStack(bootstack, low);
      ghost var s1 := Value();
      KernelTables(s0, s1, next, stack);
      BootMapSegment(KERNBASE, 0xFFFF_FFFF - KERNBASE, 0, PTE_W, low, KernelTask(s1, NextPage()));
      KernelSegments(s0, s1, Value(), low, next, stack);
    }

    /** The memory part of `boot_mem_init`. The `struct Page` array is the arrays of
        `Pmap`; here it takes the bytes that it needs. The check at the end passes. */
    method BootMemInit(bootstack: Word)
      requires Valid() && nextfree == 0 && FirstFree(end, |pages|) < |pages|
      requires KERNBASE <= bootstack && bootstack % PGSIZE == 0 && bootstack + KSTKSIZE <= end
      modifies this, mem
      ensures Valid() && |pages| == |old(pages)| && dir == PageAfter(end) && PageAfter(end) + 1 < |pages|
      ensures KernelMapped(Value(), (bootstack - KERNBASE) / PGSIZE, old(pages)[PageAfter(end) + 1])
      ensures BootInv(Value(), PageAfter(end), PageAfter(end) + 66)
      ensures NextPage() == FirstFree(end, |pages|) && Next() < 0x1_0000_0000
    {
      hide BootInv, KernelMapped, RoundUp, PhysicalPage, MemoryMapped, StackMapped, DirectoryUsed;
      MapKernel(bootstack);
      KernelWalkable(Value(), PageAfter(end), NextPage(), bootstack, old(pages)[PageAfter(end) + 1]);
      FirstFreeIs(end, mem.Length0);
      NextIs(Next(), PageAfter(end) + 66);
      var pageArray := BootAlloc(12 * mem.Length0);
      var ok := BootMemCheck(bootstack);
      assert ok;
      MapAddressZero((bootstack - KERNBASE) / PGSIZE, old(pages)[PageAfter(end) + 1]);
    }

    /** Address 0 is mapped like KERNBASE while the processor changes over: between the two
        writes the first 4 MB are those of physical memory, and nothing else has changed. */
    method MapAddressZero(ghost stack: nat, ghost was: Page)
      requires Valid() && dir < |pages| && KernelMapped(Value(), stack, was)
      requires exists first, next :: BootInv(Value(), first, next)
      modifies this`pages, mem
      ensures Valid() && pages == old(pages)
    {
      ghost var before := Value();
      assert pages[dir][0] == Pde(Value(), 0) && mem[dir, Pdx(KERNBASE)] == Pde(Value(), Pdx(KERNBASE));
      pages := Memory.StoreWord(mem, pages, dir, 0, mem[dir, Pdx(KERNBASE)]);
      LowMemoryMapped(before, Value(), stack, was);
      assert forall u: nat :: u < 0x10_0000 && !InWindow(u) ==>
          MappingAt(Value(), u) == if u < NPTENTRIES then Some(Mapping(u, PTE_W + PTE_P)) else MappingAt(before, u);
      pages := Memory.StoreWord(mem, pages, dir, 0, 0);
      assert pages[dir] == before.mem[dir];
      assert pages == before.mem;
    }

    /** `boot_mem_check`: passes exactly when the three parts of the address space are as
        they should be. */
    method BootMemCheck(bootstack: Word) returns (ok: bool)
      requires Valid() && dir < |pages| && Walkable(Value()) && bootstack >= KERNBASE
      ensures ok <==> MemoryMapped(Value()) && StackMapped(Value(), bootstack) && DirectoryUsed(Value())
    {
      hide MemoryMapped, StackMapped, DirectoryUsed;
      ok := CheckPhysicalMemory();
      if ok {
        ok := CheckStack(bootstack);
      }
      if ok {
        ok := CheckDirectory();
      }
    }

    /** `check_va2pa` for a page of the address space. */
    method CheckPage(va: Word, ghost u: nat) returns (pa: Word)
      requires Valid() && dir < |pages| && Walkable(Value()) && u < 0x10_0000 && va == u * PGSIZE
      ensures pa == PhysicalPage(Value(), u)
    {
      pa := Memory.CheckVa2Pa(mem, dir, va, Value());
    }

    /** Every address from KERNBASE on is mapped to what is left of it; the address wraps
        to 0 at the end of the loop. */
    method CheckPhysicalMemory() returns (ok: bool)
      requires Valid() && dir < |pages| && Walkable(Value())
      ensures ok <==> MemoryMapped(Value())
    {
      hide PhysicalPage, Memory.Holds, Walkable;
      var i := 0;
      ghost var n := 0;
      while (KERNBASE + i) % 0x1_0000_0000 != 0
        invariant i == n * PGSIZE && n <= 0x1_0000
        invariant forall u: nat :: KERNEL_PAGE <= u < KERNEL_PAGE + n ==> PhysicalPage(Value(), u) == (u - KERNEL_PAGE) * PGSIZE
        decreases 0x1_0000 - n
      {
        var pa := CheckPage(KERNBASE + i, KERNEL_PAGE + n);
        if pa != i {
          return false;
        }
        i := i + PGSIZE;
        n := n + 1;
      }
      return true;
    }

    /** The stack range is mapped to `bootstack`. */
    method CheckStack(bootstack: Word) returns (ok: bool)
      requires Valid() && dir < |pages| && Walkable(Value()) && bootstack >= KERNBASE
      ensures ok <==> StackMapped(Value(), bootstack)
    {
      hide PhysicalPage, Memory.Holds, Walkable;
      var i := 0;
      ghost var n := 0;
      while i < KSTKSIZE
        invariant i == n * PGSIZE && n <= 8
        invariant forall u: nat :: STACK_PAGE <= u < STACK_PAGE + n ==>
                    PhysicalPage(Value(), u) == bootstack - KERNBASE + (u - STACK_PAGE) * PGSIZE
      {
        var pa := CheckPage(KSTACKTOP - KSTKSIZE + i, STACK_PAGE + n);
        if pa != bootstack - KERNBASE + i {
          return false;
        }
        i := i + PGSIZE;
        n := n + 1;
      }
      return true;
    }

    /** The directory entries that are in use are those of VPT, the stack and the kernel. */
    method CheckDirectory() returns (ok: bool)
      requires Valid() && dir < |pages|
      ensures ok <==> DirectoryUsed(Value())
    {
      var d := 0;
      while d < NPTENTRIES
        invariant 0 <= d <= NPTENTRIES
        invariant forall e: nat :: e < d ==>
                    (Pde(Value(), e) != 0 <==> e == Pdx(VPT) || e == Pdx(KSTACKTOP - 1) || e >= Pdx(KERNBASE))
      {
        assert mem[dir, d] == Pde(Value(), d);
        if d == Pdx(VPT) || d == Pdx(KSTACKTOP - 1) {
          if mem[dir, d] == 0 {
            return false;
          }
        } else if d >= Pdx(KERNBASE) {
          if mem[dir, d] == 0 {
            return false;
          }
        } else if mem[dir, d] != 0 {
          return false;
        }
        d := d + 1;
      }
      return true;
    }
  }
}
