/** `page_init` of kern/pmap.c, and the memory part of `i386_init` of kern/init.c: from
    any memory to a state in which the invariant holds and the kernel's test passes. */
module KernelInit {
  import opened Mmu
  import opened Queue
  import opened PageState
  import opened BootState
  import opened Pmap
  import opened Boot
  import Memory
  import PageCheck

  // ----- page_init

  /** A page that goes on the free list, when the boot code has used those below `low`. */
  predicate Usable(low: nat, p: nat) {
    p != 0 && !(IOPHYSMEM / PGSIZE <= p < EXTPHYSMEM / PGSIZE) && p >= low
  }

  /** The usable pages below `n`, the last one first. */
  function FreePages(low: nat, n: nat): seq<nat> {
    if n == 0 then [] else (if Usable(low, n - 1) then [n - 1] else []) + FreePages(low, n - 1)
  }

  /** The free list has exactly the pages that the boot code has not used, but for page 0 and those
      between 640 KB and 1 MB, in descending order. */
  lemma {:induction false} FreePagesExact(low: nat, n: nat)
    ensures forall p: nat :: p in FreePages(low, n) <==> low <= p < n && p != 0 && !(640 * 1024 <= p * 4096 < 1024 * 1024)
    ensures forall i, j :: 0 <= i < j < |FreePages(low, n)| ==> FreePages(low, n)[i] > FreePages(low, n)[j]
  {
    if n > 0 {
      FreePagesExact(low, n - 1);
      var rest := FreePages(low, n - 1);
      assert forall i :: 0 <= i < |rest| ==> rest[i] in rest;
    }
  }

  ghost function Below(low: nat): (s: set<nat>)
    ensures forall p: nat :: p in s <==> p < low
  {
    if low == 0 then {} else Below(low - 1) + {low - 1}
  }

  function Zeros(n: nat): (z: seq<nat>)
    ensures |z| == n && forall i :: 0 <= i < n ==> z[i] == 0
  {
    seq(n, i => 0)
  }

  /** The state after `page_init`. */
  ghost function Initial(dir: nat, low: nat, pages: seq<Page>): State {
    State(dir, Below(low), pages, Zeros(|pages|), FreePages(low, |pages|))
  }

  /** The tables that the boot code built, and the free list of `page_init`, satisfy the
      invariant: no page that the boot code uses can be handed out. */
  lemma InitialInv(s: State, first: nat, next: nat, stack: nat, was: Page, low: nat)
    requires BootInv(s, first, next) && KernelMapped(s, stack, was) && next <= low
    ensures Inv(Initial(s.dir, low, s.mem))
    ensures Pde(Initial(s.dir, low, s.mem), 0) == 0 && Pde(Initial(s.dir, low, s.mem), 1) == 0
  {
    var t := Initial(s.dir, low, s.mem);
    FreePagesExact(low, |s.mem|);
    assert forall d: nat :: Pde(t, d) == Pde(s, d);
    forall p: nat | p < |t.ref| ensures t.ref[p] == Count(t, p) {
      assert PdeRefs(t, p) == {};
      assert PteRefs(t, p) == {};
    }
    assert FreeList(t);
    assert Directory(t);
  }

  /** `page_init`: clears every count and puts the usable pages on the free list. The call
      of `boot_alloc(0)` in each round answers the same address. */
  method PageInit(b: BootMemory, pm: Pmap)
    requires b.Valid() && pm.Valid() && b.Next() < 0x1_0000_0000
    modifies b`nextfree, pm`free, pm.ppRef, pm.lists.links, pm.lists.heads
    ensures b.Valid() && pm.Valid() && b.Next() == old(b.Next()) && b.NextPage() == old(b.NextPage())
    ensures pm.free == FreePages(b.NextPage(), |pm.pages|)
    ensures pm.ppRef[..] == Zeros(|pm.pages|)
  {
    hide RoundUp, Memory.Holds, IsList;
    ghost var low, top := b.NextPage(), b.Next();
    RoundUpTwice(top);
    pm.lists.Init(FREE_LIST, [pm.free]);
    pm.free := [];
    assert [old(pm.free)][FREE_LIST := []] == [pm.free];
    var i := 0;
    while i < pm.ppRef.Length
      invariant 0 <= i <= pm.ppRef.Length
      invariant b.Valid() && b.Next() == top
      invariant pm.Valid() && pm.free == FreePages(low, i)
      invariant forall j :: 0 <= j < i ==> pm.ppRef[j] == 0
    {
      pm.ppRef[i] := 0;
      if i == 0 {
      } else if IOPHYSMEM / PGSIZE <= i < EXTPHYSMEM / PGSIZE {
      } else {
        var v := b.BootAlloc(0);
        if !(i < (v - KERNBASE) / PGSIZE) {
          FreePagesExact(low, i);
          pm.PageFree(i);
        }
      }
      i := i + 1;
    }
  }

  // ----- i386_init

  lemma ThreeFree(low: nat, n: nat)
    requires EXTPHYSMEM / PGSIZE <= low && low + 3 <= n
    ensures |FreePages(low, n)| >= 3
  {
    assert FreePages(low, n) == [n - 1] + FreePages(low, n - 1);
    assert FreePages(low, n - 1) == [n - 2] + FreePages(low, n - 2);
    assert FreePages(low, n - 2) == [n - 3] + FreePages(low, n - 3);
  }

  /** `boot_mem_init` and `page_init`, whatever is in memory: which pages are free afterwards
      follows from `end` and the size of the memory. */
  method InitMemory(mem: array2<Word>, end: Word, bootstack: Word, ghost pages: seq<Page>) returns (pm: Pmap)
    requires Memory.Holds(mem, pages) && |pages| <= MAX_PAGES
    requires KERNBASE <= bootstack && bootstack % PGSIZE == 0 && bootstack + KSTKSIZE <= end
    requires FirstFree(end, |pages|) < |pages|
    modifies mem
    ensures pm.Valid() && Inv(pm.Value()) && fresh(pm) && fresh(pm.ppRef) && fresh(pm.lists.links) && fresh(pm.lists.heads)
    ensures pm.mem == mem && |pm.pages| == |pages| && PageAfter(end) + 1 < |pages|
    ensures KernelMapped(pm.Value(), (bootstack - KERNBASE) / PGSIZE, pages[PageAfter(end) + 1])
    ensures pm.Value() == Initial(PageAfter(end), FirstFree(end, |pages|), pm.pages)
  {
    hide BootInv, KernelMapped, Inv, Memory.Holds, MappingAt, FirstFree, PageAfter, RoundUp, FreePages, Below, Zeros, Represents;
    var b := new BootMemory(mem, end, pages);
    b.BootMemInit(bootstack);
    ghost var s, low, was := b.Value(), b.NextPage(), pages[PageAfter(end) + 1];
    FirstFreeAbove(end, |pages|);
    InitialInv(s, PageAfter(end), PageAfter(end) + 66, (bootstack - KERNBASE) / PGSIZE, was, low);
    BootPages(s, PageAfter(end), PageAfter(end) + 66);
    pm := new Pmap(mem, b.dir, Below(low), b.pages);
    PageInit(b, pm);
    SameMapping(s, pm.Value(), (bootstack - KERNBASE) / PGSIZE, was);
  }

  lemma FirstFreeAbove(end: Word, npages: nat)
    requires end >= KERNBASE
    ensures PageAfter(end) + 66 <= FirstFree(end, npages)
  {
  }

  lemma BootPages(s: State, first: nat, next: nat)
    requires BootInv(s, first, next)
    ensures s.dir < |s.mem| <= MAX_PAGES && first < next
  {
  }

  /** Translations depend on the memory only. */
  lemma SameMapping(s: State, t: State, stack: nat, was: Page)
    requires KernelMapped(s, stack, was) && t.dir == s.dir && t.mem == s.mem
    ensures KernelMapped(t, stack, was)
  {
    assert forall d: nat :: Pde(t, d) == Pde(s, d);
    forall u: nat | u < 0x10_0000 && !InWindow(u) ensures MappingAt(t, u) == MappingAt(s, u) {
    }
  }

  /** The memory part of `i386_init`: `page_check` passes on the memory that was set up, when
      there is room for the kernel's tables and three more pages. The free list is that of
      `page_init` with its first three pages in the opposite order. */
  method InitAndCheck(mem: array2<Word>, end: Word, bootstack: Word, ghost pages: seq<Page>) returns (pm: Pmap)
    requires Memory.Holds(mem, pages) && |pages| <= MAX_PAGES
    requires KERNBASE <= bootstack && bootstack % PGSIZE == 0 && bootstack + KSTKSIZE <= end
    requires KERNBASE + EXTPHYSMEM <= end && FirstFree(end, |pages|) + 3 <= |pages|
    modifies mem
    ensures pm.Valid() && Inv(pm.Value()) && pm.ppRef[..] == Zeros(|pages|)
    ensures var f := FreePages(FirstFree(end, |pages|), |pages|);
            |f| >= 3 && pm.free == [f[2], f[1], f[0]] + f[3..]
  {
    pm := InitMemory(mem, end, bootstack, pages);
    FirstFreeAbove(end, |pages|);
    hide Inv, KernelMapped;
    ThreeFree(FirstFree(end, |pages|), |pages|);
    EmptyEntries(pm.Value(), (bootstack - KERNBASE) / PGSIZE, pages[PageAfter(end) + 1]);
    ghost var f := pm.free;
    ghost var ps := PageCheck.PageCheck(pm);
    assert f[0] == ps.p0 && f[1] == ps.p1 && f[2] == ps.p2;
  }

  lemma EmptyEntries(s: State, stack: nat, was: Page)
    requires KernelMapped(s, stack, was)
    ensures Pde(s, 0) == 0 && Pde(s, 1) == 0
  {
  }
}
