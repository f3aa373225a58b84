/** The page tables that kern/pmap.c builds before there is a free list, as values. A state
    of `PageState` without counts and free pages stands for the memory; `next` is the
    number of the first page that `boot_alloc` has not given out. */
module BootState {
  import opened Options
  import opened Mmu
  import opened PageState
  import opened Memory

  // ----- boot_alloc

  /** `ROUNDUP(a, PGSIZE)` */
  function RoundUp(a: nat): (r: nat)
    ensures r % PGSIZE == 0 && a <= r < a + PGSIZE
  {
    a + PGSIZE - 1 - (a + PGSIZE - 1) % PGSIZE
  }

  lemma RoundUpTwice(a: nat)
    ensures a % PGSIZE == 0 ==> RoundUp(a) == a
  {
  }

  /** The starts of the chunks that a sequence of `boot_alloc` calls returns. */
  function Starts(nextfree: nat, sizes: seq<nat>): seq<nat>
    decreases |sizes|
  {
    if sizes == [] then [] else [RoundUp(nextfree)] + Starts(RoundUp(nextfree) + sizes[0], sizes[1..])
  }

  /** The chunks start on pages of their own, in order, and do not overlap; asking for
      nothing does not move the next one. */
  lemma {:induction false} ChunksAreDisjoint(nextfree: nat, sizes: seq<nat>, i: nat, j: nat)
    requires i < j < |sizes|
    ensures |Starts(nextfree, sizes)| == |sizes|
    ensures var v := Starts(nextfree, sizes);
            && v[i] % PGSIZE == 0 && v[j] % PGSIZE == 0 && v[i] >= nextfree
            && v[i] + sizes[i] <= v[j]
            && (j == i + 1 && sizes[i] == 0 ==> v[j] == v[i])
    decreases |sizes|
  {
    var rest := RoundUp(nextfree) + sizes[0];
    StartsInOrder(rest, sizes[1..], j - 1);
    if i > 0 {
      ChunksAreDisjoint(rest, sizes[1..], i - 1, j - 1);
    }
  }

  lemma {:induction false} StartsInOrder(nextfree: nat, sizes: seq<nat>, j: nat)
    requires j < |sizes|
    ensures |Starts(nextfree, sizes)| == |sizes|
    ensures Starts(nextfree, sizes)[j] >= nextfree && Starts(nextfree, sizes)[j] % PGSIZE == 0
    ensures j == 0 ==> Starts(nextfree, sizes)[j] == RoundUp(nextfree)
    decreases |sizes|
  {
    if j > 0 {
      StartsInOrder(RoundUp(nextfree) + sizes[0], sizes[1..], j - 1);
    } else if |sizes| > 1 {
      StartsInOrder(RoundUp(nextfree) + sizes[0], sizes[1..], 0);
    }
  }

  // ----- the tables

  /** The tables lie in the pages that were given out and are distinct. */
  ghost predicate BootInv(s: State, first: nat, next: nat) {
    && first <= s.dir < next <= |s.mem| <= MAX_PAGES
    && Pde(s, SELF) == Entry(s.dir, PTE_W)
    && (forall d: nat :: d < NPTENTRIES && Pde(s, d) != 0 ==>
          Present(Pde(s, d)) && first <= Table(s, d) < next && (Table(s, d) == s.dir <==> d == SELF))
    && forall d: nat, e: nat :: d < NPTENTRIES && e < NPTENTRIES && Pde(s, d) != 0 && Pde(s, e) != 0 && Table(s, d) == Table(s, e) ==> d == e
  }

  /** The page is in the window at VPT, which shows the tables themselves. */
  predicate InWindow(u: nat) {
    u / NPTENTRIES == SELF
  }

  /** The mapping of a page of the address space. */
  function MappingAt(s: State, v: nat): Option<Mapping>
    requires v < 0x10_0000
  {
    Translate(s, v * PGSIZE)
  }

  /** What an entry maps. */
  function MappingOf(w: Word): Option<Mapping> {
    if Present(w) then Some(Mapping(EntryPage(w), EntryFlags(w))) else None
  }

  /** `boot_pgdir_walk` with a `create` that is not 0: the new table and the next page. */
  function BootWalk(s: State, next: nat, d: nat, create: nat): (State, nat)
    requires create < PGSIZE
  {
    if Present(Pde(s, d)) then (s, next) else (Store(s, s.dir, d, Entry(next, create)), next + 1)
  }

  /** One round of `boot_map_segment`. */
  function BootMap(s: State, next: nat, v: nat, page: nat, perm: nat): (State, nat)
    requires perm < PGSIZE
  {
    var s1 := BootWalk(s, next, v / NPTENTRIES, WithPresent(perm)).0;
    (Store(s1, Table(s1, v / NPTENTRIES), v % NPTENTRIES, Entry(page, perm)), BootWalk(s, next, v / NPTENTRIES, WithPresent(perm)).1)
  }

  /** A new table is not cleared: it shows what its page had before. */
  lemma WalkKeepsBootInv(s: State, first: nat, next: nat, d: nat, create: nat)
    requires BootInv(s, first, next) && d < NPTENTRIES && d != SELF && create < PGSIZE
    requires Pde(s, d) != 0 || next < |s.mem|
    ensures var (s', next') := BootWalk(s, next, d, create);
            && BootInv(s', first, next') && Pde(s', d) != 0 && |s'.mem| == |s.mem| && s'.dir == s.dir
            && (forall e: nat :: e < NPTENTRIES && e != d ==> Pde(s', e) == Pde(s, e))
            && (forall e: nat, t: nat :: e < NPTENTRIES && e != SELF && t < NPTENTRIES && Pde(s', e) != 0 ==>
                  Pte(s', e, t) == if Pde(s, e) != 0 then Pte(s, e, t) else Load(s, next, t))
            && (forall p :: next <= p < |s.mem| ==> s'.mem[p] == s.mem[p])
            && (if Pde(s, d) != 0 then s' == s else Table(s', d) == next && EntryFlags(Pde(s', d)) == WithPresent(create))
  {
    var s' := BootWalk(s, next, d, create).0;
    if Pde(s, d) == 0 {
      assert forall e: nat :: e < NPTENTRIES && e != d ==> Pde(s', e) == Pde(s, e);
      assert Table(s', d) == next;
    }
  }

  lemma StoreKeepsBootInv(s: State, first: nat, next: nat, d: nat, t: nat, w: Word)
    requires BootInv(s, first, next) && d < NPTENTRIES && d != SELF && Pde(s, d) != 0 && t < NPTENTRIES
    ensures var s' := Store(s, Table(s, d), t, w);
            && BootInv(s', first, next) && |s'.mem| == |s.mem| && s'.dir == s.dir
            && (forall e: nat :: e < NPTENTRIES ==> Pde(s', e) == Pde(s, e))
            && (forall e: nat, u: nat :: e < NPTENTRIES && e != SELF && u < NPTENTRIES && Pde(s, e) != 0 ==>
                  Pte(s', e, u) == if e == d && u == t then w else Pte(s, e, u))
            && (forall p :: next <= p < |s.mem| ==> s'.mem[p] == s.mem[p])
  {
    var s' := Store(s, Table(s, d), t, w);
    assert forall e: nat :: e < NPTENTRIES ==> Pde(s', e) == Pde(s, e);
  }

  /** What a page is mapped to after the page `v` was: in a table that was there, or a new one. */
  function MappedNext(s: State, next: nat, v: nat, page: nat, perm: nat, u: nat): Option<Mapping>
    requires u < 0x10_0000
  {
    if u == v then Some(Mapping(page, WithPresent(perm)))
    else if u / NPTENTRIES == v / NPTENTRIES && Pde(s, v / NPTENTRIES) == 0 then MappingOf(Load(s, next, u % NPTENTRIES))
    else MappingAt(s, u)
  }

  lemma BootMapStep(s: State, first: nat, next: nat, v: nat, page: nat, perm: nat)
    requires BootInv(s, first, next) && v < 0x10_0000 && !InWindow(v) && perm < PGSIZE && page < 0x10_0000
    requires Pde(s, v / NPTENTRIES) != 0 || next < |s.mem|
    ensures var (s', next') := BootMap(s, next, v, page, perm);
            && BootInv(s', first, next') && |s'.mem| == |s.mem| && s'.dir == s.dir
            && next' == (if Pde(s, v / NPTENTRIES) != 0 then next else next + 1)
            && (forall e: nat :: e < NPTENTRIES && (e != v / NPTENTRIES || Pde(s, e) != 0) ==> Pde(s', e) == Pde(s, e))
            && Pde(s', v / NPTENTRIES) != 0
            && (Pde(s, v / NPTENTRIES) == 0 ==>
                  Table(s', v / NPTENTRIES) == next && EntryFlags(Pde(s', v / NPTENTRIES)) == WithPresent(perm))
            && (forall p :: next' <= p < |s.mem| ==> s'.mem[p] == s.mem[p])
            && (forall u: nat :: u < 0x10_0000 && !InWindow(u) ==> MappingAt(s', u) == MappedNext(s, next, v, page, perm, u))
  {
    hide BootInv;
    var d, t := v / NPTENTRIES, v % NPTENTRIES;
    WalkKeepsBootInv(s, first, next, d, WithPresent(perm));
    var s1, next1 := BootWalk(s, next, d, WithPresent(perm)).0, BootWalk(s, next, d, WithPresent(perm)).1;
    StoreKeepsBootInv(s1, first, next1, d, t, Entry(page, perm));
    var s' := BootMap(s, next, v, page, perm).0;
    forall u: nat | u < 0x10_0000 && !InWindow(u)
      ensures MappingAt(s', u) == MappedNext(s, next, v, page, perm, u)
    {
      PageIndices(u);
      PageIndices(v);
      assert Pde(s', u / NPTENTRIES) == Pde(s1, u / NPTENTRIES);
    }
  }

  lemma PageIndices(u: nat)
    requires u < 0x10_0000
    ensures Pdx(u * PGSIZE) == u / NPTENTRIES && Ptx(u * PGSIZE) == u % NPTENTRIES
    ensures u == u / NPTENTRIES * NPTENTRIES + u % NPTENTRIES
  {
  }

  // ----- boot_map_segment

  /** A call of `boot_map_segment`: `size` pages from `first` on go to those from `page` on. The
      call starts in the state `start` with the pages from `next` on unused. */
  datatype Task = Task(start: State, next: nat, first: nat, size: nat, page: nat, perm: nat)

  /** What page `u` is mapped to when `n` pages are done. Where a table is new, the rest of it
      shows what its page had before. */
  function MappedAfter(t: Task, n: nat, s: State, u: nat): Option<Mapping>
    requires u < 0x10_0000
  {
    if t.first <= u < t.first + n then Some(Mapping(t.page + (u - t.first), WithPresent(t.perm)))
    else if Pde(t.start, u / NPTENTRIES) == 0 && Covers(t.first, n, u / NPTENTRIES) then
      MappingOf(Load(t.start, Table(s, u / NPTENTRIES), u % NPTENTRIES))
    else MappingAt(t.start, u)
  }

  /** The first `n` pages are mapped and nothing else changed, except in the window at VPT, which
      shows the tables themselves. The pages from `next` on are still unused. */
  ghost predicate SegmentMapped(t: Task, n: nat, s: State, next: nat) {
    && |s.mem| == |t.start.mem|
    && (forall u: nat :: u < 0x10_0000 && !InWindow(u) ==> MappingAt(s, u) == MappedAfter(t, n, s, u))
    && (forall d: nat :: d < NPTENTRIES ==> (Pde(s, d) != 0 <==> Pde(t.start, d) != 0 || Covers(t.first, n, d)))
    && (forall d: nat :: d < NPTENTRIES && Pde(t.start, d) != 0 ==> Pde(s, d) == Pde(t.start, d))
    && (forall d: nat :: d < NPTENTRIES && Pde(t.start, d) == 0 && Pde(s, d) != 0 ==>
          t.next <= Table(s, d) && EntryFlags(Pde(s, d)) == WithPresent(t.perm))
    && forall p :: next <= p < |s.mem| ==> s.mem[p] == t.start.mem[p]
  }

  /** Some page of the segment belongs to directory entry `d`. */
  predicate Covers(first: nat, n: nat, d: nat) {
    n > 0 && first / NPTENTRIES <= d <= (first + n - 1) / NPTENTRIES
  }

  /** The number of page tables for a segment. */
  function TablesFor(first: nat, n: nat): nat {
    if n == 0 then 0 else (first + n - 1) / NPTENTRIES - first / NPTENTRIES + 1
  }

  /** One more page needs at most one more table, and none if its table is there. */
  lemma SegmentGrows(first: nat, n: nat)
    ensures var d := (first + n) / NPTENTRIES;
            && Covers(first, n + 1, d)
            && (forall e: nat :: e != d ==> (Covers(first, n + 1, e) <==> Covers(first, n, e)))
            && TablesFor(first, n + 1) == TablesFor(first, n) + if Covers(first, n, d) then 0 else 1
  {
  }

  /** The page tables that a segment needs and that are not there yet. */
  function Missing(s: State, first: nat, n: nat): nat {
    if n == 0 then 0
    else
      var d := (first + n - 1) / NPTENTRIES;
      Missing(s, first, n - 1) + if Pde(s, d) != 0 || Covers(first, n - 1, d) then 0 else 1
  }

  lemma MissingStep(t: Task, n: nat, s: State, next: nat)
    requires SegmentMapped(t, n, s, next) && (t.first + n) / NPTENTRIES < NPTENTRIES
    ensures Missing(t.start, t.first, n + 1)
         == Missing(t.start, t.first, n) + if Pde(s, (t.first + n) / NPTENTRIES) != 0 then 0 else 1
  {
  }

  lemma {:induction false} MissingMonotone(s: State, first: nat, n: nat, m: nat)
    requires n <= m
    ensures Missing(s, first, n) <= Missing(s, first, m)
    decreases m
  {
    if n < m {
      MissingMonotone(s, first, n, m - 1);
    }
  }

  /** A segment that no table is there for needs all of its tables. */
  lemma {:induction false} AllMissing(s: State, first: nat, n: nat)
    requires forall d: nat :: Covers(first, n, d) ==> Pde(s, d) == 0
    ensures Missing(s, first, n) == TablesFor(first, n)
  {
    if n > 0 {
      SegmentGrows(first, n - 1);
      hide TablesFor, Covers;
      AllMissing(s, first, n - 1);
    }
  }

  lemma SegmentStep(t: Task, n: nat, s: State, low: nat, next: nat)
    requires t.perm < PGSIZE && t.first + n < 0x10_0000 && t.page + n < 0x10_0000 && !InWindow(t.first + n)
    requires BootInv(s, low, next) && SegmentMapped(t, n, s, next) && t.next <= next
    requires Pde(s, (t.first + n) / NPTENTRIES) != 0 || next < |s.mem|
    ensures var (s', next') := BootMap(s, next, t.first + n, t.page + n, t.perm);
            && BootInv(s', low, next') && s'.dir == s.dir && SegmentMapped(t, n + 1, s', next')
            && next' == next + if Pde(s, (t.first + n) / NPTENTRIES) != 0 then 0 else 1
  {
    hide BootInv, BootMap, MappingAt, Covers, TablesFor, MappingOf, WithPresent;
    var v := t.first + n;
    var (s', next') := BootMap(s, next, v, t.page + n, t.perm);
    SegmentGrows(t.first, n);
    BootMapStep(s, low, next, v, t.page + n, t.perm);
    forall u: nat | u < 0x10_0000 && !InWindow(u) ensures MappingAt(s', u) == MappedAfter(t, n + 1, s', u) {
      MappedStep(t, n, s, next, s', u);
    }
  }

  /** One page more, seen from one page. */
  lemma MappedStep(t: Task, n: nat, s: State, next: nat, s': State, u: nat)
    requires u < 0x10_0000 && (t.first + n) / NPTENTRIES < NPTENTRIES && SegmentMapped(t, n, s, next) && !InWindow(u)
    requires var d := (t.first + n) / NPTENTRIES;
             && (forall e: nat :: e < NPTENTRIES && (e != d || Pde(s, e) != 0) ==> Pde(s', e) == Pde(s, e))
             && (Pde(s, d) == 0 ==> Table(s', d) == next)
    requires Pde(s, (t.first + n) / NPTENTRIES) == 0 ==> next < |s.mem|
    ensures MappedNext(s, next, t.first + n, t.page + n, t.perm, u) == MappedAfter(t, n + 1, s', u)
  {
    hide MappingAt, Covers, MappingOf;
    SegmentGrows(t.first, n);
    var d, e := (t.first + n) / NPTENTRIES, u / NPTENTRIES;
    assert MappingAt(s, u) == MappedAfter(t, n, s, u);
    assert e < NPTENTRIES && (e != d ==> Table(s', e) == Table(s, e));
  }

  /** The pages that a segment of `size` bytes reaches into. */
  function PagesIn(size: nat): nat {
    (size + PGSIZE - 1) / PGSIZE
  }

  lemma OnePageMore(size: nat, n: nat)
    ensures n * PGSIZE < size <==> n < PagesIn(size)
  {
  }

  /** The call stays inside the address space and memory, and outside the window. */
  ghost predicate Doable(t: Task) {
    && t.perm < PGSIZE && t.first + t.size <= 0x10_0000 && t.page + t.size <= 0x10_0000
    && t.next + Missing(t.start, t.first, t.size) < |t.start.mem|
    && forall u :: t.first <= u < t.first + t.size ==> !InWindow(u)
  }

  /** Where `boot_map_segment` is after `n` pages. */
  ghost predicate Progress(t: Task, n: nat, s: State, next: nat, low: nat) {
    && BootInv(s, low, next) && s.dir == t.start.dir
    && SegmentMapped(t, n, s, next)
    && next == t.next + Missing(t.start, t.first, n)
  }

  lemma ProgressStart(t: Task, low: nat)
    requires BootInv(t.start, low, t.next)
    ensures Progress(t, 0, t.start, t.next, low)
  {
  }

  lemma ProgressStep(t: Task, n: nat, s: State, next: nat, low: nat)
    requires Progress(t, n, s, next, low) && Doable(t) && n < t.size
    ensures BootInv(s, low, next) && |s.mem| == |t.start.mem|
    ensures Pde(s, (t.first + n) / NPTENTRIES) == 0 ==> next + 1 < |s.mem|
    ensures var (s', next') := BootMap(s, next, t.first + n, t.page + n, t.perm);
            Progress(t, n + 1, s', next', low)
  {
    hide BootInv, BootMap, Missing;
    MissingMonotone(t.start, t.first, n + 1, t.size);
    PageIndices(t.first + n);
    MissingStep(t, n, s, next);
    SegmentStep(t, n, s, low, next);
  }

  lemma ProgressDone(t: Task, n: nat, s: State, next: nat, low: nat)
    requires Progress(t, n, s, next, low)
    ensures BootInv(s, low, next) && s.dir == t.start.dir && |s.mem| == |t.start.mem| && SegmentMapped(t, n, s, next)
    ensures next == t.next + Missing(t.start, t.first, n)
  {
  }

  // ----- boot_mem_init

  /** The first page that the kernel image does not reach into. */
  function PageAfter(end: Word): nat
    requires end >= KERNBASE
  {
    (RoundUp(end) - KERNBASE) / PGSIZE
  }

  const STACK_PAGE := (KSTACKTOP - KSTKSIZE) / PGSIZE
  const KERNEL_PAGE := KERNBASE / PGSIZE

  /** The part of the stack's page table that is left unmapped, to catch an overflow. */
  const GUARD_PAGE := (KSTACKTOP - PTSIZE) / PGSIZE

  /** What the boot code maps a page to: the kernel stack, and all physical memory at KERNBASE,
      readable and writable by the kernel; nothing else outside the window, but below the
      stack what the page of its table had before. */
  function KernelMapping(stack: nat, was: Page, u: nat): Option<Mapping> {
    if u >= KERNEL_PAGE then Some(Mapping(u - KERNEL_PAGE, PTE_W + PTE_P))
    else if u >= STACK_PAGE then Some(Mapping(stack + (u - STACK_PAGE), PTE_W + PTE_P))
    else if u >= GUARD_PAGE then MappingOf(was[u % NPTENTRIES])
    else None
  }

  /** The address space after boot. Its directory entries let the kernel write, too. */
  ghost predicate KernelMapped(s: State, stack: nat, was: Page) {
    && (forall u: nat :: u < 0x10_0000 && !InWindow(u) ==> MappingAt(s, u) == KernelMapping(stack, was, u))
    && (forall d: nat :: d < NPTENTRIES ==> (Pde(s, d) != 0 <==> d >= USER_PDES))
    && forall d: nat :: USER_PDES <= d < NPTENTRIES ==> EntryFlags(Pde(s, d)) == PTE_W + PTE_P
  }

  /** The range below the stack faults. */
  ghost predicate Guarded(s: State) {
    forall u: nat :: GUARD_PAGE <= u < STACK_PAGE ==> MappingAt(s, u) == None
  }

  /** The stack is guarded exactly when the memory of its page table, which nothing clears, had
      no present bit in the words below the stack. */
  lemma GuardedIffNotPresent(s: State, stack: nat, was: Page)
    requires KernelMapped(s, stack, was)
    ensures Guarded(s) <==> forall k :: 0 <= k < NPTENTRIES - 8 ==> !Present(was[k])
  {
    hide MappingAt;
    forall u: nat | GUARD_PAGE <= u < STACK_PAGE
      ensures MappingAt(s, u) == MappingOf(was[u - GUARD_PAGE])
    {
      assert !InWindow(u) && u % NPTENTRIES == u - GUARD_PAGE;
    }
    forall k: nat | k < NPTENTRIES - 8 && Guarded(s) ensures !Present(was[k]) {
      assert MappingAt(s, GUARD_PAGE + k) == None;
    }
  }

  /** An empty directory with the entry for itself. */
  lemma SelfEntryInv(s: State, first: nat)
    requires first == s.dir && first + 1 <= |s.mem| <= MAX_PAGES
    requires s.mem[first] == ZeroPage()[SELF := Entry(first, PTE_W)]
    ensures BootInv(s, first, first + 1)
    ensures forall d: nat :: d < NPTENTRIES ==> (Pde(s, d) != 0 <==> d == SELF)
    ensures EntryFlags(Pde(s, SELF)) == PTE_W + PTE_P
    ensures forall u: nat :: u < 0x10_0000 && !InWindow(u) ==> MappingAt(s, u) == None
  {
    forall u: nat | u < 0x10_0000 && !InWindow(u) ensures MappingAt(s, u) == None {
      PageIndices(u);
    }
  }

  /** The call that maps the stack, and the one that maps physical memory. */
  function StackTask(s: State, next: nat, stack: nat): Task {
    Task(s, next, STACK_PAGE, 8, stack, PTE_W)
  }

  function KernelTask(s: State, next: nat): Task {
    Task(s, next, KERNEL_PAGE, 0x1_0000, 0, PTE_W)
  }

  lemma KernelSegments(s0: State, s1: State, s2: State, low: nat, next: nat, stack: nat)
    requires forall d: nat :: d < NPTENTRIES ==> (Pde(s0, d) != 0 <==> d == SELF)
    requires forall u: nat :: u < 0x10_0000 && !InWindow(u) ==> MappingAt(s0, u) == None
    requires EntryFlags(Pde(s0, SELF)) == PTE_W + PTE_P
    requires BootInv(s1, low, next + 1) && next < |s0.mem|
    requires SegmentMapped(StackTask(s0, next, stack), 8, s1, next + 1)
    requires SegmentMapped(KernelTask(s1, next + 1), 0x1_0000, s2, next + 65)
    ensures KernelMapped(s2, stack, s0.mem[next])
  {
    forall d: nat | d < NPTENTRIES ensures Pde(s2, d) != 0 <==> d >= USER_PDES {
      assert Covers(STACK_PAGE, 8, d) <==> d == USER_PDES;
      assert Covers(KERNEL_PAGE, 0x1_0000, d) <==> d >= 960;
    }
    assert Table(s1, USER_PDES) == next;
    forall d: nat | USER_PDES <= d < NPTENTRIES ensures EntryFlags(Pde(s2, d)) == PTE_W + PTE_P {
      assert Pde(s1, d) != 0 ==> Pde(s2, d) == Pde(s1, d);
      assert Pde(s0, d) != 0 ==> Pde(s1, d) == Pde(s0, d);
    }
    hide MappingAt, BootInv, MappingOf;
    forall u: nat | u < 0x10_0000 && !InWindow(u)
      ensures MappingAt(s2, u) == KernelMapping(stack, s0.mem[next], u)
    {
      KernelPage(s0, s1, s2, next, stack, u);
    }
  }

  /** The two calls, seen from one page. */
  lemma KernelPage(s0: State, s1: State, s2: State, next: nat, stack: nat, u: nat)
    requires forall d: nat :: d < NPTENTRIES ==> (Pde(s0, d) != 0 <==> d == SELF)
    requires u < 0x10_0000 && !InWindow(u) && MappingAt(s0, u) == None
    requires next < |s0.mem| && Table(s1, USER_PDES) == next
    requires SegmentMapped(StackTask(s0, next, stack), 8, s1, next + 1)
    requires SegmentMapped(KernelTask(s1, next + 1), 0x1_0000, s2, next + 65)
    ensures MappingAt(s2, u) == KernelMapping(stack, s0.mem[next], u)
  {
    hide MappingAt, MappingOf;
    assert MappingAt(s1, u) == MappedAfter(StackTask(s0, next, stack), 8, s1, u);
    assert MappingAt(s2, u) == MappedAfter(KernelTask(s1, next + 1), 0x1_0000, s2, u);
    assert u >= KERNEL_PAGE <==> Covers(KERNEL_PAGE, 0x1_0000, u / NPTENTRIES);
    assert GUARD_PAGE <= u < KERNEL_PAGE <==> Covers(STACK_PAGE, 8, u / NPTENTRIES);
  }

  lemma KernelSizes()
    ensures PagesIn(KSTKSIZE) == 8 && PagesIn(0xFFFF_FFFF - KERNBASE) == 0x1_0000
    ensures forall u :: STACK_PAGE <= u < STACK_PAGE + 8 ==> !InWindow(u)
    ensures forall u :: KERNEL_PAGE <= u < KERNEL_PAGE + 0x1_0000 ==> !InWindow(u)
  {
  }

  /** The stack takes one page table, the kernel's view of physical memory 64. */
  lemma StackTables(s: State)
    requires forall d: nat :: d < NPTENTRIES ==> (Pde(s, d) != 0 <==> d == SELF)
    ensures Missing(s, STACK_PAGE, 8) == 1
  {
    AllMissing(s, STACK_PAGE, 8);
    hide Missing;
  }

  lemma KernelTables(s0: State, s: State, next: nat, stack: nat)
    requires forall d: nat :: d < NPTENTRIES ==> (Pde(s0, d) != 0 <==> d == SELF)
    requires SegmentMapped(StackTask(s0, next, stack), 8, s, next + 1)
    ensures Missing(s, KERNEL_PAGE, 0x1_0000) == 64
  {
    hide Missing, MappingAt;
    forall d: nat | Covers(KERNEL_PAGE, 0x1_0000, d) ensures Pde(s, d) == 0 {
      assert d < NPTENTRIES && !Covers(STACK_PAGE, 8, d) && d != SELF;
    }
    AllMissing(s, KERNEL_PAGE, 0x1_0000);
  }

  /** With the directory entry of KERNBASE at 0 as well, the first 4 MB of the address space are
      those of physical memory. */
  lemma LowMemoryMapped(s: State, s': State, stack: nat, was: Page)
    requires KernelMapped(s, stack, was) && exists first, next :: BootInv(s, first, next)
    requires s' == Store(s, s.dir, 0, Pde(s, Pdx(KERNBASE)))
    ensures forall u: nat :: u < 0x10_0000 && !InWindow(u) ==>
              MappingAt(s', u) == if u < NPTENTRIES then Some(Mapping(u, PTE_W + PTE_P)) else MappingAt(s, u)
  {
    var d := Pdx(KERNBASE);
    assert d == 960 && Table(s, d) != s.dir;
    forall u: nat | u < 0x10_0000 && !InWindow(u)
      ensures MappingAt(s', u) == if u < NPTENTRIES then Some(Mapping(u, PTE_W + PTE_P)) else MappingAt(s, u)
    {
      PageIndices(u);
      if u < NPTENTRIES {
        PageIndices(KERNEL_PAGE + u);
        assert !InWindow(KERNEL_PAGE + u);
        assert MappingAt(s, KERNEL_PAGE + u) == Some(Mapping(u, PTE_W + PTE_P));
      } else {
        assert Pde(s', u / NPTENTRIES) == Pde(s, u / NPTENTRIES);
        assert Pde(s, u / NPTENTRIES) != 0 ==> Table(s, u / NPTENTRIES) != s.dir;
      }
    }
  }

  // ----- boot_mem_check

  /** What `check_va2pa` answers for a page of the address space. */
  function PhysicalPage(s: State, u: nat): Word
    requires u < 0x10_0000
  {
    PhysicalAddress(s, u * PGSIZE)
  }

  /** The addresses from KERNBASE on are those of physical memory. */
  ghost predicate MemoryMapped(s: State) {
    forall u: nat :: KERNEL_PAGE <= u < 0x10_0000 ==> PhysicalPage(s, u) == (u - KERNEL_PAGE) * PGSIZE
  }

  /** The range below KSTACKTOP is the kernel's stack. */
  ghost predicate StackMapped(s: State, bootstack: Word) {
    forall u: nat :: STACK_PAGE <= u < STACK_PAGE + 8 ==>
      PhysicalPage(s, u) == bootstack - KERNBASE + (u - STACK_PAGE) * PGSIZE
  }

  /** The directory entries in use are those of the window, the stack and the kernel. */
  ghost predicate DirectoryUsed(s: State) {
    forall d: nat :: d < NPTENTRIES ==>
      (Pde(s, d) != 0 <==> d == Pdx(VPT) || d == Pdx(KSTACKTOP - 1) || d >= Pdx(KERNBASE))
  }

  /** The address space that the boot code builds is one that its check accepts. */
  lemma KernelIsChecked(s: State, bootstack: Word, was: Page)
    requires KERNBASE <= bootstack && bootstack % PGSIZE == 0
    requires KernelMapped(s, (bootstack - KERNBASE) / PGSIZE, was)
    ensures MemoryMapped(s) && StackMapped(s, bootstack) && DirectoryUsed(s)
  {
    var stack := (bootstack - KERNBASE) / PGSIZE;
    assert bootstack == KERNBASE + stack * PGSIZE;
    forall u: nat | STACK_PAGE <= u < STACK_PAGE + 8 || KERNEL_PAGE <= u < 0x10_0000
      ensures PhysicalPage(s, u) == (if u >= KERNEL_PAGE then u - KERNEL_PAGE else stack + (u - STACK_PAGE)) * PGSIZE
    {
      CheckedMapping(s, stack, was, u);
    }
    hide PhysicalPage;
  }

  /** What the walk finds for a page of the kernel's address space. */
  lemma CheckedMapping(s: State, stack: nat, was: Page, u: nat)
    requires KernelMapped(s, stack, was) && u < 0x10_0000
    requires u >= KERNEL_PAGE || (u >= STACK_PAGE && !InWindow(u))
    ensures Translate(s, u * PGSIZE)
         == Some(Mapping(if u >= KERNEL_PAGE then u - KERNEL_PAGE else stack + (u - STACK_PAGE), PTE_W + PTE_P))
  {
    assert MappingAt(s, u) == Translate(s, u * PGSIZE);
  }
}
