/** Physical pages, the two-level page table and the reference counts of kern/pmap.c,
    as a value and as pure transitions on it. The class `Pmap.Pmap` updates the same
    state in place; the lemmas about these functions are in `PageInvariant`. */
module PageState {
  import opened Options
  import opened Mmu

  /** Directory entries below this one belong to the `page_` functions; the others were
      filled at boot and are not counted in `pp_ref`. */
  const USER_PDES: nat := ULIM / PTSIZE

  /** The directory entry that points to the directory itself. */
  const SELF: nat := VPT / PTSIZE

  /** `pp_ref` is a `uint16_t`. */
  const REF_LIMIT := 0x1_0000

  /** The most pages that fit between KERNBASE and the top of the address space. */
  const MAX_PAGES := 0x1_0000

  type Page = p: seq<Word> | |p| == NPTENTRIES witness seq(NPTENTRIES, _ => 0)

  function ZeroPage(): (p: Page)
    ensures forall k :: 0 <= k < NPTENTRIES ==> p[k] == 0
  {
    seq(NPTENTRIES, k => 0)
  }

  /** `dir` is the page of `kern_pgdir`, `mem` the physical memory by pages, `ref` the
      `pp_ref` fields and `free` the free list. `reserved` are the pages that were
      taken before `page_init` and never go on the free list. */
  datatype State = State(dir: nat, reserved: set<nat>, mem: seq<Page>, ref: seq<nat>, free: seq<nat>)

  /** A mapping of one page: the physical page and the permission bits. */
  datatype Mapping = Mapping(page: nat, flags: nat)

  /** A pointer to a page table entry. */
  datatype EntryPtr = EntryPtr(table: nat, index: nat)

  // ----- memory and page tables

  function Load(s: State, page: nat, k: nat): Word {
    if page < |s.mem| && k < NPTENTRIES then s.mem[page][k] else 0
  }

  function Store(s: State, page: nat, k: nat, w: Word): State {
    if page < |s.mem| && k < NPTENTRIES then s.(mem := s.mem[page := s.mem[page][k := w]]) else s
  }

  /** `memset` of a page to 0. */
  function Clear(s: State, page: nat): State {
    if page < |s.mem| then s.(mem := s.mem[page := ZeroPage()]) else s
  }

  function Pde(s: State, d: nat): Word {
    Load(s, s.dir, d)
  }

  function Table(s: State, d: nat): nat {
    EntryPage(Pde(s, d))
  }

  function Pte(s: State, d: nat, t: nat): Word {
    Load(s, Table(s, d), t)
  }

  /** The walk that the hardware makes, as `check_va2pa` does it. */
  function Translate(s: State, va: Word): Option<Mapping> {
    if !Present(Pde(s, Pdx(va))) then None
    else
      var pte := Pte(s, Pdx(va), Ptx(va));
      if !Present(pte) then None else Some(Mapping(EntryPage(pte), EntryFlags(pte)))
  }

  // ----- references

  ghost predicate UserEntry(s: State, d: nat) {
    d < USER_PDES && Pde(s, d) != 0
  }

  /** The page table entry `t` of table `d` points to the page `p`. */
  ghost predicate Maps(s: State, d: nat, t: nat, p: nat) {
    UserEntry(s, d) && Pte(s, d, t) != 0 && EntryPage(Pte(s, d, t)) == p
  }

  ghost function PdeRefs(s: State, p: nat): set<nat> {
    set d: nat | d < USER_PDES && Pde(s, d) != 0 && Table(s, d) == p
  }

  ghost function PteRefs(s: State, p: nat): set<(nat, nat)> {
    set d: nat, t: nat | d < USER_PDES && t < NPTENTRIES && Maps(s, d, t, p) :: (d, t)
  }

  /** The pointers to a page that are stored in the tables. */
  ghost function Count(s: State, p: nat): nat {
    |PdeRefs(s, p)| + |PteRefs(s, p)|
  }

  // ----- the invariant

  ghost predicate Sized(s: State) {
    && |s.mem| == |s.ref| <= MAX_PAGES
    && s.dir < |s.mem|
    && forall p :: 0 <= p < |s.ref| ==> s.ref[p] < REF_LIMIT
  }

  /** Every directory entry is empty or points to a page table of its own; the entries
      above the user part are the boot tables and the directory itself. */
  ghost predicate Directory(s: State) {
    && s.dir in s.reserved && 0 in s.reserved
    && (forall d: nat :: d < NPTENTRIES && Pde(s, d) != 0 ==> Present(Pde(s, d)) && Table(s, d) < |s.mem|)
    && (forall d: nat :: d < USER_PDES && Pde(s, d) != 0 ==> Table(s, d) !in s.reserved)
    && (forall d: nat :: USER_PDES <= d < NPTENTRIES ==> Pde(s, d) != 0 && Table(s, d) in s.reserved)
    && (forall d: nat :: d < NPTENTRIES && Pde(s, d) != 0 ==> (Table(s, d) == s.dir <==> d == SELF))
    && forall d: nat, e: nat :: d < NPTENTRIES && e < NPTENTRIES && Pde(s, d) != 0 && Pde(s, e) != 0 && Table(s, d) == Table(s, e) ==> d == e
  }

  /** The non-empty entries of the user tables are present and point to pages that
      the boot code does not own. */
  ghost predicate Mapped(s: State) {
    forall d: nat, t: nat :: UserEntry(s, d) && t < NPTENTRIES && Pte(s, d, t) != 0 ==>
      Present(Pte(s, d, t)) && EntryPage(Pte(s, d, t)) < |s.mem| && EntryPage(Pte(s, d, t)) !in s.reserved
  }

  ghost predicate FreeList(s: State) {
    && (forall i, j :: 0 <= i < j < |s.free| ==> s.free[i] != s.free[j])
    && forall p :: p in s.free ==> p < |s.ref| && p !in s.reserved && s.ref[p] == 0
  }

  /** `pp_ref` is the number of pointers to the page. */
  ghost predicate Counted(s: State) {
    forall p: nat :: p < |s.ref| ==> s.ref[p] == Count(s, p)
  }

  ghost predicate Inv(s: State) {
    Sized(s) && Directory(s) && Mapped(s) && FreeList(s) && Counted(s)
  }

  // ----- transitions
  // A write outside the memory or the `pages` array does nothing here; the class
  // requires, and the invariant ensures, that there are none.

  function SetRef(s: State, p: nat, n: nat): State {
    if p < |s.ref| then s.(ref := s.ref[p := n]) else s
  }

  /** `page_alloc`: the first free page, its `struct Page` cleared. */
  function Alloc(s: State): (State, Option<nat>) {
    if s.free == [] then (s, None)
    else (SetRef(s.(free := s.free[1..]), s.free[0], 0), Some(s.free[0]))
  }

  /** `page_free` */
  function Free(s: State, p: nat): State {
    s.(free := [p] + s.free)
  }

  function RefOf(s: State, p: nat): nat {
    if p < |s.ref| then s.ref[p] else 0
  }

  /** `page_decref`: the count wraps below 0. */
  function DecRef(s: State, p: nat): State {
    var n := (RefOf(s, p) + REF_LIMIT - 1) % REF_LIMIT;
    if n == 0 then Free(SetRef(s, p, n), p) else SetRef(s, p, n)
  }

  /** `pp->pp_ref++`, which wraps at the width of the field. */
  function IncRef(s: State, p: nat): State {
    SetRef(s, p, (RefOf(s, p) + 1) % REF_LIMIT)
  }

  /** A page from the free list becomes the table of directory entry `d`. */
  function Install(s: State, d: nat): State
    requires s.free != []
  {
    var p := s.free[0];
    Clear(SetRef(Store(Alloc(s).0, s.dir, d, Entry(p, PTE_U + PTE_W)), p, 1), p)
  }

  /** `pgdir_walk` */
  function Walk(s: State, va: Word, create: bool): (State, Option<EntryPtr>) {
    if Pde(s, Pdx(va)) != 0 then (s, Some(EntryPtr(Table(s, Pdx(va)), Ptx(va))))
    else if !create || s.free == [] then (s, None)
    else (Install(s, Pdx(va)), Some(EntryPtr(s.free[0], Ptx(va))))
  }

  /** `page_lookup`: the entry is not tested, so an empty one yields page 0. */
  function Lookup(s: State, va: Word): Option<nat> {
    if Pde(s, Pdx(va)) == 0 then None else Some(EntryPage(Pte(s, Pdx(va), Ptx(va))))
  }

  /** `page_remove` */
  function Remove(s: State, va: Word): State {
    match Lookup(s, va)
    case None => s
    case Some(p) => Store(DecRef(s, p), Table(s, Pdx(va)), Ptx(va), 0)
  }

  /** The rest of `page_insert` once the table exists: increment, then remove what was
      there, then write the entry. */
  function Write(s: State, pp: nat, va: Word, perm: nat): State
    requires perm < PGSIZE
  {
    var s1 := IncRef(s, pp);
    var s2 := if Pte(s, Pdx(va), Ptx(va)) != 0 then Remove(s1, va) else s1;
    Store(s2, Table(s, Pdx(va)), Ptx(va), Entry(pp, perm))
  }

  /** `page_insert` */
  function Insert(s: State, pp: nat, va: Word, perm: nat): (State, bool)
    requires perm < PGSIZE
  {
    if Walk(s, va, true).1.None? then (s, false)
    else (Write(Walk(s, va, true).0, pp, va, perm), true)
  }
}
