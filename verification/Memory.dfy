/** Physical memory as an array of words, and the reads and writes of page tables in it. */
module Memory {
  import opened Options
  import opened Mmu
  import opened PageState

  /** The array holds the pages. */
  ghost predicate Holds(mem: array2<Word>, pages: seq<Page>)
    reads mem
  {
    && mem.Length0 == |pages| && mem.Length1 == NPTENTRIES
    && forall p, k :: 0 <= p < |pages| && 0 <= k < NPTENTRIES ==> mem[p, k] == pages[p][k]
  }

  method StoreWord(mem: array2<Word>, ghost pages: seq<Page>, page: nat, k: nat, w: Word) returns (ghost pages': seq<Page>)
    requires Holds(mem, pages) && page < |pages| && k < NPTENTRIES
    modifies mem
    ensures pages' == pages[page := pages[page][k := w]] && Holds(mem, pages')
  {
    mem[page, k] := w;
    pages' := pages[page := pages[page][k := w]];
  }

  /** `memset` of a page to 0. */
  method ClearPage(mem: array2<Word>, ghost pages: seq<Page>, page: nat) returns (ghost pages': seq<Page>)
    requires Holds(mem, pages) && page < |pages|
    modifies mem
    ensures pages' == pages[page := ZeroPage()] && Holds(mem, pages')
  {
    var k := 0;
    while k < NPTENTRIES
      invariant 0 <= k <= NPTENTRIES
      invariant forall p, j :: 0 <= p < |pages| && 0 <= j < NPTENTRIES ==>
                  mem[p, j] == if p == page && j < k then 0 else pages[p][j]
    {
      mem[page, k] := 0;
      k := k + 1;
    }
    pages' := pages[page := ZeroPage()];
  }

  /** What `check_va2pa` answers: -1 for what is not mapped. */
  function PhysicalAddress(s: State, va: Word): Word {
    match Translate(s, va)
    case None => 0xFFFF_FFFF
    case Some(m) => m.page % 0x10_0000 * PGSIZE
  }

  /** `check_va2pa` */
  method CheckVa2Pa(mem: array2<Word>, dir: nat, va: Word, ghost s: State) returns (pa: Word)
    requires Holds(mem, s.mem) && s.dir == dir < |s.mem|
    requires Pde(s, Pdx(va)) != 0 ==> Table(s, Pdx(va)) < |s.mem|
    ensures pa == PhysicalAddress(s, va)
  {
    var pde := mem[dir, Pdx(va)];
    assert pde == Pde(s, Pdx(va));
    if !Present(pde) {
      return 0xFFFF_FFFF;
    }
    var pte := mem[EntryPage(pde), Ptx(va)];
    if !Present(pte) {
      return 0xFFFF_FFFF;
    }
    return EntryPage(pte) * PGSIZE;
  }
}
