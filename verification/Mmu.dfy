/** Addresses, page numbers and page table entries: inc/mmu.h, inc/memlayout.h
    and the conversions of kern/pmap.h. The functions are arithmetic; the lemmas
    show that they are the shifts, masks and ors of the macros. */
module Mmu {
  import opened Bits

  type Word = w: int | 0 <= w < 0x1_0000_0000

  const PGSIZE := 4096
  const NPTENTRIES := 1024
  const PTSIZE := 0x40_0000

  const PTE_P := 1
  const PTE_W := 2
  const PTE_U := 4

  const KERNBASE := 0xF000_0000
  const VPT := KERNBASE - PTSIZE
  const KSTACKTOP := VPT
  const KSTKSIZE := 8 * PGSIZE
  const ULIM := KSTACKTOP - PTSIZE
  const IOPHYSMEM := 0x0A_0000
  const EXTPHYSMEM := 0x10_0000

  /** The number of the page that holds an address. */
  function Pgnum(la: Word): (n: nat)
    ensures n < 0x10_0000
  {
    la / PGSIZE
  }

  /** The page directory index of an address. */
  function Pdx(la: Word): (d: nat)
    ensures d < NPTENTRIES
  {
    la / PTSIZE
  }

  /** The page table index of an address. */
  function Ptx(la: Word): (t: nat)
    ensures t < NPTENTRIES
  {
    la / PGSIZE % NPTENTRIES
  }

  /** The page that an entry points to. */
  function EntryPage(pte: Word): (n: nat)
    ensures n < 0x10_0000
  {
    pte / PGSIZE
  }

  /** The permission bits of an entry. */
  function EntryFlags(pte: Word): (f: nat)
    ensures f < PGSIZE
  {
    pte % PGSIZE
  }

  predicate Present(pte: Word) {
    pte % 2 == 1
  }

  /** `perm | PTE_P` */
  function WithPresent(perm: nat): nat {
    perm + 1 - perm % 2
  }

  /** `page2pa(pp) | PTE_P | perm`: the shift in `page2pa` is one of 32-bit words. */
  function Entry(page: nat, perm: nat): (pte: Word)
    requires perm < PGSIZE
    ensures Present(pte) && EntryFlags(pte) == WithPresent(perm)
    ensures page < 0x10_0000 ==> EntryPage(pte) == page
  {
    page % 0x10_0000 * PGSIZE + WithPresent(perm)
  }

  lemma Powers()
    ensures Pow2(10) == NPTENTRIES && Pow2(12) == PGSIZE && Pow2(22) == PTSIZE
    ensures Pow2(32) == 0x1_0000_0000
  {
    assert Pow2(8) == 256;
    assert Pow2(16) == 65536;
    assert Pow2(24) == 0x100_0000;
  }

  /** `PGNUM`, `PGOFF` and `PTX` */
  lemma PageMacros(la: Word)
    ensures la / Pow2(12) == Pgnum(la)
    ensures And(la, Pow2(12) - 1) == la % PGSIZE
    ensures And(la / Pow2(12), Pow2(10) - 1) == Ptx(la)
  {
    Powers();
    AndLowMask(la / PGSIZE, la % PGSIZE, 12);
    AndLowMask(la / PGSIZE / NPTENTRIES, la / PGSIZE % NPTENTRIES, 10);
  }

  /** `PDX` */
  lemma DirectoryMacro(la: Word)
    ensures And(la / Pow2(22), Pow2(10) - 1) == Pdx(la)
  {
    Powers();
    AndLowMask(0, la / PTSIZE, 10);
  }

  /** The three fields of an address. */
  lemma AddressFields(la: Word)
    ensures la == Pdx(la) * PTSIZE + Ptx(la) * PGSIZE + la % PGSIZE
  {
    assert la / PTSIZE == la / PGSIZE / NPTENTRIES;
  }

  /** `PTE_ADDR` keeps the page of an entry and drops its flags; `PTE_P` tests bit 0. */
  lemma EntryMacros(pte: Word)
    ensures And(pte, 0xFFFF_F000) == EntryPage(pte) * PGSIZE
    ensures And(pte, PTE_P) == if Present(pte) then 1 else 0
  {
    Powers();
    AndHighMask(pte / PGSIZE, pte % PGSIZE, 12, 32);
    assert Pow2(1) == 2;
    AndLowMask(pte / 2, pte % 2, 1);
  }

  /** The entry that `page_insert` and `boot_map_segment` write. */
  lemma EntryIsOr(page: nat, perm: nat)
    requires page < 0x10_0000 && perm < PGSIZE
    ensures Or(Or(page * PGSIZE, PTE_P), perm) == Entry(page, perm)
  {
    hide Or, Pow2;
    Powers();
    OrOne(perm);
    OrOne(0);
    OrZero(1);
    OrZeroOne();
    OrLow(page, 0, 1, 12);
    OrLow(page, 1, perm, 12);
  }

  lemma OrZeroOne()
    ensures Or(0, 1) == 1
  {
  }

  lemma OrOne(perm: nat)
    ensures Or(1, perm) == WithPresent(perm)
  {
    assert Or(0, perm / 2) == perm / 2;
  }

  /** Two addresses are on one page iff they use the same two indices. */
  lemma SamePage(a: Word, b: Word)
    ensures Pgnum(a) == Pgnum(b) <==> Pdx(a) == Pdx(b) && Ptx(a) == Ptx(b)
  {
    assert a / PTSIZE == a / PGSIZE / NPTENTRIES;
    assert b / PTSIZE == b / PGSIZE / NPTENTRIES;
  }
}
