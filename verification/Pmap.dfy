/** The `page_` functions of kern/pmap.c, in place: every method does to the arrays what
    the transition of the same name in `PageState` does to the value they represent. */
module Pmap {
  import opened Options
  import opened Mmu
  import opened Queue
  import opened PageState
  import Memory
  import opened PageInvariant

  const E_NO_MEM := 4

  /** The head variable `page_free_list`. */
  const FREE_LIST := 0

  /** The tables are inside memory, as `KADDR` demands, and the directory is in use. */
  ghost predicate Walkable(s: State) {
    && s.dir !in s.free
    && forall d: nat :: d < NPTENTRIES && Pde(s, d) != 0 ==> Table(s, d) < |s.mem|
  }

  lemma EntryReplaceable(s: State, pp: nat, va: Word)
    requires Inv(s) && va < ULIM && Mappable(s, pp) && Walk(s, va, true).1.Some?
    ensures var s1 := Walk(s, va, true).0;
            var w := Pte(s1, Pdx(va), Ptx(va));
            && Walkable(s1) && pp < |s1.ref| && Pde(s1, Pdx(va)) != 0
            && Walk(s, va, true).1 == Some(EntryPtr(Table(s1, Pdx(va)), Ptx(va)))
            && (w != 0 ==> EntryPage(w) < |s1.mem| && EntryPage(w) !in s1.free)
            && forall p :: p in s1.free ==> p in s.free
  {
    var s1 := Walk(s, va, true).0;
    WalkKeepsInv(s, va, true);
    WalkForInsert(s, pp, va);
    if Pte(s1, Pdx(va), Ptx(va)) != 0 {
      RemoveEffect(s1, va);
    }
    if Pde(s, Pdx(va)) == 0 {
      InstallTables(s, Pdx(va));
      assert s.free[0] in s.free;
    }
  }

  class Pmap {
    /** Physical memory, by pages and words. */
    const mem: array2<Word>
    /** The page that holds `kern_pgdir`. */
    const dir: nat
    /** `pages[]`: the `pp_ref` and the `pp_link` fields, and `page_free_list`. */
    const ppRef: array<nat>
    const lists: ListMemory

    ghost const reserved: set<nat>
    ghost var pages: seq<Page>
    ghost var free: seq<nat>

    ghost predicate Valid()
      reads this, mem, ppRef, lists.links, lists.heads
    {
      && |pages| == ppRef.Length == lists.links.Length <= MAX_PAGES
      && dir < |pages| && lists.heads.Length == 1
      && Memory.Holds(mem, pages)
      && Represents(lists.links[..], lists.heads[..], [free])
    }

    /** The value that the arrays represent. */
    ghost function Value(): (s: State)
      reads this, ppRef
    {
      State(dir, reserved, pages, ppRef[..], free)
    }

    /** Takes over the memory that the boot code set up. */
    constructor (mem: array2<Word>, dir: nat, ghost reserved: set<nat>, ghost pages: seq<Page>)
      requires Memory.Holds(mem, pages) && |pages| <= MAX_PAGES && dir < |pages|
      ensures Valid() && fresh(ppRef) && fresh(lists.links) && fresh(lists.heads)
      ensures this.mem == mem
      ensures Value() == State(dir, reserved, pages, seq(|pages|, _ => 0), [])
    {
      this.mem, this.dir := mem, dir;
      this.reserved, this.pages, this.free := reserved, pages, [];
      ppRef := new nat[mem.Length0](_ => 0);
      lists := new ListMemory(mem.Length0, 1);
    }

    /** A store to one word of physical memory. */
    method SetEntry(table: nat, index: nat, w: Word)
      requires Valid() && table < |pages| && index < NPTENTRIES
      modifies this`pages, mem
      ensures Valid() && Value() == Store(old(Value()), table, index, w)
    {
      pages := Memory.StoreWord(mem, pages, table, index, w);
    }

    /** `memset(pte, 0, PGSIZE)` */
    method ClearPage(page: nat)
      requires Valid() && page < |pages|
      modifies this`pages, mem
      ensures Valid() && Value() == Clear(old(Value()), page)
    {
      pages := Memory.ClearPage(mem, pages, page);
    }

    method PageAlloc() returns (r: int, pp: Option<nat>)
      requires Valid()
      modifies this`free, ppRef, lists.links, lists.heads
      ensures Valid() && (Value(), pp) == Alloc(old(Value()))
      ensures r == if pp.Some? then 0 else -E_NO_MEM
      ensures pp.Some? ==> pp.value < |pages|
      ensures forall x :: 0 <= x < |pages| && x !in old(free) ==> lists.links[x] == old(lists.links[x])
    {
      assert IsList(lists.links[..], lists.heads[FREE_LIST], FREE_LIST, [free][0]);
      if lists.heads[FREE_LIST] == Null {
        return -E_NO_MEM, None;
      }
      var p := lists.heads[FREE_LIST].elm;
      lists.Remove(p, [free], FREE_LIST, 0);
      free := free[1..];
      assert Removed(old(free), 0) == free;
      assert [old(free)][FREE_LIST := free] == [free];
      ppRef[p] := 0;
      lists.ClearLink(p, [free]);
      return 0, Some(p);
    }

    method PageFree(pp: nat)
      requires Valid() && pp < |pages| && pp !in free
      modifies this`free, lists.links, lists.heads
      ensures Valid() && Value() == Free(old(Value()), pp)
      ensures forall x :: 0 <= x < |pages| && x !in free ==> lists.links[x] == old(lists.links[x])
    {
      lists.InsertHead(FREE_LIST, pp, [free]);
      assert [free][FREE_LIST := [pp] + free] == [[pp] + free];
      free := [pp] + free;
    }

    method PageDecref(pp: nat)
      requires Valid() && pp < |pages| && pp !in free
      modifies this`free, ppRef, lists.links, lists.heads
      ensures Valid() && Value() == DecRef(old(Value()), pp)
      ensures forall x :: 0 <= x < |pages| && x !in free ==> lists.links[x] == old(lists.links[x])
    {
      ppRef[pp] := (ppRef[pp] + REF_LIMIT - 1) % REF_LIMIT;
      if ppRef[pp] == 0 {
        PageFree(pp);
      }
    }

    method PgdirWalk(va: Word, create: bool) returns (pte: Option<EntryPtr>)
      requires Valid() && Walkable(Value())
      modifies this, mem, ppRef, lists.links, lists.heads
      ensures Valid() && (Value(), pte) == Walk(old(Value()), va, create)
      ensures pte.Some? ==> pte.value.table < |pages| && pte.value.index < NPTENTRIES
      ensures forall x :: 0 <= x < |pages| && (x !in old(free) || !create) ==> lists.links[x] == old(lists.links[x])
    {
      if mem[dir, Pdx(va)] == 0 {
        if !create {
          return None;
        }
        var r, pp := PageAlloc();
        if r != 0 {
          return None;
        }
        SetEntry(dir, Pdx(va), Entry(pp.value, PTE_U + PTE_W));
        ppRef[pp.value] := 1;
        ClearPage(pp.value);
      }
      return Some(EntryPtr(EntryPage(mem[dir, Pdx(va)]), Ptx(va)));
    }

    method PageLookup(va: Word) returns (pp: Option<nat>, pte: Option<EntryPtr>)
      requires Valid() && Walkable(Value())
      modifies this, mem, ppRef, lists.links, lists.heads
      ensures Valid() && Value() == old(Value()) && pp == Lookup(Value(), va)
      ensures pte == Walk(Value(), va, false).1
      ensures pte.Some? ==> pte.value.table < |pages| && pte.value.index < NPTENTRIES
      ensures lists.links[..] == old(lists.links[..])
    {
      pte := PgdirWalk(va, false);
      pp := if pte.None? then None else Some(EntryPage(mem[pte.value.table, pte.value.index]));
    }

    method PageRemove(va: Word)
      requires Valid() && Walkable(Value())
      requires Lookup(Value(), va).Some? ==> Lookup(Value(), va).value < |pages| && Lookup(Value(), va).value !in free
      modifies this, mem, ppRef, lists.links, lists.heads
      ensures Valid() && Value() == Remove(old(Value()), va)
      ensures forall x :: 0 <= x < |pages| && x !in free ==> lists.links[x] == old(lists.links[x])
    {
      var pp, pte := PageLookup(va);
      if pp.None? {
        return;
      }
      PageDecref(pp.value);
      SetEntry(pte.value.table, pte.value.index, 0);
    }

    /** The second half of `page_insert`. The code tests `(*pte && PTE_P) != 0`, which is
        true of every non-zero entry. */
    method ReplaceEntry(pte: EntryPtr, pp: nat, va: Word, perm: nat)
      requires Valid() && Walkable(Value()) && pp < |pages| && perm < PGSIZE
      requires Pde(Value(), Pdx(va)) != 0 && pte == EntryPtr(Table(Value(), Pdx(va)), Ptx(va))
      requires var w := Pte(Value(), Pdx(va), Ptx(va)); w != 0 ==> EntryPage(w) < |pages| && EntryPage(w) !in free
      modifies this, mem, ppRef, lists.links, lists.heads
      ensures Valid() && Value() == Write(old(Value()), pp, va, perm)
      ensures forall x :: 0 <= x < |pages| && x !in free ==> lists.links[x] == old(lists.links[x])
    {
      ppRef[pp] := (ppRef[pp] + 1) % REF_LIMIT;
      assert Value() == IncRef(old(Value()), pp);
      assert forall d :: Pde(Value(), d) == Pde(old(Value()), d);
      if mem[pte.table, pte.index] != 0 {
        PageRemove(va);
      }
      SetEntry(pte.table, pte.index, Entry(pp, perm));
    }

    method PageInsert(pp: nat, va: Word, perm: nat) returns (r: int)
      requires Valid() && Inv(Value())
      requires va < ULIM && perm < PGSIZE && Mappable(Value(), pp)
      modifies this, mem, ppRef, lists.links, lists.heads
      ensures Valid() && (Value(), r == 0) == Insert(old(Value()), pp, va, perm)
      ensures r == 0 || r == -E_NO_MEM
      ensures forall x :: 0 <= x < |pages| && x !in old(free) && x !in free ==> lists.links[x] == old(lists.links[x])
    {
      var pte := PgdirWalk(va, true);
      if pte.None? {
        return -E_NO_MEM;
      }
      EntryReplaceable(old(Value()), pp, va);
      ReplaceEntry(pte.value, pp, va, perm);
      return 0;
    }

    /** `check_va2pa(kern_pgdir, va)` */
    method CheckVa2Pa(va: Word) returns (pa: Word)
      requires Valid() && Walkable(Value())
      ensures pa == Memory.PhysicalAddress(Value(), va)
    {
      pa := Memory.CheckVa2Pa(mem, dir, va, Value());
    }
  }
}
