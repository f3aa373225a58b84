/** What the transitions of `PageState` keep and what they achieve. */
module PageInvariant {
  import opened Options
  import opened Mmu
  import opened PageState

  // ----- pointed-to pages are not free

  lemma TableIsReferenced(s: State, d: nat)
    requires UserEntry(s, d)
    ensures Count(s, Table(s, d)) >= 1
  {
    assert d in PdeRefs(s, Table(s, d));
  }

  lemma MappedIsReferenced(s: State, d: nat, t: nat, p: nat)
    requires t < NPTENTRIES && Maps(s, d, t, p)
    ensures Count(s, p) >= 1
  {
    assert (d, t) in PteRefs(s, p);
  }

  /** Parts of the invariant, for proofs that need no more of it. */
  lemma RefIsCount(s: State, p: nat)
    requires Inv(s) && p < |s.ref|
    ensures s.ref[p] == Count(s, p)
  {
  }

  lemma InvTables(s: State)
    requires Inv(s)
    ensures Sized(s) && Directory(s)
  {
  }

  lemma FirstFreePage(s: State)
    requires Inv(s) && s.free != []
    ensures s.free[0] < |s.ref| == |s.mem| <= MAX_PAGES && s.free[0] !in s.reserved && s.free[0] != s.dir && s.ref[s.free[0]] == 0
  {
    assert s.free[0] in s.free;
  }

  lemma TableNotFree(s: State, d: nat)
    requires Inv(s) && d < NPTENTRIES && Pde(s, d) != 0
    ensures Table(s, d) !in s.free && s.dir !in s.free
  {
    if d < USER_PDES {
      TableIsReferenced(s, d);
    }
  }

  // ----- writing one page table entry

  /** `s'` has the tables of `s` but for entry `t` of table `d`, which is `w`. */
  ghost predicate EntrySet(s: State, s': State, d: nat, t: nat, w: Word) {
    && (forall x: nat :: x < NPTENTRIES ==> Pde(s', x) == Pde(s, x))
    && forall x: nat, y: nat :: x < NPTENTRIES && y < NPTENTRIES && Pde(s, x) != 0 ==>
         Pte(s', x, y) == if x == d && y == t then w else Pte(s, x, y)
  }

  lemma StoreSetsEntry(s: State, s': State, d: nat, t: nat, w: Word)
    requires Sized(s) && Directory(s) && UserEntry(s, d) && t < NPTENTRIES
    requires s'.dir == s.dir && s'.mem == Store(s, Table(s, d), t, w).mem
    ensures EntrySet(s, s', d, t, w)
  {
    assert Table(s, d) != s.dir;
    forall x: nat, y: nat | x < NPTENTRIES && y < NPTENTRIES && Pde(s, x) != 0
      ensures Pte(s', x, y) == if x == d && y == t then w else Pte(s, x, y)
    {
      assert Pde(s', x) == Pde(s, x);
      assert Table(s, x) == Table(s, d) ==> x == d;
    }
  }

  lemma OneSlotDifference<T>(a: set<T>, b: set<T>, x: T)
    requires a - {x} == b - {x}
    ensures |b| == |a| - (if x in a then 1 else 0) + (if x in b then 1 else 0)
  {
    assert |a| == |a - {x}| + if x in a then 1 else 0;
    assert |b| == |b - {x}| + if x in b then 1 else 0;
  }

  lemma RefsAfterWrite(s: State, s': State, d: nat, t: nat, w: Word, p: nat)
    requires UserEntry(s, d) && t < NPTENTRIES && EntrySet(s, s', d, t, w)
    ensures PdeRefs(s', p) == PdeRefs(s, p)
    ensures PteRefs(s', p) - {(d, t)} == PteRefs(s, p) - {(d, t)}
    ensures (d, t) in PteRefs(s', p) <==> w != 0 && EntryPage(w) == p
  {
    forall x: nat, y: nat | x < USER_PDES && y < NPTENTRIES && (x, y) != (d, t)
      ensures Maps(s', x, y, p) <==> Maps(s, x, y, p)
    {
      assert Pde(s', x) == Pde(s, x);
    }
  }

  /** The effect of one page table write on a count. */
  lemma CountAfterWrite(s: State, s': State, d: nat, t: nat, w: Word, p: nat)
    requires UserEntry(s, d) && t < NPTENTRIES && EntrySet(s, s', d, t, w)
    ensures Count(s', p) == Count(s, p) - (if Maps(s, d, t, p) then 1 else 0)
                            + (if w != 0 && EntryPage(w) == p then 1 else 0)
  {
    RefsAfterWrite(s, s', d, t, w, p);
    OneSlotDifference(PteRefs(s, p), PteRefs(s', p), (d, t));
    assert (d, t) in PteRefs(s, p) <==> Maps(s, d, t, p);
  }

  lemma DirectoryAfterWrite(s: State, s': State, d: nat, t: nat, w: Word)
    requires Directory(s) && EntrySet(s, s', d, t, w)
    requires s'.dir == s.dir && s'.reserved == s.reserved && |s'.mem| == |s.mem|
    ensures Directory(s')
  {
  }

  lemma MappedAfterWrite(s: State, s': State, d: nat, t: nat, w: Word)
    requires Mapped(s) && EntrySet(s, s', d, t, w) && d < USER_PDES
    requires s'.reserved == s.reserved && |s'.mem| == |s.mem|
    requires w != 0 ==> Present(w) && EntryPage(w) < |s.mem| && EntryPage(w) !in s.reserved
    ensures Mapped(s')
  {
    forall x: nat, y: nat | UserEntry(s', x) && y < NPTENTRIES && Pte(s', x, y) != 0
      ensures Present(Pte(s', x, y)) && EntryPage(Pte(s', x, y)) < |s'.mem| && EntryPage(Pte(s', x, y)) !in s'.reserved
    {
      assert UserEntry(s, x);
    }
  }

  // ----- installing a page table

  lemma InstallTables(s: State, d: nat)
    requires Inv(s) && d < USER_PDES && Pde(s, d) == 0 && s.free != []
    ensures forall x: nat :: x < NPTENTRIES ==>
              Pde(Install(s, d), x) == if x == d then Entry(s.free[0], PTE_U + PTE_W) else Pde(s, x)
    ensures forall x: nat, y: nat :: x < NPTENTRIES && x != SELF && y < NPTENTRIES && Pde(s, x) != 0 ==>
              Pte(Install(s, d), x, y) == Pte(s, x, y)
    ensures forall y: nat :: y < NPTENTRIES ==> Pte(Install(s, d), d, y) == 0
  {
    var p := s.free[0];
    assert p in s.free;
    assert p != s.dir;
    forall x: nat, y: nat | x < NPTENTRIES && x != SELF && y < NPTENTRIES && Pde(s, x) != 0
      ensures Pte(Install(s, d), x, y) == Pte(s, x, y)
    {
      TableNotFree(s, x);
      assert Table(s, x) != s.dir;
    }
  }

  lemma InstallCount(s: State, d: nat, p: nat)
    requires Inv(s) && d < USER_PDES && Pde(s, d) == 0 && s.free != []
    ensures Count(Install(s, d), p) == Count(s, p) + if p == s.free[0] then 1 else 0
  {
    hide Inv, Install;
    InstallTables(s, d);
    FirstFreePage(s);
    var s' := Install(s, d);
    assert PdeRefs(s', p) == PdeRefs(s, p) + if p == s.free[0] then {d} else {};
    assert PteRefs(s', p) == PteRefs(s, p);
  }

  /** `pgdir_walk` keeps the invariant. */
  lemma WalkKeepsInv(s: State, va: Word, create: bool)
    requires Inv(s) && va < ULIM
    ensures Inv(Walk(s, va, create).0)
  {
    hide Install, Directory, Mapped, FreeList, Counted, Sized;
    var d := Pdx(va);
    if Pde(s, d) == 0 && create && s.free != [] {
      InstallKeepsTables(s, d);
      InstallKeepsCounts(s, d);
    }
  }

  lemma InstallKeepsTables(s: State, d: nat)
    requires Inv(s) && d < USER_PDES && Pde(s, d) == 0 && s.free != []
    ensures Directory(Install(s, d)) && Mapped(Install(s, d))
  {
    var s', p := Install(s, d), s.free[0];
    InstallTables(s, d);
    FirstFreePage(s);
    forall x: nat | x < NPTENTRIES && Pde(s, x) != 0 ensures Table(s, x) != p {
      TableNotFree(s, x);
    }
    hide Install, FreeList, Counted, Count;
    forall x: nat, y: nat | UserEntry(s', x) && y < NPTENTRIES && Pte(s', x, y) != 0
      ensures Present(Pte(s', x, y)) && EntryPage(Pte(s', x, y)) < |s'.mem| && EntryPage(Pte(s', x, y)) !in s'.reserved
    {
      assert UserEntry(s, x);
    }
  }

  lemma InstallKeepsCounts(s: State, d: nat)
    requires Inv(s) && d < USER_PDES && Pde(s, d) == 0 && s.free != []
    ensures var s' := Install(s, d); Sized(s') && FreeList(s') && Counted(s')
  {
    var s', p := Install(s, d), s.free[0];
    assert p in s.free;
    forall q: nat | q < |s'.ref| ensures s'.ref[q] == Count(s', q) {
      InstallCount(s, d, q);
    }
    hide Directory, Mapped, Count;
    forall q | q in s'.free ensures q in s.free && q != p {
      var i :| 0 <= i < |s'.free| && s'.free[i] == q;
      assert s.free[i + 1] == q;
    }
  }

  // ----- allocation

  /** `page_alloc` keeps the invariant and hands out a page that nothing points to. */
  lemma AllocKeepsInv(s: State)
    requires Inv(s)
    ensures Inv(Alloc(s).0)
    ensures Alloc(s).1.None? <==> s.free == []
    ensures Alloc(s).1.Some? ==> var p := Alloc(s).1.value;
              s.free == [p] + Alloc(s).0.free && p !in Alloc(s).0.free && Count(s, p) == 0 && p !in s.reserved
    ensures Alloc(s).0.ref == s.ref && Alloc(s).0.mem == s.mem
  {
    var s' := Alloc(s).0;
    if s.free != [] {
      assert s.free[0] in s.free;
      assert s'.ref == s.ref;
      forall q | q in s'.free ensures q in s.free && q != s.free[0] {
        var i :| 0 <= i < |s'.free| && s'.free[i] == q;
        assert s.free[i + 1] == q;
      }
      assert FreeList(s');
    }
    SameTables(s, s');
  }

  lemma SameTables(s: State, s': State)
    requires s'.dir == s.dir && s'.mem == s.mem
    ensures forall p :: Count(s', p) == Count(s, p)
    ensures s'.reserved == s.reserved && Directory(s) ==> Directory(s')
    ensures s'.reserved == s.reserved && Mapped(s) ==> Mapped(s')
  {
    assert forall x :: Pde(s', x) == Pde(s, x);
    assert forall x, y :: Pte(s', x, y) == Pte(s, x, y);
    forall p ensures Count(s', p) == Count(s, p) {
      assert PdeRefs(s', p) == PdeRefs(s, p);
      assert PteRefs(s', p) == PteRefs(s, p);
    }
    forall x: nat, y: nat | Mapped(s) && UserEntry(s', x) && y < NPTENTRIES && Pte(s', x, y) != 0
      ensures Present(Pte(s', x, y)) && EntryPage(Pte(s', x, y)) < |s.mem| && EntryPage(Pte(s', x, y)) !in s.reserved
    {
      assert UserEntry(s, x);
    }
  }

  /** `page_free` keeps the invariant exactly when the page came from `page_alloc`, is
      not free already and is not referenced. */
  lemma FreeKeepsInv(s: State, p: nat)
    requires Inv(s)
    ensures Inv(Free(s, p)) <==> p < |s.ref| && p !in s.reserved && p !in s.free && s.ref[p] == 0
  {
    var s' := Free(s, p);
    SameTables(s, s');
    assert p == s'.free[0];
    forall q | q in s.free ensures q in s'.free {
      var i :| 0 <= i < |s.free| && s.free[i] == q;
      assert s'.free[i + 1] == q;
    }
    if p in s.free {
      var i :| 0 <= i < |s.free| && s.free[i] == p;
      assert s'.free[0] == s'.free[i + 1];
    }
  }

  // ----- page_insert

  /** What a client of `page_insert` has to respect. A page that is free, or that the
      boot code owns, must not be mapped; a count of 65535 cannot grow. */
  ghost predicate Mappable(s: State, pp: nat) {
    pp < |s.ref| && pp !in s.free && pp !in s.reserved
  }

  /** The virtual address already maps the page. */
  ghost predicate MapsAt(s: State, va: Word, p: nat) {
    Maps(s, Pdx(va), Ptx(va), p)
  }

  /** The state that `page_insert` leaves once the table is there. */
  lemma WriteEffect(s: State, pp: nat, va: Word, perm: nat)
    requires Inv(s) && va < ULIM && perm < PGSIZE && UserEntry(s, Pdx(va)) && Mappable(s, pp)
    ensures var s' := Write(s, pp, va, perm);
            var was := Pte(s, Pdx(va), Ptx(va));
            var q := EntryPage(was);
            && s'.dir == s.dir && s'.reserved == s.reserved
            && s'.mem == Store(s, Table(s, Pdx(va)), Ptx(va), Entry(pp, perm)).mem
            && (was == 0 ==> s'.free == s.free && s'.ref == s.ref[pp := (s.ref[pp] + 1) % REF_LIMIT])
            && (was != 0 && q == pp ==> s'.free == s.free && s'.ref == s.ref)
            && (was != 0 && q != pp ==>
                  && q < |s.ref| && s.ref[q] > 0 && q !in s.free && q !in s.reserved
                  && s'.ref == s.ref[pp := (s.ref[pp] + 1) % REF_LIMIT][q := s.ref[q] - 1]
                  && s'.free == if s.ref[q] == 1 then [q] + s.free else s.free)
  {
    hide EntryPage, Entry, Present, Count, Directory;
    var d, t := Pdx(va), Ptx(va);
    var was := Pte(s, d, t);
    var q := EntryPage(was);
    var s1 := IncRef(s, pp);
    assert Pte(s1, d, t) == was;
    if was != 0 {
      assert Maps(s, d, t, q);
      MappedIsReferenced(s, d, t, q);
      var s2 := DecRef(s1, q);
      assert s2.mem == s.mem;
      assert Remove(s1, va) == Store(s2, Table(s, d), t, 0);
      StoreTwice(s2, Table(s, d), t, 0, Entry(pp, perm));
      WrappedRefs(s.ref[pp]);
      WrappedRefs(s.ref[q]);
      assert s.ref[pp := s.ref[pp]] == s.ref;
    }
  }

  lemma StoreTwice(s: State, page: nat, k: nat, v: Word, w: Word)
    ensures Store(Store(s, page, k, v), page, k, w) == Store(s, page, k, w)
  {
    if page < |s.mem| && k < NPTENTRIES {
      assert s.mem[page][k := v][k := w] == s.mem[page][k := w];
      assert s.mem[page := s.mem[page][k := v]][page := s.mem[page][k := w]] == s.mem[page := s.mem[page][k := w]];
    }
  }

  /** Counting up and then down is the identity, across the wrap too. */
  lemma WrappedRefs(n: nat)
    requires n < REF_LIMIT
    ensures ((n + 1) % REF_LIMIT + REF_LIMIT - 1) % REF_LIMIT == n
    ensures n > 0 ==> (n + REF_LIMIT - 1) % REF_LIMIT == n - 1
  {
  }

  lemma WriteCounts(s: State, pp: nat, va: Word, perm: nat, p: nat)
    requires Inv(s) && va < ULIM && perm < PGSIZE && UserEntry(s, Pdx(va)) && Mappable(s, pp)
    ensures EntrySet(s, Write(s, pp, va, perm), Pdx(va), Ptx(va), Entry(pp, perm))
    ensures Count(Write(s, pp, va, perm), p)
         == Count(s, p) - (if MapsAt(s, va, p) then 1 else 0) + (if p == pp then 1 else 0)
  {
    var d, t := Pdx(va), Ptx(va);
    var s' := Write(s, pp, va, perm);
    WriteEffect(s, pp, va, perm);
    StoreSetsEntry(s, s', d, t, Entry(pp, perm));
    CountAfterWrite(s, s', d, t, Entry(pp, perm), p);
  }

  /** Only the count of the page itself can come out wrong. */
  lemma WriteKeepsCount(s: State, pp: nat, va: Word, perm: nat, p: nat)
    requires Inv(s) && va < ULIM && perm < PGSIZE && UserEntry(s, Pdx(va)) && Mappable(s, pp) && p < |s.ref|
    ensures var s' := Write(s, pp, va, perm);
            && |s'.ref| == |s.ref|
            && (s'.ref[p] == Count(s', p) <==> p != pp || s.ref[pp] < REF_LIMIT - 1 || MapsAt(s, va, pp))
  {
    hide Inv, Write, Count, Entry, Store;
    WriteEffect(s, pp, va, perm);
    WriteCounts(s, pp, va, perm, p);
    RefIsCount(s, p);
  }

  lemma WriteKeepsCounted(s: State, pp: nat, va: Word, perm: nat)
    requires Inv(s) && va < ULIM && perm < PGSIZE && UserEntry(s, Pdx(va)) && Mappable(s, pp)
    ensures Counted(Write(s, pp, va, perm)) <==> s.ref[pp] < REF_LIMIT - 1 || MapsAt(s, va, pp)
  {
    hide Inv, Write, Count, MapsAt;
    var s' := Write(s, pp, va, perm);
    WriteKeepsCount(s, pp, va, perm, pp);
    forall p: nat | p < |s'.ref|
      ensures s'.ref[p] == Count(s', p) <==> p != pp || s.ref[pp] < REF_LIMIT - 1 || MapsAt(s, va, pp)
    {
      WriteKeepsCount(s, pp, va, perm, p);
    }
  }

  lemma WriteKeepsFreeList(s: State, pp: nat, va: Word, perm: nat)
    requires Inv(s) && va < ULIM && perm < PGSIZE && UserEntry(s, Pdx(va)) && Mappable(s, pp)
    ensures FreeList(Write(s, pp, va, perm)) && Sized(Write(s, pp, va, perm))
  {
    hide Write, Directory, Mapped, Counted, Entry;
    WriteEffect(s, pp, va, perm);
  }

  /** Writing the entry keeps the invariant exactly when the 16-bit count of the page
      does not overflow. */
  lemma WriteKeepsInv(s: State, pp: nat, va: Word, perm: nat)
    requires Inv(s) && va < ULIM && perm < PGSIZE && UserEntry(s, Pdx(va)) && Mappable(s, pp)
    ensures Inv(Write(s, pp, va, perm)) <==> s.ref[pp] < REF_LIMIT - 1 || MapsAt(s, va, pp)
  {
    var s' := Write(s, pp, va, perm);
    WriteEffect(s, pp, va, perm);
    WriteCounts(s, pp, va, perm, pp);
    WriteKeepsCounted(s, pp, va, perm);
    WriteKeepsFreeList(s, pp, va, perm);
    DirectoryAfterWrite(s, s', Pdx(va), Ptx(va), Entry(pp, perm));
    MappedAfterWrite(s, s', Pdx(va), Ptx(va), Entry(pp, perm));
  }

  /** `page_insert` keeps the invariant, unless it adds a reference to a page that has
      65535 of them already. */
  lemma InsertKeepsInv(s: State, pp: nat, va: Word, perm: nat)
    requires Inv(s) && va < ULIM && perm < PGSIZE && Mappable(s, pp)
    ensures Inv(Insert(s, pp, va, perm).0) <==>
              !Insert(s, pp, va, perm).1 || s.ref[pp] < REF_LIMIT - 1 || MapsAt(s, va, pp)
  {
    var s1 := Walk(s, va, true).0;
    WalkKeepsInv(s, va, true);
    if Insert(s, pp, va, perm).1 {
      WalkForInsert(s, pp, va);
      WriteKeepsInv(s1, pp, va, perm);
    }
  }

  lemma WalkForInsert(s: State, pp: nat, va: Word)
    requires Inv(s) && va < ULIM && Mappable(s, pp) && Walk(s, va, true).1.Some?
    ensures var s1 := Walk(s, va, true).0;
            UserEntry(s1, Pdx(va)) && Mappable(s1, pp) && s1.ref[pp] == s.ref[pp]
            && (forall p :: MapsAt(s1, va, p) <==> MapsAt(s, va, p))
  {
    if Pde(s, Pdx(va)) == 0 {
      InstallTables(s, Pdx(va));
      assert s.free[0] in s.free;
    }
  }

  /** A failing `page_insert` is one that needs a table when no page is free, and it
      changes nothing. */
  lemma InsertFails(s: State, pp: nat, va: Word, perm: nat)
    requires perm < PGSIZE
    ensures !Insert(s, pp, va, perm).1 <==> Pde(s, Pdx(va)) == 0 && s.free == []
    ensures !Insert(s, pp, va, perm).1 ==> Insert(s, pp, va, perm).0 == s
  {
  }

  // ----- page_remove

  /** `page_remove` of a mapped address. */
  lemma RemoveEffect(s: State, va: Word)
    requires Inv(s) && va < ULIM && UserEntry(s, Pdx(va)) && Pte(s, Pdx(va), Ptx(va)) != 0
    ensures var s' := Remove(s, va);
            var q := EntryPage(Pte(s, Pdx(va), Ptx(va)));
            && s'.dir == s.dir && s'.reserved == s.reserved
            && s'.mem == Store(s, Table(s, Pdx(va)), Ptx(va), 0).mem
            && q < |s.ref| && s.ref[q] > 0 && q !in s.free && q !in s.reserved
            && s'.ref == s.ref[q := s.ref[q] - 1]
            && s'.free == if s.ref[q] == 1 then [q] + s.free else s.free
  {
    var d, t := Pdx(va), Ptx(va);
    assert Maps(s, d, t, EntryPage(Pte(s, d, t)));
    MappedIsReferenced(s, d, t, EntryPage(Pte(s, d, t)));
  }

  lemma RemoveMappedKeepsInv(s: State, va: Word)
    requires Inv(s) && va < ULIM && UserEntry(s, Pdx(va)) && Pte(s, Pdx(va), Ptx(va)) != 0
    ensures Inv(Remove(s, va))
  {
    var d, t := Pdx(va), Ptx(va);
    var s' := Remove(s, va);
    RemoveEffect(s, va);
    StoreSetsEntry(s, s', d, t, 0);
    DirectoryAfterWrite(s, s', d, t, 0);
    MappedAfterWrite(s, s', d, t, 0);
    assert Counted(s') by {
      forall p: nat | p < |s'.ref| ensures s'.ref[p] == Count(s', p) {
        CountAfterWrite(s, s', d, t, 0, p);
      }
    }
    assert FreeList(s');
  }

  lemma RemoveEmptyBreaksCount(s: State, va: Word)
    requires Inv(s) && va < ULIM && UserEntry(s, Pdx(va)) && Pte(s, Pdx(va), Ptx(va)) == 0
    ensures Remove(s, va).ref[0] == (s.ref[0] + REF_LIMIT - 1) % REF_LIMIT
    ensures Count(Remove(s, va), 0) == Count(s, 0)
  {
    var s' := Remove(s, va);
    assert s'.mem == Store(s, Table(s, Pdx(va)), Ptx(va), 0).mem;
    StoreSetsEntry(s, s', Pdx(va), Ptx(va), 0);
    CountAfterWrite(s, s', Pdx(va), Ptx(va), 0, 0);
  }

  /** `page_remove` keeps the invariant exactly when the address is mapped or has no
      page table. With a table and an empty entry it takes a reference from page 0. */
  lemma RemoveKeepsInv(s: State, va: Word)
    requires Inv(s) && va < ULIM
    ensures Inv(Remove(s, va)) <==> Pde(s, Pdx(va)) == 0 || Pte(s, Pdx(va), Ptx(va)) != 0
  {
    if Pde(s, Pdx(va)) == 0 {
      assert Remove(s, va) == s;
    } else if Pte(s, Pdx(va), Ptx(va)) != 0 {
      RemoveMappedKeepsInv(s, va);
    } else {
      RemoveEmptyBreaksCount(s, va);
      assert Remove(s, va).ref[0] != Count(Remove(s, va), 0);
    }
  }

  // ----- contents of pages

  /** The page is no page table and not the directory. */
  ghost predicate IsData(s: State, p: nat) {
    p < |s.mem| && p != s.dir && forall d: nat :: d < NPTENTRIES && Pde(s, d) != 0 ==> Table(s, d) != p
  }

  /** The contents of pages that are in use and no tables do not change, even when a table is
      installed. */
  lemma WalkKeepsContents(s: State, va: Word, create: bool, p: nat)
    requires Inv(s) && va < ULIM && IsData(s, p) && p !in s.free
    ensures |Walk(s, va, create).0.mem| == |s.mem|
    ensures Walk(s, va, create).0.mem[p] == s.mem[p] && IsData(Walk(s, va, create).0, p)
  {
    if Pde(s, Pdx(va)) == 0 && create && s.free != [] {
      assert s.free[0] in s.free;
      InstallTables(s, Pdx(va));
      FirstFreePage(s);
    }
  }

  lemma InsertKeepsContents(s: State, pp: nat, va: Word, perm: nat, p: nat)
    requires Inv(s) && va < ULIM && perm < PGSIZE && Mappable(s, pp) && IsData(s, p) && p !in s.free
    ensures |Insert(s, pp, va, perm).0.mem| == |s.mem| && Insert(s, pp, va, perm).0.mem[p] == s.mem[p]
  {
    hide Inv, Walk, Write;
    InsertFails(s, pp, va, perm);
    var s1 := Walk(s, va, true).0;
    WalkKeepsContents(s, va, true, p);
    WalkKeepsInv(s, va, true);
    if Insert(s, pp, va, perm).1 {
      WalkForInsert(s, pp, va);
      InvTables(s1);
      WriteEffect(s1, pp, va, perm);
      assert Table(s1, Pdx(va)) != p;
    }
  }

  lemma RemoveKeepsContents(s: State, va: Word, p: nat)
    requires Inv(s) && va < ULIM && IsData(s, p)
    ensures |Remove(s, va).mem| == |s.mem| && Remove(s, va).mem[p] == s.mem[p]
  {
  }
}
