/** `page_check` of kern/pmap.c: every assertion of the kernel's own test holds, and the
    test gives back what it took. */
module PageCheck {
  import opened Options
  import opened Mmu
  import opened Queue
  import opened PageState
  import opened PageInvariant
  import opened Pmap

  // ----- the states that the test goes through

  /** The three pages that the test takes. */
  datatype Trio = Trio(p0: nat, p1: nat, p2: nat)

  /** The state before the test, and the three pages. */
  ghost predicate Start(base: State, ps: Trio) {
    && Inv(base) && |base.free| >= 3 && base.free[..3] == [ps.p0, ps.p1, ps.p2]
    && Pde(base, 0) == 0 && Pde(base, 1) == 0
  }

  lemma StartPages(base: State, ps: Trio)
    requires Start(base, ps)
    ensures base.free == [ps.p0, ps.p1, ps.p2] + base.free[3..]
    ensures ps.p0 < |base.ref| && ps.p1 < |base.ref| && ps.p2 < |base.ref|
    ensures ps.p0 != ps.p1 && ps.p0 != ps.p2 && ps.p1 != ps.p2
    ensures ps.p0 !in base.reserved && ps.p1 !in base.reserved && ps.p2 !in base.reserved
    ensures base.dir != ps.p0 && base.dir < |base.mem| == |base.ref| <= MAX_PAGES
    ensures base.ref[ps.p0] == 0 && base.ref[ps.p1] == 0 && base.ref[ps.p2] == 0
    ensures forall x :: x in base.free[3..] ==> x < |base.ref| && x != ps.p0 && x != ps.p1 && x != ps.p2
  {
    assert base.free[0] == base.free[..3][0] && base.free[1] == base.free[..3][1] && base.free[2] == base.free[..3][2];
    assert base.free[0] in base.free && base.free[1] in base.free && base.free[2] in base.free;
    forall x | x in base.free[3..] ensures x in base.free && x != ps.p0 && x != ps.p1 && x != ps.p2 {
      var i :| 0 <= i < |base.free| - 3 && base.free[3..][i] == x;
      assert x == base.free[i + 3];
    }
  }

  /** The page table of the test, with entries for the addresses 0 and PGSIZE. */
  function TestTable(e0: Word, e1: Word): Page {
    ZeroPage()[0 := e0][1 := e1]
  }

  /** Where the test is: the entries for the addresses 0 and PGSIZE, the counts of `p1` and
      `p2`, and the free list. */
  datatype Phase = Phase(e0: Word, e1: Word, r1: nat, r2: nat, free: seq<nat>)

  function NoneMapped(free: seq<nat>): Phase {
    Phase(0, 0, 0, 0, free)
  }

  function FirstMapped(ps: Trio): Phase {
    Phase(Entry(ps.p1, 0), 0, 1, 0, [])
  }

  function BothMapped(ps: Trio): Phase {
    Phase(Entry(ps.p1, 0), Entry(ps.p2, 0), 1, 1, [])
  }

  function Replaced(ps: Trio, free: seq<nat>): Phase {
    Phase(Entry(ps.p1, 0), Entry(ps.p1, 0), 2, 0, free)
  }

  function FirstRemoved(ps: Trio): Phase {
    Phase(0, Entry(ps.p1, 0), 1, 0, [])
  }

  /** `base` with the test's table in page `p0` behind directory entry 0 and its count 1. */
  ghost function Scene(base: State, ps: Trio, c: Phase): State
    requires Start(base, ps)
  {
    StartPages(base, ps);
    State(base.dir, base.reserved,
          base.mem[base.dir := base.mem[base.dir][0 := Entry(ps.p0, PTE_U + PTE_W)]][ps.p0 := TestTable(c.e0, c.e1)],
          base.ref[ps.p0 := 1][ps.p1 := c.r1][ps.p2 := c.r2], c.free)
  }

  lemma SceneTables(base: State, ps: Trio, c: Phase)
    requires Start(base, ps)
    ensures var s := Scene(base, ps, c);
            && Table(s, 0) == ps.p0 && Pde(s, 0) != 0 && Pde(s, 1) == 0
            && Pte(s, 0, 0) == c.e0 && Pte(s, 0, 1) == c.e1
            && Pdx(0) == 0 && Ptx(0) == 0 && Pdx(PGSIZE) == 0 && Ptx(PGSIZE) == 1 && Pdx(PTSIZE) == 1
            && |s.ref| == |base.ref| && ps.p0 < |s.ref| && ps.p1 < |s.ref| && ps.p2 < |s.ref|
            && s.ref[ps.p0] == 1 && s.ref[ps.p1] == c.r1 && s.ref[ps.p2] == c.r2
            && s.free == c.free && s.reserved == base.reserved && s.dir == base.dir && |s.mem| == |base.mem|
  {
    StartPages(base, ps);
  }

  /** What `check_va2pa` answers for an entry. */
  function Answer(w: Word): Word {
    if Present(w) then EntryPage(w) * PGSIZE else 0xFFFF_FFFF
  }

  lemma SceneAnswers(base: State, ps: Trio, c: Phase)
    requires Start(base, ps) && Inv(Scene(base, ps, c))
    ensures var s := Scene(base, ps, c);
            && Walkable(s)
            && Translate(s, 0) == (if Present(c.e0) then Some(Mapping(EntryPage(c.e0), EntryFlags(c.e0))) else None)
            && Translate(s, PGSIZE) == (if Present(c.e1) then Some(Mapping(EntryPage(c.e1), EntryFlags(c.e1))) else None)
  {
    var s := Scene(base, ps, c);
    SceneTables(base, ps, c);
    InvWalkable(s);
  }

  /** The tables of a good state can be walked. */
  lemma InvWalkable(s: State)
    requires Inv(s)
    ensures Walkable(s)
  {
    TableNotFree(s, SELF);
  }

  // ----- the steps of the test, on values

  /** With the rest of the free list stolen, `p0` is the only free page, or there is none. */
  lemma StolenKeepsInv(base: State, ps: Trio)
    requires Start(base, ps)
    ensures Inv(base.(free := [])) && Inv(base.(free := [ps.p0]))
    ensures Pde(base.(free := []), 0) == 0 && Pde(base.(free := [ps.p0]), 0) == 0
  {
    StartPages(base, ps);
    var stolen := base.(free := []);
    SameTables(base, stolen);
    assert Inv(stolen);
    FreeKeepsInv(stolen, ps.p0);
    assert Free(stolen, ps.p0) == base.(free := [ps.p0]);
  }

  lemma StartRefs(base: State, ps: Trio)
    requires Start(base, ps)
    ensures ps.p0 < |base.ref| && ps.p1 < |base.ref| && ps.p2 < |base.ref|
    ensures base.ref[ps.p0 := 1] == base.ref[ps.p0 := 1][ps.p1 := 0][ps.p2 := 0]
  {
    StartPages(base, ps);
  }

  /** The first insertion takes the freed page for the table. */
  lemma InstallStep(base: State, ps: Trio)
    requires Start(base, ps)
    ensures Walk(base.(free := [ps.p0]), 0, true).0 == Scene(base, ps, NoneMapped([]))
    ensures Inv(Scene(base, ps, NoneMapped([])))
  {
    StartPages(base, ps);
    StartRefs(base, ps);
    StolenKeepsInv(base, ps);
    var s := base.(free := [ps.p0]);
    WalkKeepsInv(s, 0, true);
    assert ZeroPage() == TestTable(0, 0);
    assert Walk(s, 0, true).0 == Install(s, 0);
    assert Install(s, 0).ref == base.ref[ps.p0 := 0][ps.p0 := 1] == base.ref[ps.p0 := 1];
  }

  /** `page_insert` at an address that has a table. */
  lemma InsertWithTable(s: State, pp: nat, va: Word)
    requires Inv(s) && va < ULIM && Pde(s, Pdx(va)) != 0 && Mappable(s, pp) && s.ref[pp] < REF_LIMIT - 1
    ensures var s' := Insert(s, pp, va, 0).0;
            var w := Pte(s, Pdx(va), Ptx(va));
            var q := EntryPage(w);
            && Insert(s, pp, va, 0).1 && Inv(s') && s'.dir == s.dir && s'.reserved == s.reserved
            && s'.mem == Store(s, Table(s, Pdx(va)), Ptx(va), Entry(pp, 0)).mem
            && (w == 0 ==> s'.ref == s.ref[pp := s.ref[pp] + 1] && s'.free == s.free)
            && (w != 0 && q == pp ==> s'.ref == s.ref && s'.free == s.free)
            && (w != 0 && q != pp ==>
                  && q < |s.ref| && s.ref[q] > 0 && s'.ref == s.ref[pp := s.ref[pp] + 1][q := s.ref[q] - 1]
                  && s'.free == if s.ref[q] == 1 then [q] + s.free else s.free)
  {
    hide Inv;
    assert Insert(s, pp, va, 0) == (Write(s, pp, va, 0), true);
    WriteEffect(s, pp, va, 0);
    WriteKeepsInv(s, pp, va, 0);
  }

  /** The phase after entry `t` of the table was written and the counts and the free list
      became those given. */
  function NextPhase(c: Phase, t: nat, w: Word, r1: nat, r2: nat, free: seq<nat>): Phase {
    Phase(if t == 0 then w else c.e0, if t == 1 then w else c.e1, r1, r2, free)
  }

  /** The state that a step leaves is the scene of the next phase when its parts are. */
  lemma SceneFromStep(s': State, base: State, ps: Trio, c: Phase, t: nat, w: Word, c': Phase)
    requires Start(base, ps) && t < 2 && c' == NextPhase(c, t, w, c'.r1, c'.r2, c'.free)
    requires var s := Scene(base, ps, c);
             && s'.dir == base.dir && s'.reserved == base.reserved && s'.free == c'.free
             && s'.mem == Store(s, ps.p0, t, w).mem && |s'.ref| == |s.ref|
             && forall p :: 0 <= p < |s.ref| ==> s'.ref[p] == if p == ps.p1 then c'.r1 else if p == ps.p2 then c'.r2 else s.ref[p]
    ensures s' == Scene(base, ps, c')
  {
    StartPages(base, ps);
    var s, want := Scene(base, ps, c), Scene(base, ps, c');
    assert TestTable(c.e0, c.e1)[0 := w] == TestTable(w, c.e1);
    assert TestTable(c.e0, c.e1)[1 := w] == TestTable(c.e0, w);
    assert s'.mem == want.mem;
    assert s'.ref == want.ref;
  }

  /** `p1` goes to the empty entry 0. */
  lemma InsertFirst(base: State, ps: Trio)
    requires Start(base, ps)
    ensures Inv(Scene(base, ps, FirstMapped(ps)))
    ensures Insert(base.(free := [ps.p0]), ps.p1, 0, 0) == (Scene(base, ps, FirstMapped(ps)), true)
  {
    hide Inv;
    hide Scene;
    var s := Scene(base, ps, NoneMapped([]));
    StartPages(base, ps);
    SceneTables(base, ps, NoneMapped([]));
    StolenKeepsInv(base, ps);
    InstallStep(base, ps);
    InsertWithTable(s, ps.p1, 0);
    SceneFromStep(Insert(s, ps.p1, 0, 0).0, base, ps, NoneMapped([]), 0, Entry(ps.p1, 0), FirstMapped(ps));
    assert Insert(base.(free := [ps.p0]), ps.p1, 0, 0) == Insert(s, ps.p1, 0, 0);
  }

  /** `p2` goes to the empty entry 1. */
  lemma InsertSecond(base: State, ps: Trio)
    requires Start(base, ps) && Inv(Scene(base, ps, FirstMapped(ps)))
    ensures Inv(Scene(base, ps, BothMapped(ps)))
    ensures Insert(Scene(base, ps, FirstMapped(ps)), ps.p2, PGSIZE, 0)
         == (Scene(base, ps, BothMapped(ps)), true)
  {
    hide Inv;
    hide Scene;
    var s := Scene(base, ps, FirstMapped(ps));
    StartPages(base, ps);
    SceneTables(base, ps, FirstMapped(ps));
    InsertWithTable(s, ps.p2, PGSIZE);
    SceneFromStep(Insert(s, ps.p2, PGSIZE, 0).0, base, ps, FirstMapped(ps), 1, Entry(ps.p2, 0), BothMapped(ps));
  }

  /** `p2` goes where it already is. */
  lemma InsertAgain(base: State, ps: Trio)
    requires Start(base, ps) && Inv(Scene(base, ps, BothMapped(ps)))
    ensures Insert(Scene(base, ps, BothMapped(ps)), ps.p2, PGSIZE, 0)
         == (Scene(base, ps, BothMapped(ps)), true)
  {
    hide Inv;
    hide Scene;
    var s := Scene(base, ps, BothMapped(ps));
    StartPages(base, ps);
    SceneTables(base, ps, BothMapped(ps));
    InsertWithTable(s, ps.p2, PGSIZE);
    SceneFromStep(Insert(s, ps.p2, PGSIZE, 0).0, base, ps, BothMapped(ps), 1, Entry(ps.p2, 0), BothMapped(ps));
  }

  /** `p1` replaces `p2`, which becomes free. */
  lemma InsertOver(base: State, ps: Trio)
    requires Start(base, ps) && Inv(Scene(base, ps, BothMapped(ps)))
    ensures Inv(Scene(base, ps, Replaced(ps, [ps.p2])))
    ensures Insert(Scene(base, ps, BothMapped(ps)), ps.p1, PGSIZE, 0)
         == (Scene(base, ps, Replaced(ps, [ps.p2])), true)
  {
    hide Inv;
    hide Scene;
    var s := Scene(base, ps, BothMapped(ps));
    StartPages(base, ps);
    SceneTables(base, ps, BothMapped(ps));
    InsertWithTable(s, ps.p1, PGSIZE);
    SceneFromStep(Insert(s, ps.p1, PGSIZE, 0).0, base, ps, BothMapped(ps), 1, Entry(ps.p1, 0), Replaced(ps, [ps.p2]));
  }

  /** `page_alloc` of the one free page. */
  lemma AllocOnly(base: State, ps: Trio, c: Phase, p: nat)
    requires Start(base, ps) && c.free == [p] && Inv(Scene(base, ps, c))
    ensures Inv(Scene(base, ps, c.(free := [])))
    ensures Alloc(Scene(base, ps, c)) == (Scene(base, ps, c.(free := [])), Some(p))
  {
    hide Inv;
    AllocKeepsInv(Scene(base, ps, c));
  }

  /** `page_remove` at 0 leaves the other mapping of `p1`. */
  lemma RemoveFirst(base: State, ps: Trio)
    requires Start(base, ps) && Inv(Scene(base, ps, Replaced(ps, [])))
    ensures Inv(Scene(base, ps, FirstRemoved(ps)))
    ensures Remove(Scene(base, ps, Replaced(ps, [])), 0)
         == Scene(base, ps, FirstRemoved(ps))
    ensures Lookup(Scene(base, ps, Replaced(ps, [])), 0) == Some(ps.p1)
  {
    hide Inv;
    hide Scene;
    var s := Scene(base, ps, Replaced(ps, []));
    StartPages(base, ps);
    SceneTables(base, ps, Replaced(ps, []));
    RemoveEffect(s, 0);
    RemoveKeepsInv(s, 0);
    SceneFromStep(Remove(s, 0), base, ps, Replaced(ps, []), 0, 0, FirstRemoved(ps));
  }

  /** `page_remove` at PGSIZE frees `p1`. */
  lemma RemoveSecond(base: State, ps: Trio)
    requires Start(base, ps) && Inv(Scene(base, ps, FirstRemoved(ps)))
    ensures Inv(Scene(base, ps, NoneMapped([ps.p1])))
    ensures Remove(Scene(base, ps, FirstRemoved(ps)), PGSIZE) == Scene(base, ps, NoneMapped([ps.p1]))
    ensures Lookup(Scene(base, ps, FirstRemoved(ps)), PGSIZE) == Some(ps.p1)
  {
    hide Inv;
    hide Scene;
    var s := Scene(base, ps, FirstRemoved(ps));
    StartPages(base, ps);
    SceneTables(base, ps, FirstRemoved(ps));
    RemoveEffect(s, PGSIZE);
    RemoveKeepsInv(s, PGSIZE);
    SceneFromStep(Remove(s, PGSIZE), base, ps, FirstRemoved(ps), 1, 0, NoneMapped([ps.p1]));
  }

  /** The state after the test: the page that was the table is cleared, and the free list
      starts with the three pages in the opposite order. */
  function GivenBack(base: State, ps: Trio): State
    requires ps.p0 < |base.mem| && |base.free| >= 3
  {
    State(base.dir, base.reserved, base.mem[ps.p0 := ZeroPage()], base.ref, [ps.p2, ps.p1, ps.p0] + base.free[3..])
  }

  lemma GivenBackKeepsInv(base: State, ps: Trio)
    requires Start(base, ps)
    ensures ps.p0 < |base.mem| && Inv(GivenBack(base, ps))
  {
    StartPages(base, ps);
    var s := GivenBack(base, ps);
    var between := base.(free := s.free);
    assert base.free[0] == ps.p0 && base.free[1] == ps.p1 && base.free[2] == ps.p2;
    assert forall i :: 3 <= i < |s.free| ==> s.free[i] == base.free[i];
    assert FreeList(between);
    SameTables(base, between);
    UnusedPageKeepsTables(between, s, ps.p0);
  }

  /** Clearing a page that is no table and not the directory changes no table. */
  lemma UnusedPageKeepsTables(s: State, s': State, p: nat)
    requires Inv(s) && p in s.free && p < |s.mem|
    requires s' == s.(mem := s.mem[p := ZeroPage()])
    ensures Inv(s')
  {
    TableNotFree(s, SELF);
    assert forall d: nat :: Pde(s', d) == Pde(s, d);
    forall d: nat, t: nat | d < NPTENTRIES && Pde(s, d) != 0 ensures Pte(s', d, t) == Pte(s, d, t) {
      TableNotFree(s, d);
    }
    forall q ensures Count(s', q) == Count(s, q) {
      assert PdeRefs(s', q) == PdeRefs(s, q);
      assert PteRefs(s', q) == PteRefs(s, q);
    }
    assert Mapped(s') by {
      forall d: nat, t: nat | UserEntry(s', d) && t < NPTENTRIES && Pte(s', d, t) != 0
        ensures Present(Pte(s', d, t)) && EntryPage(Pte(s', d, t)) < |s.mem| && EntryPage(Pte(s', d, t)) !in s.reserved
      {
        assert UserEntry(s, d);
      }
    }
  }

  // ----- the test, in place

  /** The elements of `rest` are linked as when `page_free_list` pointed at the first of
      them; `first` is the stolen head. */
  ghost predicate Detached(pm: Pmap, first: Ptr, rest: seq<nat>)
    reads pm, pm.lists.links
  {
    IsList(pm.lists.links[..], first, FREE_LIST, rest)
  }

  lemma ThreeAllocs(base: State)
    requires Inv(base) && |base.free| >= 3
    ensures var s1, s2 := base.(free := base.free[1..]), base.(free := base.free[2..]);
            && Alloc(base) == (s1, Some(base.free[0]))
            && Alloc(s1) == (s2, Some(base.free[1]))
            && Alloc(s2) == (base.(free := base.free[3..]), Some(base.free[2]))
    ensures base.free[0] != base.free[1] && base.free[0] != base.free[2] && base.free[1] != base.free[2]
    ensures base.free[..3] == [base.free[0], base.free[1], base.free[2]]
  {
    AllocKeepsInv(base);
    AllocKeepsInv(Alloc(base).0);
    AllocKeepsInv(Alloc(Alloc(base).0).0);
  }

  /** Allocates three pages and steals the rest of the free list. */
  method TakePages(pm: Pmap) returns (ps: Trio, fl: Ptr)
    requires pm.Valid() && Inv(pm.Value()) && |pm.free| >= 3
    requires Pde(pm.Value(), 0) == 0 && Pde(pm.Value(), 1) == 0
    modifies pm, pm.ppRef, pm.lists.links, pm.lists.heads
    ensures Start(old(pm.Value()), ps) && pm.Valid()
    ensures pm.Value() == old(pm.Value()).(free := [])
    ensures Detached(pm, fl, old(pm.free)[3..])
  {
    hide Inv, IsList;
    ThreeAllocs(pm.Value());
    var r, pp0 := pm.PageAlloc();
    assert r == 0;
    var pp1, pp2;
    r, pp1 := pm.PageAlloc();
    assert r == 0;
    r, pp2 := pm.PageAlloc();
    assert r == 0;
    ps := Trio(pp0.value, pp1.value, pp2.value);
    assert ps.p1 != ps.p0;
    assert ps.p2 != ps.p1 && ps.p2 != ps.p0;

    fl := pm.lists.heads[FREE_LIST];
    ghost var links, rest := pm.lists.links[..], [pm.free][FREE_LIST];
    assert IsList(links, fl, FREE_LIST, rest);
    pm.lists.Init(FREE_LIST, [pm.free]);
    assert [pm.free][FREE_LIST := []] == [[]];
    pm.free := [];

    // no page is free now
    var pp;
    r, pp := pm.PageAlloc();
    assert r == -E_NO_MEM;
    assert pm.lists.links[..] == links && rest == old(pm.free)[3..];
  }

  /** The test leaves the links of all other pages alone. */
  twostate predicate OthersKept(pm: Pmap, ps: Trio)
    requires pm.lists.links.Length == |pm.pages| == |old(pm.pages)|
    reads pm, pm.lists.links
  {
    forall x :: 0 <= x < |pm.pages| && x != ps.p0 && x != ps.p1 && x != ps.p2 ==> pm.lists.links[x] == old(pm.lists.links[x])
  }

  /** `check_va2pa` at 0 and at PGSIZE. */
  method CheckBoth(pm: Pmap, ghost base: State, ps: Trio, ghost c: Phase) returns (a0: Word, a1: Word)
    requires pm.Valid() && Start(base, ps) && Inv(pm.Value()) && pm.Value() == Scene(base, ps, c)
    ensures a0 == Answer(c.e0) && a1 == Answer(c.e1)
    ensures ps.p0 < pm.ppRef.Length && ps.p1 < pm.ppRef.Length && ps.p2 < pm.ppRef.Length
    ensures pm.ppRef[ps.p0] == 1 && pm.ppRef[ps.p1] == c.r1 && pm.ppRef[ps.p2] == c.r2
  {
    hide Inv;
    hide Scene;
    SceneTables(base, ps, c);
    SceneAnswers(base, ps, c);
    a0 := pm.CheckVa2Pa(0);
    a1 := pm.CheckVa2Pa(PGSIZE);
  }

  /** Nothing is mapped at 0, and no table can be had. */
  method CheckNothingMapped(pm: Pmap, ghost base: State, ps: Trio)
    requires pm.Valid() && Start(base, ps) && pm.Value() == base.(free := [])
    modifies pm, pm.mem, pm.ppRef, pm.lists.links, pm.lists.heads
    ensures pm.Valid() && pm.Value() == base.(free := [])
    ensures OthersKept(pm, ps)
  {
    hide Inv;
    StartPages(base, ps);
    StolenKeepsInv(base, ps);
    InvWalkable(pm.Value());
    var pp, pte := pm.PageLookup(0);
    assert pp == None;

    var r := pm.PageInsert(ps.p1, 0, 0);
    assert r < 0;
  }

  /** `p0` is freed and becomes the table in which `p1` is mapped at 0. */
  method CheckFirstInsert(pm: Pmap, ghost base: State, ps: Trio)
    requires pm.Valid() && Start(base, ps) && pm.Value() == base.(free := [])
    modifies pm, pm.mem, pm.ppRef, pm.lists.links, pm.lists.heads
    ensures pm.Valid() && Inv(pm.Value())
    ensures pm.Value() == Scene(base, ps, FirstMapped(ps))
    ensures OthersKept(pm, ps)
  {
    hide Inv, Scene;
    StartPages(base, ps);
    StolenKeepsInv(base, ps);
    pm.PageFree(ps.p0);
    InsertFirst(base, ps);
    assert pm.Value() == base.(free := [ps.p0]);
    var r := pm.PageInsert(ps.p1, 0, 0);
    assert r == 0;
    SceneTables(base, ps, FirstMapped(ps));
    assert EntryPage(pm.mem[pm.dir, 0]) == ps.p0 by { assert pm.mem[pm.dir, 0] == Pde(pm.Value(), 0); }
    var a0, a1 := CheckBoth(pm, base, ps, FirstMapped(ps));
    assert a0 == ps.p1 * PGSIZE;
    assert pm.ppRef[ps.p1] == 1;
    assert pm.ppRef[ps.p0] == 1;
  }

  /** `p2` is mapped at PGSIZE. */
  method CheckSecondInsert(pm: Pmap, ghost base: State, ps: Trio)
    requires pm.Valid() && Inv(pm.Value()) && Start(base, ps)
    requires pm.Value() == Scene(base, ps, FirstMapped(ps))
    modifies pm, pm.mem, pm.ppRef, pm.lists.links, pm.lists.heads
    ensures pm.Valid() && Inv(pm.Value()) && pm.Value() == Scene(base, ps, BothMapped(ps))
    ensures OthersKept(pm, ps)
  {
    hide Inv;
    hide Scene;
    StartPages(base, ps);
    SceneTables(base, ps, FirstMapped(ps));
    InsertSecond(base, ps);
    var r := pm.PageInsert(ps.p2, PGSIZE, 0);
    assert r == 0;
    SceneTables(base, ps, BothMapped(ps));
    var a0, a1 := CheckBoth(pm, base, ps, BothMapped(ps));
    assert a1 == ps.p2 * PGSIZE;
    assert pm.ppRef[ps.p2] == 1;

    var pp;
    r, pp := pm.PageAlloc();
    assert r == -E_NO_MEM;
  }

  /** `p2` is mapped at PGSIZE once more; a second table cannot be had. */
  method CheckInsertAgain(pm: Pmap, ghost base: State, ps: Trio)
    requires pm.Valid() && Inv(pm.Value()) && Start(base, ps)
    requires pm.Value() == Scene(base, ps, BothMapped(ps))
    modifies pm, pm.mem, pm.ppRef, pm.lists.links, pm.lists.heads
    ensures pm.Valid() && Inv(pm.Value()) && pm.Value() == Scene(base, ps, BothMapped(ps))
    ensures OthersKept(pm, ps)
  {
    hide Inv;
    hide Scene;
    StartPages(base, ps);
    SceneTables(base, ps, BothMapped(ps));
    InsertAgain(base, ps);
    var r := pm.PageInsert(ps.p2, PGSIZE, 0);
    assert r == 0;
    var a0, a1 := CheckBoth(pm, base, ps, BothMapped(ps));
    assert a1 == ps.p2 * PGSIZE;
    assert pm.ppRef[ps.p2] == 1;

    var pp;
    r, pp := pm.PageAlloc();
    assert r == -E_NO_MEM;

    r := pm.PageInsert(ps.p0, PTSIZE, 0);
    assert r < 0;
  }

  /** `p1` replaces `p2` at PGSIZE, and `p2` is free again. */
  method CheckReplacement(pm: Pmap, ghost base: State, ps: Trio)
    requires pm.Valid() && Inv(pm.Value()) && Start(base, ps)
    requires pm.Value() == Scene(base, ps, BothMapped(ps))
    modifies pm, pm.mem, pm.ppRef, pm.lists.links, pm.lists.heads
    ensures pm.Valid() && Inv(pm.Value())
    ensures pm.Value() == Scene(base, ps, Replaced(ps, []))
    ensures OthersKept(pm, ps)
  {
    hide Inv;
    hide Scene;
    StartPages(base, ps);
    SceneTables(base, ps, BothMapped(ps));
    InsertOver(base, ps);
    var r := pm.PageInsert(ps.p1, PGSIZE, 0);
    assert r == 0;
    SceneTables(base, ps, Replaced(ps, [ps.p2]));
    var a0, a1 := CheckBoth(pm, base, ps, Replaced(ps, [ps.p2]));
    assert a0 == ps.p1 * PGSIZE;
    assert a1 == ps.p1 * PGSIZE;
    assert pm.ppRef[ps.p1] == 2;
    assert pm.ppRef[ps.p2] == 0;

    AllocOnly(base, ps, Replaced(ps, [ps.p2]), ps.p2);
    var pp;
    r, pp := pm.PageAlloc();
    assert r == 0 && pp == Some(ps.p2);
  }

  /** `p1` is no longer mapped at 0, but still at PGSIZE. */
  method CheckFirstRemove(pm: Pmap, ghost base: State, ps: Trio)
    requires pm.Valid() && Inv(pm.Value()) && Start(base, ps)
    requires pm.Value() == Scene(base, ps, Replaced(ps, []))
    modifies pm, pm.mem, pm.ppRef, pm.lists.links, pm.lists.heads
    ensures pm.Valid() && Inv(pm.Value()) && pm.Value() == Scene(base, ps, FirstRemoved(ps))
    ensures OthersKept(pm, ps)
  {
    hide Inv;
    hide Scene;
    StartPages(base, ps);
    InvWalkable(pm.Value());
    SceneTables(base, ps, Replaced(ps, []));
    RemoveFirst(base, ps);
    pm.PageRemove(0);
    SceneTables(base, ps, FirstRemoved(ps));
    var a0, a1 := CheckBoth(pm, base, ps, FirstRemoved(ps));
    assert a0 == 0xFFFF_FFFF;
    assert a1 == ps.p1 * PGSIZE;
    assert pm.ppRef[ps.p1] == 1;
    assert pm.ppRef[ps.p2] == 0;
  }

  /** Without its second mapping `p1` is free again. */
  method CheckSecondRemove(pm: Pmap, ghost base: State, ps: Trio)
    requires pm.Valid() && Inv(pm.Value()) && Start(base, ps)
    requires pm.Value() == Scene(base, ps, FirstRemoved(ps))
    modifies pm, pm.mem, pm.ppRef, pm.lists.links, pm.lists.heads
    ensures pm.Valid() && Inv(pm.Value()) && pm.Value() == Scene(base, ps, NoneMapped([]))
    ensures OthersKept(pm, ps)
  {
    hide Inv;
    hide Scene;
    StartPages(base, ps);
    InvWalkable(pm.Value());
    SceneTables(base, ps, FirstRemoved(ps));
    RemoveSecond(base, ps);
    pm.PageRemove(PGSIZE);
    SceneTables(base, ps, NoneMapped([ps.p1]));
    var a0, a1 := CheckBoth(pm, base, ps, NoneMapped([ps.p1]));
    assert a0 == 0xFFFF_FFFF;
    assert a1 == 0xFFFF_FFFF;
    assert pm.ppRef[ps.p1] == 0;
    assert pm.ppRef[ps.p2] == 0;

    AllocOnly(base, ps, NoneMapped([ps.p1]), ps.p1);
    var r, pp := pm.PageAlloc();
    assert r == 0 && pp == Some(ps.p1);
    SceneTables(base, ps, NoneMapped([]));
    r, pp := pm.PageAlloc();
    assert r == -E_NO_MEM;
  }

  /** The checks, in order. */
  method CheckSteps(pm: Pmap, ghost base: State, ps: Trio)
    requires pm.Valid() && Start(base, ps) && pm.Value() == base.(free := [])
    modifies pm, pm.mem, pm.ppRef, pm.lists.links, pm.lists.heads
    ensures pm.Valid() && pm.Value() == Scene(base, ps, NoneMapped([]))
    ensures OthersKept(pm, ps)
  {
    hide Inv;
    hide Scene;
    CheckNothingMapped(pm, base, ps);
    CheckFirstInsert(pm, base, ps);
    CheckSecondInsert(pm, base, ps);
    CheckInsertAgain(pm, base, ps);
    CheckReplacement(pm, base, ps);
    CheckFirstRemove(pm, base, ps);
    CheckSecondRemove(pm, base, ps);
  }

  /** Takes `p0` back by force: the directory entry and the count are cleared. */
  method TakeTableBack(pm: Pmap, ghost base: State, ps: Trio)
    requires pm.Valid() && Start(base, ps) && pm.Value() == Scene(base, ps, NoneMapped([]))
    modifies pm, pm.mem, pm.ppRef
    ensures pm.Valid() && ps.p0 < |base.mem| && pm.Value() == GivenBack(base, ps).(free := [])
  {
    hide Inv;
    StartPages(base, ps);
    SceneTables(base, ps, NoneMapped([]));
    assert EntryPage(pm.mem[pm.dir, 0]) == ps.p0 by { assert pm.mem[pm.dir, 0] == Pde(pm.Value(), 0); }
    pm.SetEntry(pm.dir, 0, 0);
    assert pm.ppRef[ps.p0] == 1;
    pm.ppRef[ps.p0] := 0;
    assert pm.ppRef[..] == base.ref;
    assert pm.pages == base.mem[ps.p0 := ZeroPage()] by {
      ghost var dirPage := base.mem[base.dir];
      assert dirPage[0] == 0;
      assert dirPage[0 := Entry(ps.p0, PTE_U + PTE_W)][0 := 0] == dirPage;
      assert TestTable(0, 0) == ZeroPage();
    }
  }

  /** `page_free_list = fl`: the first element still names this head in its `le_prev`. */
  method RestoreFreeList(pm: Pmap, fl: Ptr, ghost rest: seq<nat>)
    requires pm.Valid() && Detached(pm, fl, rest)
    modifies pm`free, pm.lists.heads
    ensures pm.Valid() && pm.Value() == old(pm.Value()).(free := rest)
  {
    pm.lists.heads[FREE_LIST] := fl;
    pm.free := rest;
    assert Represents(pm.lists.links[..], pm.lists.heads[..], [rest]);
  }

  /** Gives the free list back and frees the three pages. */
  method GiveBack(pm: Pmap, ps: Trio, fl: Ptr, ghost rest: seq<nat>)
    requires pm.Valid() && Detached(pm, fl, rest)
    requires ps.p0 < |pm.pages| && ps.p1 < |pm.pages| && ps.p2 < |pm.pages|
    requires ps.p0 != ps.p1 && ps.p0 != ps.p2 && ps.p1 != ps.p2
    requires ps.p0 !in rest && ps.p1 !in rest && ps.p2 !in rest
    modifies pm, pm.lists.links, pm.lists.heads
    ensures pm.Valid() && pm.Value() == old(pm.Value()).(free := [ps.p2, ps.p1, ps.p0] + rest)
  {
    RestoreFreeList(pm, fl, rest);
    pm.PageFree(ps.p0);
    pm.PageFree(ps.p1);
    pm.PageFree(ps.p2);
    assert pm.free == [ps.p2, ps.p1, ps.p0] + rest;
  }

  /** `page_check`: all its assertions hold; afterwards all counts and the directory are as
      before, and the free list has its first three pages in the opposite order. */
  method PageCheck(pm: Pmap) returns (ghost ps: Trio)
    requires pm.Valid() && Inv(pm.Value()) && |pm.free| >= 3
    requires Pde(pm.Value(), 0) == 0 && Pde(pm.Value(), 1) == 0
    modifies pm, pm.mem, pm.ppRef, pm.lists.links, pm.lists.heads
    ensures pm.Valid() && Inv(pm.Value())
    ensures pm.Value().ref == old(pm.Value().ref)
    ensures old(pm.free) == [ps.p0, ps.p1, ps.p2] + old(pm.free)[3..]
    ensures pm.free == [ps.p2, ps.p1, ps.p0] + old(pm.free)[3..]
    ensures ps.p0 < |old(pm.pages)| && ps.p0 != pm.dir && pm.pages == old(pm.pages)[ps.p0 := ZeroPage()]
  {
    hide Inv, Scene, IsList, Start;
    ghost var base := pm.Value();
    ghost var rest := base.free[3..];
    var taken, fl := TakePages(pm);
    ps := taken;
    StartPages(base, taken);
    assert forall i :: 0 <= i < |rest| ==> rest[i] in rest;
    ghost var links := pm.lists.links[..];
    CheckSteps(pm, base, taken);
    ListKept(links, fl, FREE_LIST, rest, pm.lists.links[..]);
    TakeTableBack(pm, base, taken);
    GiveBack(pm, taken, fl, rest);
    GivenBackKeepsInv(base, taken);
  }
}
