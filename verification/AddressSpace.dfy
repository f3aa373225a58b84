/** The page tables as an address space: what each transition does to the translation
    of every address, and what whole runs of the `page_` functions keep. */
module AddressSpace {
  import opened Options
  import opened Mmu
  import opened PageState
  import opened PageInvariant

  // ----- translations

  /** Whether `v` is the address, in the window at VPT, of the page table that covers `va`. */
  predicate InWindow(v: Word, va: Word) {
    Pdx(v) == SELF && Ptx(v) == Pdx(va)
  }

  lemma TranslateAfterWrite(s: State, s': State, va: Word, w: Word, v: Word)
    requires Directory(s) && UserEntry(s, Pdx(va))
    requires EntrySet(s, s', Pdx(va), Ptx(va), w)
    ensures Pgnum(v) == Pgnum(va) ==>
              Translate(s', v) == if Present(w) then Some(Mapping(EntryPage(w), EntryFlags(w))) else None
    ensures Pgnum(v) != Pgnum(va) ==> Translate(s', v) == Translate(s, v)
  {
    SamePage(v, va);
    assert Pde(s', Pdx(v)) == Pde(s, Pdx(v));
  }

  /** A walk changes no translation but the one, in the window, of the table it installs. */
  lemma WalkTranslates(s: State, va: Word, create: bool, v: Word)
    requires Inv(s) && va < ULIM
    ensures Translate(Walk(s, va, create).0, v)
         == if Walk(s, va, create).0 != s && InWindow(v, va)
            then Some(Mapping(s.free[0], PTE_U + PTE_W + PTE_P)) else Translate(s, v)
  {
    var d := Pdx(va);
    if Pde(s, d) == 0 && create && s.free != [] {
      InstallTables(s, d);
      assert s.free[0] in s.free;
      var s' := Install(s, d);
      assert s'.free != s.free;
      if Pdx(v) == SELF {
        assert Table(s', SELF) == s'.dir;
        assert Pte(s', SELF, Ptx(v)) == Pde(s', Ptx(v));
        assert Pte(s, SELF, Ptx(v)) == Pde(s, Ptx(v));
      }
    }
  }

  lemma WalkChanges(s: State, va: Word)
    requires Walk(s, va, true).1.Some?
    ensures Walk(s, va, true).0 != s <==> Pde(s, Pdx(va)) == 0
  {
    if Pde(s, Pdx(va)) == 0 {
      assert Install(s, Pdx(va)).free == s.free[1..];
      assert |Install(s, Pdx(va)).free| != |s.free|;
    }
  }

  /** A successful `page_insert` maps exactly the page of `va`, with exactly the
      permissions asked for, and leaves every other translation as it was, but for the
      window entry of a page table that it had to install. */
  lemma InsertTranslates(s: State, pp: nat, va: Word, perm: nat, v: Word)
    requires Inv(s) && va < ULIM && perm < PGSIZE && Mappable(s, pp)
    requires Insert(s, pp, va, perm).1
    ensures Translate(Insert(s, pp, va, perm).0, v)
         == if Pgnum(v) == Pgnum(va) then Some(Mapping(pp, WithPresent(perm)))
            else if Pde(s, Pdx(va)) == 0 && InWindow(v, va) then Some(Mapping(s.free[0], PTE_U + PTE_W + PTE_P))
            else Translate(s, v)
  {
    hide Inv, Walk, Write, Translate, EntrySet, Directory;
    var s1 := Walk(s, va, true).0;
    WalkChanges(s, va);
    WalkKeepsInv(s, va, true);
    WalkForInsert(s, pp, va);
    WalkTranslates(s, va, true, v);
    InvTables(s1);
    WriteCounts(s1, pp, va, perm, pp);
    TranslateAfterWrite(s1, Write(s1, pp, va, perm), va, Entry(pp, perm), v);
  }

  /** `page_remove` unmaps the page of `va` and changes no other translation, even when
      it takes the wrong page's reference. */
  lemma RemoveTranslates(s: State, va: Word, v: Word)
    requires Inv(s) && va < ULIM
    ensures Translate(Remove(s, va), v) == if Pgnum(v) == Pgnum(va) then None else Translate(s, v)
  {
    SamePage(v, va);
    if Pde(s, Pdx(va)) != 0 {
      StoreSetsEntry(s, Remove(s, va), Pdx(va), Ptx(va), 0);
      TranslateAfterWrite(s, Remove(s, va), va, 0, v);
    }
  }

  /** Inserting a page where it is already mapped changes its permissions and nothing
      else: no count, no free page, no other entry, even at a count of 65535. */
  lemma ReinsertKeepsCounts(s: State, pp: nat, va: Word, perm: nat)
    requires Inv(s) && va < ULIM && perm < PGSIZE && MapsAt(s, va, pp)
    ensures Insert(s, pp, va, perm)
         == (Store(s, Table(s, Pdx(va)), Ptx(va), Entry(pp, perm)), true)
  {
    assert Pte(s, Pdx(va), Ptx(va)) != 0;
    MappedIsReferenced(s, Pdx(va), Ptx(va), pp);
    WriteEffect(s, pp, va, perm);
  }

  /** Removing undoes inserting at an address that had a table and no mapping: memory and
      counts are as before, and a page that was not referenced is free now. */
  lemma RemoveUndoesInsert(s: State, pp: nat, va: Word, perm: nat)
    requires Inv(s) && va < ULIM && perm < PGSIZE && Mappable(s, pp) && s.ref[pp] < REF_LIMIT - 1
    requires UserEntry(s, Pdx(va)) && Pte(s, Pdx(va), Ptx(va)) == 0
    ensures var s' := Remove(Insert(s, pp, va, perm).0, va);
            && s'.mem == s.mem && s'.ref == s.ref && s'.dir == s.dir && s'.reserved == s.reserved
            && s'.free == if s.ref[pp] == 0 then [pp] + s.free else s.free
  {
    hide Inv, Write, Remove, Count;
    var d, t := Pdx(va), Ptx(va);
    var s1, page := Write(s, pp, va, perm), Table(s, Pdx(va));
    InvTables(s);
    WriteEffect(s, pp, va, perm);
    WriteCounts(s, pp, va, perm, pp);
    WriteKeepsInv(s, pp, va, perm);
    RemoveEffect(s1, va);
    assert s.mem[page][t] == 0;
    assert s.mem[page][t := Entry(pp, perm)][t := 0] == s.mem[page];
    assert Store(s1, page, t, 0).mem == s.mem;
    assert s.ref[pp := s.ref[pp] + 1][pp := s.ref[pp]] == s.ref;
  }

  /** Where `page_remove` does not silently do nothing, as its comment promises: after a walk
      that creates the table of an unmapped address, removing that address takes a
      reference from page 0. */
  lemma RemoveAfterWalkTakesPageZero(s: State, va: Word)
    requires Inv(s) && va < ULIM && Pde(s, Pdx(va)) == 0 && s.free != []
    ensures var s1 := Walk(s, va, true).0;
            && Inv(s1) && Translate(s1, va) == None && !Inv(Remove(s1, va))
            && Lookup(s1, va) == Some(0) && Remove(s1, va).ref[0] == (s.ref[0] + REF_LIMIT - 1) % REF_LIMIT
  {
    var s1 := Walk(s, va, true).0;
    WalkKeepsInv(s, va, true);
    InstallTables(s, Pdx(va));
    assert s.free[0] in s.free;
    RemoveKeepsInv(s1, va);
    RemoveEmptyBreaksCount(s1, va);
  }

  // ----- the window at VPT

  /** `vpt[PGNUM(va)]` is the page table entry of `va`: the walk of its address ends in
      the table of `va`, at the word of that entry. */
  lemma WindowShowsEntries(s: State, va: Word)
    requires Directory(s) && Pde(s, Pdx(va)) != 0
    ensures VPT + 4 * Pgnum(va) < 0x1_0000_0000
    ensures Translate(s, VPT + 4 * Pgnum(va)) == Some(Mapping(Table(s, Pdx(va)), EntryFlags(Pde(s, Pdx(va)))))
    ensures (VPT + 4 * Pgnum(va)) % PGSIZE == 4 * Ptx(va)
  {
    var v: Word := VPT + 4 * Pgnum(va);
    assert Pdx(v) == SELF;
    assert Ptx(v) == Pdx(va);
    assert Pte(s, SELF, Pdx(va)) == Pde(s, Pdx(va));
  }

  /** `vpd`, at VPT + (VPT >> 10), is the page directory. */
  lemma WindowShowsDirectory(s: State)
    requires Directory(s)
    ensures Translate(s, VPT + VPT / 1024) == Some(Mapping(s.dir, EntryFlags(Pde(s, SELF))))
    ensures (VPT + VPT / 1024) % PGSIZE == 0
  {
    WindowShowsEntries(s, VPT);
    assert Pgnum(VPT) == VPT / PGSIZE;
  }

  // ----- runs

  datatype Op =
    | AllocOp
    | FreeOp(p: nat)
    | WalkOp(va: Word, create: bool)
    | InsertOp(pp: nat, iva: Word, perm: nat)
    | RemoveOp(rva: Word)

  function Step(s: State, op: Op): State {
    match op
    case AllocOp => Alloc(s).0
    case FreeOp(p) => Free(s, p)
    case WalkOp(va, create) => Walk(s, va, create).0
    case InsertOp(pp, va, perm) => if perm < PGSIZE then Insert(s, pp, va, perm).0 else s
    case RemoveOp(va) => Remove(s, va)
  }

  /** What the callers of the `page_` functions respect. */
  ghost predicate Legal(s: State, op: Op) {
    match op
    case AllocOp => true
    case FreeOp(p) => p < |s.ref| && p !in s.reserved && p !in s.free && s.ref[p] == 0
    case WalkOp(va, _) => va < ULIM
    case InsertOp(pp, va, perm) =>
      && va < ULIM && perm < PGSIZE && Mappable(s, pp)
      && (s.ref[pp] < REF_LIMIT - 1 || MapsAt(s, va, pp))
    case RemoveOp(va) => va < ULIM && (Pde(s, Pdx(va)) == 0 || Pte(s, Pdx(va), Ptx(va)) != 0)
  }

  lemma StepKeepsInv(s: State, op: Op)
    requires Inv(s) && Legal(s, op)
    ensures Inv(Step(s, op))
  {
    match op
    case AllocOp => AllocKeepsInv(s);
    case FreeOp(p) => FreeKeepsInv(s, p);
    case WalkOp(va, create) => WalkKeepsInv(s, va, create);
    case InsertOp(pp, va, perm) => InsertKeepsInv(s, pp, va, perm);
    case RemoveOp(va) => RemoveKeepsInv(s, va);
  }

  /** A run: the states it goes through. */
  ghost predicate IsRun(states: seq<State>, ops: seq<Op>) {
    && |states| == |ops| + 1
    && forall i :: 0 <= i < |ops| ==> Legal(states[i], ops[i]) && states[i + 1] == Step(states[i], ops[i])
  }

  /** In every state of every run from a good one, each `pp_ref` is the number of stored
      pointers to the page, and the free pages are distinct and not pointed to. */
  lemma {:induction false} RunKeepsInv(states: seq<State>, ops: seq<Op>, n: nat)
    requires IsRun(states, ops) && Inv(states[0]) && n < |states|
    ensures Inv(states[n])
    ensures forall p :: p in states[n].free ==> Count(states[n], p) == 0
  {
    if n > 0 {
      hide Inv;
      RunKeepsInv(states, ops, n - 1);
      StepKeepsInv(states[n - 1], ops[n - 1]);
    }
  }

  const USER_PAGES := ULIM / PGSIZE

  /** The mapping of a user page. */
  function MappingOf(s: State, n: nat): Option<Mapping>
    requires n < USER_PAGES
  {
    Translate(s, n * PGSIZE)
  }

  /** The user part of the address space as a map from page numbers. */
  ghost function Space(s: State): map<nat, Mapping> {
    map n: nat | n < USER_PAGES && MappingOf(s, n).Some? :: MappingOf(s, n).value
  }

  /** What a step means for that map. */
  function SpaceStep(m: map<nat, Mapping>, op: Op, inserted: bool): map<nat, Mapping> {
    match op
    case InsertOp(pp, va, perm) => if inserted then m[Pgnum(va) := Mapping(pp, WithPresent(perm))] else m
    case RemoveOp(va) => m - {Pgnum(va)}
    case _ => m
  }

  ghost predicate Inserted(s: State, op: Op) {
    op.InsertOp? && (Pde(s, Pdx(op.iva)) != 0 || s.free != [])
  }

  function At(m: map<nat, Mapping>, n: nat): Option<Mapping> {
    if n in m then Some(m[n]) else None
  }

  lemma StepTranslates(s: State, op: Op, n: nat)
    requires Inv(s) && Legal(s, op) && n < USER_PAGES
    ensures MappingOf(Step(s, op), n) == At(SpaceStep(Space(s), op, Inserted(s, op)), n)
  {
    hide Inv;
    var v: Word := n * PGSIZE;
    assert Pgnum(v) == n && Pdx(v) < USER_PDES;
    assert At(Space(s), n) == MappingOf(s, n);
    match op
    case AllocOp => AllocKeepsInv(s);
    case FreeOp(p) =>
    case WalkOp(va, create) => WalkTranslates(s, va, create, v);
    case InsertOp(pp, va, perm) =>
      InsertFails(s, pp, va, perm);
      if Inserted(s, op) {
        InsertTranslates(s, pp, va, perm, v);
      }
    case RemoveOp(va) => RemoveTranslates(s, va, v);
  }

  lemma SpaceFromTranslations(s: State, m: map<nat, Mapping>)
    requires forall n: nat :: n in m ==> n < USER_PAGES
    requires forall n: nat :: n < USER_PAGES ==> MappingOf(s, n) == At(m, n)
    ensures Space(s) == m
  {
    hide MappingOf;
    forall n: nat | n < USER_PAGES ensures (n in m <==> n in Space(s)) && (n in m ==> m[n] == Space(s)[n]) {
      assert MappingOf(s, n) == At(m, n);
    }
    assert m.Keys == Space(s).Keys;
  }

  /** The two-level tables refine a map from pages to mappings. */
  lemma StepRefinesMap(s: State, op: Op)
    requires Inv(s) && Legal(s, op)
    ensures Space(Step(s, op)) == SpaceStep(Space(s), op, Inserted(s, op))
  {
    hide Inv, MappingOf, Step, Inserted;
    var m := SpaceStep(Space(s), op, Inserted(s, op));
    forall n: nat | n < USER_PAGES ensures MappingOf(Step(s, op), n) == At(m, n) {
      StepTranslates(s, op, n);
    }
    SpaceFromTranslations(Step(s, op), m);
  }

  /** The map that a run computes. */
  ghost function SpaceRun(m: map<nat, Mapping>, states: seq<State>, ops: seq<Op>, n: nat): map<nat, Mapping>
    requires |states| == |ops| + 1 && n <= |ops|
  {
    if n == 0 then m else SpaceStep(SpaceRun(m, states, ops, n - 1), ops[n - 1], Inserted(states[n - 1], ops[n - 1]))
  }

  /** After every run the translations are those of the map that the same calls update. */
  lemma {:induction false} RunRefinesMap(states: seq<State>, ops: seq<Op>, n: nat)
    requires IsRun(states, ops) && Inv(states[0]) && n < |states|
    ensures Space(states[n]) == SpaceRun(Space(states[0]), states, ops, n)
  {
    if n > 0 {
      RunRefinesMap(states, ops, n - 1);
      RunKeepsInv(states, ops, n - 1);
      StepRefinesMap(states[n - 1], ops[n - 1]);
    }
  }
}
