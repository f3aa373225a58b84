/** Runs of the `page_` functions at their limits: a count that reaches 65535, and calls of
    `page_remove` for addresses that are not mapped. */
module PageRuns {
  import opened Options
  import opened Mmu
  import opened PageState
  import opened PageInvariant
  import opened AddressSpace

  // ----- a count that overflows

  /** Page `pp` inserted at the first `n` pages of the address space. */
  function Filled(s: State, pp: nat, n: nat): State
    requires n <= REF_LIMIT
  {
    if n == 0 then s else Insert(Filled(s, pp, n - 1), pp, (n - 1) * PGSIZE, 0).0
  }

  /** The page tables for the first `n` pages. */
  function TablesFor(n: nat): nat {
    (n + NPTENTRIES - 1) / NPTENTRIES
  }

  /** `pp` is mapped at `n` addresses; the rest of their tables is empty, and so are the entries
      of the tables to come, for which there are pages. */
  ghost predicate FilledTo(s: State, pp: nat, n: nat) {
    && Inv(s) && Mappable(s, pp) && s.ref[pp] == n && n <= REF_LIMIT
    && TablesFor(n) + |s.free| >= 64
    && (forall d: nat :: d < 64 ==> (Pde(s, d) != 0 <==> d < TablesFor(n)))
    && Rest(s, n)
  }

  ghost predicate Rest(s: State, n: nat) {
    forall d: nat, t: nat :: d < 64 && t < NPTENTRIES && Pde(s, d) != 0 && n <= d * NPTENTRIES + t ==> Pte(s, d, t) == 0
  }

  /** The count of the page is as high as it can be. */
  ghost predicate Full(s: State, pp: nat) {
    Inv(s) && Mappable(s, pp) && s.ref[pp] == REF_LIMIT - 1
  }

  /** The count is 0 although 65536 entries point to the page. */
  ghost predicate Overflown(s: State, pp: nat) {
    pp < |s.ref| && s.ref[pp] == 0 && Count(s, pp) == REF_LIMIT && !Inv(s)
  }

  lemma FillIndices(n: nat)
    requires n < REF_LIMIT
    ensures var d, t := n / NPTENTRIES, n % NPTENTRIES;
            && Pdx(n * PGSIZE) == d < 64 && Ptx(n * PGSIZE) == t && n == d * NPTENTRIES + t && n * PGSIZE < ULIM
            && TablesFor(n + 1) == d + 1 && TablesFor(n) == if t == 0 then d else d + 1
  {
  }

  /** The walk of the next insertion finds the table or takes a page for it. */
  lemma FillWalk(s: State, pp: nat, n: nat)
    requires FilledTo(s, pp, n) && n < REF_LIMIT
    ensures var s1 := Walk(s, n * PGSIZE, true).0;
            && Walk(s, n * PGSIZE, true).1.Some?
            && Inv(s1) && Mappable(s1, pp) && s1.ref[pp] == n && UserEntry(s1, n / NPTENTRIES)
            && TablesFor(n + 1) + |s1.free| >= 64
            && (forall d: nat :: d < 64 ==> (Pde(s1, d) != 0 <==> d < TablesFor(n + 1)))
            && Rest(s1, n)
  {
    FillIndices(n);
    var va: Word, d := n * PGSIZE, n / NPTENTRIES;
    WalkKeepsInv(s, va, true);
    WalkForInsert(s, pp, va);
    if Pde(s, d) == 0 {
      InstallTables(s, d);
    }
    hide Inv;
  }

  /** And writing the entry adds one reference. */
  lemma FillWrite(s: State, pp: nat, n: nat)
    requires Inv(s) && Mappable(s, pp) && s.ref[pp] == n < REF_LIMIT && UserEntry(s, n / NPTENTRIES)
    requires TablesFor(n + 1) + |s.free| >= 64
    requires forall d: nat :: d < 64 ==> (Pde(s, d) != 0 <==> d < TablesFor(n + 1))
    requires Rest(s, n)
    ensures var s' := Write(s, pp, n * PGSIZE, 0);
            && (n < REF_LIMIT - 1 ==> FilledTo(s', pp, n + 1))
            && (n == REF_LIMIT - 1 ==> Overflown(s', pp))
  {
    hide Inv, Write, Count, TablesFor;
    FillIndices(n);
    RefIsCount(s, pp);
    var va: Word, d, t := n * PGSIZE, n / NPTENTRIES, n % NPTENTRIES;
    var s' := Write(s, pp, va, 0);
    assert Pte(s, d, t) == 0;
    WriteEffect(s, pp, va, 0);
    WriteKeepsInv(s, pp, va, 0);
    WriteCounts(s, pp, va, 0, pp);
    forall e: nat, u: nat | e < 64 && u < NPTENTRIES && Pde(s', e) != 0 && n + 1 <= e * NPTENTRIES + u
      ensures Pte(s', e, u) == 0
    {
      assert Pde(s', e) == Pde(s, e);
      assert (e, u) != (d, t);
    }
    assert forall e: nat :: e < 64 ==> Pde(s', e) == Pde(s, e);
  }

  lemma FillStep(s: State, pp: nat, n: nat)
    requires FilledTo(s, pp, n) && n < REF_LIMIT
    ensures Insert(s, pp, n * PGSIZE, 0).1
    ensures n < REF_LIMIT - 1 ==>
              FilledTo(Insert(s, pp, n * PGSIZE, 0).0, pp, n + 1) && Legal(s, InsertOp(pp, n * PGSIZE, 0))
    ensures n == REF_LIMIT - 1 ==> Overflown(Insert(s, pp, n * PGSIZE, 0).0, pp)
  {
    hide Inv, Write, Walk, Rest, TablesFor, Overflown;
    FillIndices(n);
    FillWalk(s, pp, n);
    FillWrite(Walk(s, n * PGSIZE, true).0, pp, n);
  }

  /** What the run of insertions needs: 64 directory entries, and a page for each of them. */
  ghost predicate RoomToFill(s: State, pp: nat) {
    && Inv(s) && Mappable(s, pp) && s.ref[pp] == 0 && |s.free| >= 64
    && forall d: nat :: d < 64 ==> Pde(s, d) == 0
  }

  /** A page that was just allocated can be the one. */
  lemma RoomAfterAlloc(s: State)
    requires Inv(s) && |s.free| >= 65 && forall d: nat :: d < 64 ==> Pde(s, d) == 0
    ensures RoomToFill(Alloc(s).0, s.free[0])
  {
    AllocKeepsInv(s);
    assert s.free[0] in s.free;
    assert forall d: nat :: Pde(Alloc(s).0, d) == Pde(s, d);
  }

  lemma {:induction false} FilledIs(s: State, pp: nat, n: nat)
    requires RoomToFill(s, pp) && n < REF_LIMIT
    ensures FilledTo(Filled(s, pp, n), pp, n)
  {
    hide Inv, Insert, Legal, Overflown;
    if n > 0 {
      FilledIs(s, pp, n - 1);
      FillStep(Filled(s, pp, n - 1), pp, n - 1);
    }
  }

  /** Every state with enough free pages leads to a count of 65535, by calls that keep the
      invariant, and to one more call, which makes the count 0 with 65536 references stored. */
  lemma CountOverflows(s: State, pp: nat, last: nat)
    requires RoomToFill(s, pp) && last == REF_LIMIT - 1
    ensures forall n: nat :: n < last ==> Legal(Filled(s, pp, n), InsertOp(pp, n * PGSIZE, 0))
    ensures Full(Filled(s, pp, last), pp)
    ensures Insert(Filled(s, pp, last), pp, last * PGSIZE, 0).1
    ensures Overflown(Insert(Filled(s, pp, last), pp, last * PGSIZE, 0).0, pp)
  {
    hide Filled, Insert, Legal, Overflown, Inv;
    forall n: nat | n < last ensures Legal(Filled(s, pp, n), InsertOp(pp, n * PGSIZE, 0)) {
      FilledIs(s, pp, n);
      FillStep(Filled(s, pp, n), pp, n);
    }
    FilledIs(s, pp, last);
    FillStep(Filled(s, pp, last), pp, last);
  }

  // ----- removing what is not mapped

  /** `page_remove` of an address that has a page table but no mapping. */
  ghost predicate WrongRemove(s: State, op: Op) {
    op.RemoveOp? && op.rva < ULIM && Pde(s, Pdx(op.rva)) != 0 && Pte(s, Pdx(op.rva), Ptx(op.rva)) == 0
  }

  /** The state with another count for page 0. */
  function WithZeroRef(s: State, x: nat): State
    requires |s.ref| > 0
  {
    s.(ref := s.ref[0 := x])
  }

  /** The invariant holds but for the count of page 0, which is `k` too low, modulo 65536. */
  ghost predicate Damaged(s: State, k: nat) {
    k < REF_LIMIT && |s.ref| > 0 && s.ref[0] == (REF_LIMIT - k) % REF_LIMIT && Inv(WithZeroRef(s, 0))
  }

  lemma ZeroUnreferenced(s: State)
    requires Inv(s)
    ensures |s.ref| > 0 && s.ref[0] == 0 && WithZeroRef(s, 0) == s
  {
    assert PdeRefs(s, 0) == {};
    assert PteRefs(s, 0) == {};
    assert s.ref[0] == Count(s, 0);
    assert s.ref[0 := 0] == s.ref;
  }

  lemma SetRefCommutes(s: State, x: nat, p: nat, n: nat)
    requires |s.ref| > 0 && p != 0
    ensures |SetRef(s, p, n).ref| > 0
    ensures SetRef(WithZeroRef(s, x), p, n) == WithZeroRef(SetRef(s, p, n), x)
    ensures RefOf(WithZeroRef(s, x), p) == RefOf(s, p)
  {
    if p < |s.ref| {
      assert s.ref[0 := x][p := n] == s.ref[p := n][0 := x];
    }
  }

  lemma DecRefCommutes(s: State, x: nat, q: nat)
    requires |s.ref| > 0 && q != 0
    ensures |DecRef(s, q).ref| > 0 && DecRef(WithZeroRef(s, x), q) == WithZeroRef(DecRef(s, q), x)
  {
    SetRefCommutes(s, x, q, (RefOf(s, q) + REF_LIMIT - 1) % REF_LIMIT);
  }

  lemma AllocCommutes(s: State, x: nat)
    requires Inv(s) && |s.ref| > 0
    ensures |Alloc(s).0.ref| > 0 && Alloc(WithZeroRef(s, x)) == (WithZeroRef(Alloc(s).0, x), Alloc(s).1)
  {
    if s.free != [] {
      assert s.free[0] in s.free;
      SetRefCommutes(s.(free := s.free[1..]), x, s.free[0], 0);
    }
  }

  lemma WalkCommutes(s: State, x: nat, va: Word, create: bool)
    requires Inv(s) && |s.ref| > 0
    ensures |Walk(s, va, create).0.ref| > 0
    ensures Walk(WithZeroRef(s, x), va, create) == (WithZeroRef(Walk(s, va, create).0, x), Walk(s, va, create).1)
  {
    if Pde(s, Pdx(va)) == 0 && create && s.free != [] {
      var p := s.free[0];
      assert p in s.free;
      AllocCommutes(s, x);
      SetRefCommutes(Store(Alloc(s).0, s.dir, Pdx(va), Entry(p, PTE_U + PTE_W)), x, p, 1);
    }
  }

  lemma RemoveCommutes(s: State, x: nat, va: Word)
    requires |s.ref| > 0 && (Lookup(s, va).Some? ==> Lookup(s, va).value != 0)
    ensures |Remove(s, va).ref| > 0 && Remove(WithZeroRef(s, x), va) == WithZeroRef(Remove(s, va), x)
  {
    assert Lookup(WithZeroRef(s, x), va) == Lookup(s, va);
    if Lookup(s, va).Some? {
      DecRefCommutes(s, x, Lookup(s, va).value);
    }
  }

  lemma WriteCommutes(s: State, x: nat, pp: nat, va: Word, perm: nat)
    requires Inv(s) && |s.ref| > 0 && va < ULIM && perm < PGSIZE && UserEntry(s, Pdx(va)) && Mappable(s, pp)
    ensures |Write(s, pp, va, perm).ref| > 0
    ensures Write(WithZeroRef(s, x), pp, va, perm) == WithZeroRef(Write(s, pp, va, perm), x)
  {
    var s1 := IncRef(s, pp);
    assert pp != 0;
    SetRefCommutes(s, x, pp, (RefOf(s, pp) + 1) % REF_LIMIT);
    assert IncRef(WithZeroRef(s, x), pp) == WithZeroRef(s1, x);
    assert Pte(s1, Pdx(va), Ptx(va)) == Pte(s, Pdx(va), Ptx(va));
    if Pte(s, Pdx(va), Ptx(va)) != 0 {
      assert EntryPage(Pte(s, Pdx(va), Ptx(va))) != 0;
      hide Inv;
      RemoveCommutes(s1, x, va);
    }
  }

  lemma InsertCommutes(s: State, x: nat, pp: nat, va: Word, perm: nat)
    requires Inv(s) && |s.ref| > 0 && va < ULIM && perm < PGSIZE && Mappable(s, pp)
    ensures |Insert(s, pp, va, perm).0.ref| > 0
    ensures Insert(WithZeroRef(s, x), pp, va, perm) == (WithZeroRef(Insert(s, pp, va, perm).0, x), Insert(s, pp, va, perm).1)
  {
    WalkCommutes(s, x, va, true);
    WalkKeepsInv(s, va, true);
    if Walk(s, va, true).1.Some? {
      WalkForInsert(s, pp, va);
      hide Inv, Walk, Write;
      WriteCommutes(Walk(s, va, true).0, x, pp, va, perm);
    }
  }

  /** Calls that callers may make do not see the count of page 0. */
  lemma StepCommutes(s: State, x: nat, op: Op)
    requires Inv(s) && |s.ref| > 0 && Legal(s, op)
    ensures |Step(s, op).ref| > 0 && Step(WithZeroRef(s, x), op) == WithZeroRef(Step(s, op), x)
  {
    match op
    case AllocOp => AllocCommutes(s, x);
    case FreeOp(p) =>
    case WalkOp(va, create) => WalkCommutes(s, x, va, create);
    case InsertOp(pp, va, perm) => InsertCommutes(s, x, pp, va, perm);
    case RemoveOp(va) =>
      assert Lookup(s, va).Some? ==> UserEntry(s, Pdx(va));
      RemoveCommutes(s, x, va);
  }

  lemma LegalSeesNoZero(s: State, op: Op)
    requires |s.ref| > 0 && 0 in s.reserved && Legal(s, op)
    ensures Legal(WithZeroRef(s, 0), op)
  {
    var s0 := WithZeroRef(s, 0);
    assert forall d :: Pde(s0, d) == Pde(s, d);
    assert forall d, t :: Pte(s0, d, t) == Pte(s, d, t);
  }

  lemma LegalKeepsDamage(s: State, k: nat, op: Op)
    requires Damaged(s, k) && Legal(s, op)
    ensures Damaged(Step(s, op), k)
  {
    hide Inv, Step, Legal;
    var s0 := WithZeroRef(s, 0);
    InvTables(s0);
    LegalSeesNoZero(s, op);
    StepKeepsInv(s0, op);
    StepCommutes(s0, s.ref[0], op);
    assert WithZeroRef(s0, s.ref[0]) == s;
    ZeroUnreferenced(Step(s0, op));
    assert WithZeroRef(Step(s, op), 0) == Step(s0, op);
  }

  /** What a wrong call does: the count of page 0 goes down by one, and when it gets to 0 the
      page is freed. */
  lemma WrongRemoveEffect(s: State, k: nat, op: Op)
    requires Damaged(s, k) && WrongRemove(s, op)
    ensures Step(s, op) == if k == REF_LIMIT - 1 then WithZeroRef(s, 0).(free := [0] + s.free)
                           else WithZeroRef(s, REF_LIMIT - 1 - k)
    ensures k < REF_LIMIT - 1 ==> Damaged(Step(s, op), k + 1)
  {
    hide Inv;
    var va := op.rva;
    var page, t := Table(s, Pdx(va)), Ptx(va);
    assert Lookup(s, va) == Some(0);
    var n := (s.ref[0] + REF_LIMIT - 1) % REF_LIMIT;
    assert n == if k == REF_LIMIT - 1 then 0 else REF_LIMIT - 1 - k;
    StoreNothing(DecRef(s, 0), page, t);
    if k < REF_LIMIT - 1 {
      assert WithZeroRef(WithZeroRef(s, n), 0) == WithZeroRef(s, 0);
    }
  }

  /** Clearing a word that is 0 changes nothing. */
  lemma StoreNothing(s: State, page: nat, k: nat)
    requires Load(s, page, k) == 0
    ensures Store(s, page, k, 0) == s
  {
    if page < |s.mem| && k < NPTENTRIES {
      assert s.mem[page][k := 0] == s.mem[page];
      assert s.mem[page := s.mem[page]] == s.mem;
    }
  }

  /** A run in which `page_remove` is called for any addresses below ULIM. */
  ghost predicate IsAnyRun(states: seq<State>, ops: seq<Op>) {
    && |states| == |ops| + 1
    && forall i :: 0 <= i < |ops| ==>
         (Legal(states[i], ops[i]) || WrongRemove(states[i], ops[i])) && states[i + 1] == Step(states[i], ops[i])
  }

  /** The number of wrong calls among the first `n`. */
  ghost function WrongRemoves(states: seq<State>, ops: seq<Op>, n: nat): nat
    requires n <= |ops| && n <= |states|
  {
    if n == 0 then 0 else WrongRemoves(states, ops, n - 1) + if WrongRemove(states[n - 1], ops[n - 1]) then 1 else 0
  }

  lemma WrongIsNotLegal(s: State, op: Op)
    requires WrongRemove(s, op)
    ensures !Legal(s, op)
  {
  }

  /** After every such run with less than 65536 wrong calls, all is as the invariant says but for
      the count of page 0, and that is minus their number. */
  lemma {:induction false} AnyRunDamages(states: seq<State>, ops: seq<Op>, n: nat)
    requires IsAnyRun(states, ops) && Inv(states[0]) && n < |states|
    requires WrongRemoves(states, ops, n) < REF_LIMIT
    ensures Damaged(states[n], WrongRemoves(states, ops, n))
  {
    if n == 0 {
      ZeroUnreferenced(states[0]);
    } else {
      hide Inv, Step, Legal, WrongRemove, Damaged;
      var s, op, k := states[n - 1], ops[n - 1], WrongRemoves(states, ops, n - 1);
      AnyRunDamages(states, ops, n - 1);
      if WrongRemove(s, op) {
        WrongRemoveEffect(s, k, op);
      } else {
        LegalKeepsDamage(s, k, op);
      }
    }
  }

  /** With the 65536th, page 0, which holds the interrupt table of the BIOS, is on the free list,
      and the next allocation hands it out. */
  lemma AnyRunFreesPageZero(states: seq<State>, ops: seq<Op>, n: nat)
    requires IsAnyRun(states, ops) && Inv(states[0]) && n < |ops|
    requires WrongRemoves(states, ops, n) == REF_LIMIT - 1 && WrongRemove(states[n], ops[n])
    ensures states[n + 1].free == [0] + states[n].free && Alloc(states[n + 1]).1 == Some(0)
  {
    AnyRunDamages(states, ops, n);
    WrongRemoveEffect(states[n], REF_LIMIT - 1, ops[n]);
  }
}
