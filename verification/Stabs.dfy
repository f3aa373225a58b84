/** `stab_binsearch` of kern/kdebug.c: a binary search for the records of one kind in a
    table where they are mixed with others. */
module Stabs {
  import opened Mmu

  /** The entries of the stabs table that the search and its callers use. */
  datatype Stab = Stab(strx: Word, kind: nat, desc: nat, value: Word)

  /** The variables of the search: the interval, the address, `*region_left`,
      `*region_right` and `any_matches`. */
  datatype Search = Search(l: int, r: int, addr: Word, left: int, right: int, any: bool)

  // ----- what the loops compute

  /** The last record of the kind in [l, m], or l - 1. */
  function ScanBack(stabs: seq<Stab>, kind: nat, l: int, m: int): (k: int)
    requires 0 <= l <= m + 1 <= |stabs|
    ensures l - 1 <= k <= m
    ensures k >= l ==> stabs[k].kind == kind
    ensures forall j :: k < j <= m ==> stabs[j].kind != kind
    decreases m - l + 1
  {
    if m < l || stabs[m].kind == kind then m else ScanBack(stabs, kind, l, m - 1)
  }

  ghost predicate InTable(stabs: seq<Stab>, s: Search) {
    0 <= s.l && s.r < |stabs|
  }

  /** `addr++` */
  function Next(addr: Word): Word {
    if addr == 0xFFFF_FFFF then 0 else addr + 1
  }

  /** One round of the loop, once the middle and the record to compare are known. */
  function Narrow(stabs: seq<Stab>, s: Search, trueM: int, m: int): Search
    requires m >= s.l ==> 0 <= m < |stabs|
  {
    if m < s.l then Search(trueM + 1, s.r, s.addr, s.left, s.right, s.any)
    else if stabs[m].value < s.addr then Search(trueM + 1, s.r, s.addr, m, s.right, true)
    else if stabs[m].value > s.addr then Search(s.l, m - 1, s.addr, s.left, m - 1, true)
    else Search(m, s.r, Next(s.addr), m, s.right, true)
  }

  function Mid(l: int, r: int): (m: int)
    requires l <= r
    ensures l <= m <= r
  {
    (l + r) / 2
  }

  /** One round of the loop. */
  function Halve(stabs: seq<Stab>, kind: nat, s: Search): Search
    requires InTable(stabs, s) && s.l <= s.r
  {
    Narrow(stabs, s, Mid(s.l, s.r), ScanBack(stabs, kind, s.l, Mid(s.l, s.r)))
  }

  /** Whether the first record of the interval is an exact match. */
  predicate HitFirst(stabs: seq<Stab>, kind: nat, s: Search) {
    0 <= s.l < |stabs| && stabs[s.l].kind == kind && stabs[s.l].value == s.addr
  }

  /** The records left to search. */
  function Width(s: Search): nat {
    if s.l <= s.r then s.r - s.l + 1 else 0
  }

  /** The measure by which the search ends on every table, sorted or not: a round that
      does not shorten the interval moves the address off its first record. */
  lemma HalveDescends(stabs: seq<Stab>, kind: nat, s: Search)
    requires InTable(stabs, s) && s.l <= s.r
    ensures var s' := Halve(stabs, kind, s);
            && InTable(stabs, s') && s.l <= s'.l && s'.r <= s.r
            && (Width(s') < Width(s) ||
                (Width(s') == Width(s) && HitFirst(stabs, kind, s) && !HitFirst(stabs, kind, s')))
  {
  }

  /** The loop. */
  function Loop(stabs: seq<Stab>, kind: nat, s: Search): Search
    requires InTable(stabs, s)
    decreases Width(s), HitFirst(stabs, kind, s)
  {
    if s.l > s.r then s
    else
      HalveDescends(stabs, kind, s);
      Loop(stabs, kind, Halve(stabs, kind, s))
  }

  /** `s'` continues the search of `s`. */
  ghost predicate Continues(stabs: seq<Stab>, kind: nat, s: Search, s': Search)
    requires InTable(stabs, s)
  {
    && 0 <= s'.l && s'.r < |stabs|
    && Loop(stabs, kind, s) == Loop(stabs, kind, s')
    && Rank(stabs, kind, s') < Rank(stabs, kind, s)
  }

  /** A round, given where the backward scan stops. */
  lemma Round(stabs: seq<Stab>, kind: nat, s: Search, m: int, s': Search)
    requires 0 <= s.l <= s.r < |stabs| && m == ScanBack(stabs, kind, s.l, Mid(s.l, s.r))
    requires s' == Narrow(stabs, s, Mid(s.l, s.r), m)
    ensures Continues(stabs, kind, s, s')
  {
    HalveDescends(stabs, kind, s);
    assert Loop(stabs, kind, s) == Loop(stabs, kind, Halve(stabs, kind, s));
  }

  /** The measure of `HalveDescends` as a number. */
  function Rank(stabs: seq<Stab>, kind: nat, s: Search): nat {
    2 * Width(s) + if HitFirst(stabs, kind, s) then 1 else 0
  }

  lemma LoopDone(stabs: seq<Stab>, kind: nat, s: Search)
    requires InTable(stabs, s) && s.l > s.r
    ensures Loop(stabs, kind, s) == s
  {
  }

  /** What follows the loop. */
  function Finish(stabs: seq<Stab>, kind: nat, s: Search): (int, int)
    requires -1 <= s.left && s.right < |stabs|
  {
    if !s.any then (s.left, s.left - 1)
    else if s.right <= s.left then (s.right, s.right)
    else (ScanBack(stabs, kind, s.left + 1, s.right), s.right)
  }

  lemma {:induction false} LoopInTable(stabs: seq<Stab>, kind: nat, s: Search)
    requires InTable(stabs, s) && 0 <= s.left && s.right < |stabs|
    ensures 0 <= Loop(stabs, kind, s).left && Loop(stabs, kind, s).right < |stabs|
    decreases Width(s), HitFirst(stabs, kind, s)
  {
    if s.l <= s.r {
      HalveDescends(stabs, kind, s);
      LoopInTable(stabs, kind, Halve(stabs, kind, s));
    }
  }

  function Begin(left: int, right: int, addr: Word): Search {
    Search(left, right, addr, left, right, false)
  }

  /** The new `*region_left` and `*region_right`. */
  function BinSearch(stabs: seq<Stab>, left: int, right: int, kind: nat, addr: Word): (int, int)
    requires 0 <= left && right < |stabs|
  {
    LoopInTable(stabs, kind, Begin(left, right, addr));
    Finish(stabs, kind, Loop(stabs, kind, Begin(left, right, addr)))
  }

  lemma BinSearchIs(stabs: seq<Stab>, left: int, right: int, kind: nat, addr: Word)
    requires 0 <= left && right < |stabs|
    ensures var s := Loop(stabs, kind, Begin(left, right, addr));
            && 0 <= s.left && s.right < |stabs|
            && BinSearch(stabs, left, right, kind, addr) == Finish(stabs, kind, s)
  {
    LoopInTable(stabs, kind, Begin(left, right, addr));
  }

  /** The end of the search, which finds the rightmost region that holds the address. */
  method FindRightmost(stabs: seq<Stab>, kind: nat, s: Search) returns (left: int, right: int)
    requires 0 <= s.left && s.right < |stabs|
    ensures (left, right) == Finish(stabs, kind, s)
  {
    left, right := s.left, s.right;
    if !s.any {
      right := left - 1;
    } else {
      var l := right;
      while l > left && stabs[l].kind != kind
        invariant l <= right
        invariant right > left ==> left <= l && ScanBack(stabs, kind, left + 1, l) == ScanBack(stabs, kind, left + 1, right)
        invariant right <= left ==> l == right
      {
        l := l - 1;
      }
      left := l;
    }
  }

  /** The inner loop of the search, back to the nearest record of the right kind. */
  method EarliestWithKind(stabs: seq<Stab>, kind: nat, l: int, trueM: int) returns (m: int)
    requires 0 <= l <= trueM < |stabs|
    ensures m == ScanBack(stabs, kind, l, trueM)
  {
    m := trueM;
    while m >= l && stabs[m].kind != kind
      invariant l - 1 <= m <= trueM
      invariant ScanBack(stabs, kind, l, m) == ScanBack(stabs, kind, l, trueM)
    {
      m := m - 1;
    }
  }

  /** The search. It ends on every table and stays inside it. */
  method StabBinsearch(stabs: seq<Stab>, left: int, right: int, kind: nat, addr: Word) returns (left': int, right': int)
    requires 0 <= left && right < |stabs|
    ensures (left', right') == BinSearch(stabs, left, right, kind, addr)
  {
    var regionLeft, regionRight := left, right;
    var l, r, anyMatches := left, right, false;
    var a: Word := addr;
    BinSearchIs(stabs, left, right, kind, addr);
    hide Mid, Rank, Loop, ScanBack, BinSearch, Next;
    while l <= r
      invariant 0 <= l && r < |stabs|
      invariant Loop(stabs, kind, Begin(left, right, addr))
             == Loop(stabs, kind, Search(l, r, a, regionLeft, regionRight, anyMatches))
      decreases Rank(stabs, kind, Search(l, r, a, regionLeft, regionRight, anyMatches))
    {
      ghost var s := Search(l, r, a, regionLeft, regionRight, anyMatches);
      var trueM := Mid(l, r);
      var m := EarliestWithKind(stabs, kind, l, trueM);
      if m < l {
        l := trueM + 1;
      } else if stabs[m].value < a {
        anyMatches, regionLeft, l := true, m, trueM + 1;
      } else if stabs[m].value > a {
        anyMatches, regionRight, r := true, m - 1, m - 1;
      } else {
        anyMatches, regionLeft, l, a := true, m, m, Next(a);
      }
      Round(stabs, kind, s, m, Search(l, r, a, regionLeft, regionRight, anyMatches));
    }
    LoopDone(stabs, kind, Search(l, r, a, regionLeft, regionRight, anyMatches));
    left', right' := FindRightmost(stabs, kind, Search(l, r, a, regionLeft, regionRight, anyMatches));
  }

  // ----- what the search finds

  /** The records of the kind are in order of their values. */
  ghost predicate SortedIn(stabs: seq<Stab>, left: int, right: int, kind: nat)
    requires 0 <= left && right < |stabs|
  {
    forall i, j {:trigger stabs[i], stabs[j]} ::
      left <= i <= j <= right && stabs[i].kind == kind && stabs[j].kind == kind ==> stabs[i].value <= stabs[j].value
  }

  ghost predicate HasValue(stabs: seq<Stab>, left: int, right: int, kind: nat, v: int)
    requires 0 <= left && right < |stabs|
  {
    exists i :: left <= i <= right && stabs[i].kind == kind && stabs[i].value == v
  }

  const LAST_ADDR: Word := 0xFFFF_FFFF

  /** Where bisection without the step of the address first meets a record of the kind with
      that address, and the right end of the interval then. */
  datatype Meeting = NotMet | Met(m: int, r: int)

  function Meet(stabs: seq<Stab>, kind: nat, l: int, r: int, addr: Word): (e: Meeting)
    requires 0 <= l && r < |stabs|
    ensures e.Met? ==> l <= e.m <= e.r <= r && stabs[e.m].kind == kind && stabs[e.m].value == addr
    decreases r - l + 1
  {
    if l > r then NotMet
    else
      var m := ScanBack(stabs, kind, l, Mid(l, r));
      if m < l || stabs[m].value < addr then Meet(stabs, kind, Mid(l, r) + 1, r, addr)
      else if stabs[m].value > addr then Meet(stabs, kind, l, m - 1, addr)
      else Met(m, r)
  }

  /** From the meeting on, no record has the next address. */
  ghost predicate StepsOver(stabs: seq<Stab>, kind: nat, addr: Word, e: Meeting)
    requires e.Met? ==> 0 <= e.m && e.r < |stabs|
  {
    e.Met? ==> addr < LAST_ADDR && !HasValue(stabs, e.m, e.r, kind, addr + 1)
  }

  /** The one case that comes out right although a record has the next address: that is the
      last address of all, a second step wraps to 0, and the search ends just before the record
      where it was made. */
  ghost predicate WrapsBack(stabs: seq<Stab>, kind: nat, addr: Word, e: Meeting)
    requires e.Met? ==> 0 <= e.m && e.r < |stabs|
  {
    && e.Met? && addr + 1 == LAST_ADDR
    && var f := Meet(stabs, kind, e.m, e.r, LAST_ADDR);
       f.Met? && f.m > 0 && stabs[f.m - 1].kind == kind && stabs[f.m - 1].value < LAST_ADDR
  }

  /** When the search lands right, for records in order; see `SearchBrackets`. */
  ghost predicate LandsRight(stabs: seq<Stab>, left: int, right: int, kind: nat, addr: Word)
    requires 0 <= left && right < |stabs|
  {
    var e := Meet(stabs, kind, left, right, addr);
    StepsOver(stabs, kind, addr, e) || WrapsBack(stabs, kind, addr, e)
  }

  /** An address that is no value of the kind, or whose successor exists and is none, is a safe one. */
  lemma SeparatedLandsRight(stabs: seq<Stab>, left: int, right: int, kind: nat, addr: Word)
    requires 0 <= left && right < |stabs|
    requires HasValue(stabs, left, right, kind, addr) ==>
               addr < LAST_ADDR && !HasValue(stabs, left, right, kind, addr + 1)
    ensures LandsRight(stabs, left, right, kind, addr)
  {
    var e := Meet(stabs, kind, left, right, addr);
    if e.Met? {
      assert HasValue(stabs, left, right, kind, addr);
    }
  }

  ghost predicate NoneIn(stabs: seq<Stab>, from: int, to: int, kind: nat)
    requires 0 <= from && to <= |stabs|
  {
    forall i :: from <= i < to ==> stabs[i].kind != kind
  }

  /** `k` is the last record of the kind that is at or below the address. */
  ghost predicate Last(stabs: seq<Stab>, left: int, right: int, kind: nat, addr: int, k: int)
    requires 0 <= left && right < |stabs|
  {
    && left <= k <= right && stabs[k].kind == kind && stabs[k].value <= addr
    && forall i :: k < i <= right && stabs[i].kind == kind ==> stabs[i].value > addr
  }

  /** `k` is just before the first record of the kind in [from, right], or `right`. */
  ghost predicate JustBeforeNext(stabs: seq<Stab>, from: int, right: int, kind: nat, k: int)
    requires 0 <= from && right < |stabs|
  {
    && from - 1 <= k <= right
    && NoneIn(stabs, from, k + 1, kind)
    && (k == right || stabs[k + 1].kind == kind)
  }

  /** Either the address is to be stepped over where it is met, or it was stepped and no record
      that is left has the next one. */
  ghost predicate Steps(stabs: seq<Stab>, kind: nat, addr: Word, s: Search)
    requires 0 <= s.l && s.r < |stabs|
  {
    || (s.addr == addr && StepsOver(stabs, kind, addr, Meet(stabs, kind, s.l, s.r, addr)))
    || (s.addr == addr + 1 && !HasValue(stabs, s.l, s.r, kind, addr + 1))
  }

  lemma HalveSteps(stabs: seq<Stab>, kind: nat, addr: Word, s: Search)
    requires 0 <= s.l <= s.r < |stabs| && Steps(stabs, kind, addr, s)
    ensures var s', m := Halve(stabs, kind, s), ScanBack(stabs, kind, s.l, Mid(s.l, s.r));
            && 0 <= s'.l && s'.r < |stabs| && Steps(stabs, kind, addr, s')
            && (s.addr == addr || s.addr == addr + 1)
            && (m >= s.l && stabs[m].value == s.addr ==> s.addr == addr)
  {
    hide ScanBack, Mid;
    var m := ScanBack(stabs, kind, s.l, Mid(s.l, s.r));
    assert m >= s.l && stabs[m].value == addr + 1 ==> HasValue(stabs, s.l, s.r, kind, addr + 1);
  }

  /** The variables of the search in between: what is right of the interval is above the
      address, and `left` is the last record of the kind that is left of it or is its
      first record, if there is one. */
  ghost predicate Narrowed(stabs: seq<Stab>, left: int, right: int, kind: nat, addr: Word, s: Search)
    requires 0 <= left && right < |stabs|
  {
    && left <= s.l <= s.r + 1 && s.r == s.right <= right
    && Steps(stabs, kind, addr, s)
    && RightPart(stabs, right, kind, addr, s)
    && (LeftPartEmpty(stabs, left, right, kind, addr, s) || LeftPart(stabs, left, kind, addr, s))
  }

  ghost predicate RightPart(stabs: seq<Stab>, right: int, kind: nat, addr: Word, s: Search)
    requires right < |stabs| && -1 <= s.r <= right
  {
    if s.r == right then true
    else s.any && stabs[s.r + 1].kind == kind && stabs[s.r + 1].value > addr
  }

  ghost predicate LeftPartEmpty(stabs: seq<Stab>, left: int, right: int, kind: nat, addr: Word, s: Search)
    requires 0 <= left <= s.l <= s.r + 1 <= |stabs|
  {
    s.left == left && s.addr == addr && NoneIn(stabs, left, s.l, kind) && (s.any ==> s.r < right)
  }

  ghost predicate LeftPart(stabs: seq<Stab>, left: int, kind: nat, addr: Word, s: Search)
    requires 0 <= left <= s.l <= s.r + 1 <= |stabs|
  {
    && s.any && left <= s.left <= s.l && s.left <= s.r
    && stabs[s.left].kind == kind && stabs[s.left].value <= addr
    && NoneIn(stabs, s.left + 1, s.l, kind)
  }

  lemma HalveNarrows(stabs: seq<Stab>, left: int, right: int, kind: nat, addr: Word, s: Search)
    requires 0 <= left && right < |stabs| && SortedIn(stabs, left, right, kind)
    requires Narrowed(stabs, left, right, kind, addr, s) && s.l <= s.r
    ensures Narrowed(stabs, left, right, kind, addr, Halve(stabs, kind, s))
  {
    hide ScanBack, Mid, Steps, HasValue;
    HalveSteps(stabs, kind, addr, s);
  }

  /** What the search leaves in `*region_left` and `*region_right`. */
  ghost predicate Bracketed(stabs: seq<Stab>, left: int, right: int, kind: nat, addr: Word, left': int, right': int)
    requires 0 <= left && right < |stabs|
  {
    if NoneIn(stabs, left, right + 1, kind) then
      left' == left && right' == left - 1
    else if exists i :: left <= i <= right && stabs[i].kind == kind && stabs[i].value <= addr then
      Last(stabs, left, right, kind, addr, left') && JustBeforeNext(stabs, left' + 1, right, kind, right')
    else
      JustBeforeNext(stabs, left, right, kind, right') && left' == if left <= right' then left else right'
  }

  lemma {:induction false} LoopNarrows(stabs: seq<Stab>, left: int, right: int, kind: nat, addr: Word, s: Search)
    requires 0 <= left && right < |stabs|
    requires SortedIn(stabs, left, right, kind) && Narrowed(stabs, left, right, kind, addr, s)
    ensures var e := Loop(stabs, kind, s); Narrowed(stabs, left, right, kind, addr, e) && e.l == e.r + 1
    decreases Rank(stabs, kind, s)
  {
    if s.l <= s.r {
      HalveDescends(stabs, kind, s);
      HalveNarrows(stabs, left, right, kind, addr, s);
      LoopNarrows(stabs, left, right, kind, addr, Halve(stabs, kind, s));
    }
  }

  lemma EndBrackets(stabs: seq<Stab>, left: int, right: int, kind: nat, addr: Word, e: Search)
    requires 0 <= left && right < |stabs| && SortedIn(stabs, left, right, kind)
    requires Narrowed(stabs, left, right, kind, addr, e) && e.l == e.r + 1
    ensures 0 <= e.left && e.right < |stabs|
    ensures Bracketed(stabs, left, right, kind, addr, Finish(stabs, kind, e).0, Finish(stabs, kind, e).1)
  {
    var (left', right') := Finish(stabs, kind, e);
    if LeftPart(stabs, left, kind, addr, e) {
      assert ScanBack(stabs, kind, e.left + 1, e.right) == e.left;
      assert left' == e.left;
      assert stabs[left'].kind == kind;
      assert Last(stabs, left, right, kind, addr, left');
    } else if e.any {
      assert stabs[e.r + 1].kind == kind;
    }
  }

  // ----- where it goes wrong

  /** The search after an exact match at `e`. */
  function AfterMatch(e: Meeting, next: Word): Search
    requires e.Met?
  {
    Search(e.m, e.r, next, e.m, e.r, true)
  }

  lemma MeetUnfold(stabs: seq<Stab>, kind: nat, l: int, r: int, addr: Word)
    requires 0 <= l <= r < |stabs|
    ensures var m := ScanBack(stabs, kind, l, Mid(l, r));
            && (m < l || stabs[m].value < addr ==> Meet(stabs, kind, l, r, addr) == Meet(stabs, kind, Mid(l, r) + 1, r, addr))
            && (m >= l && stabs[m].value > addr ==> Meet(stabs, kind, l, r, addr) == Meet(stabs, kind, l, m - 1, addr))
            && (m >= l && stabs[m].value == addr ==> Meet(stabs, kind, l, r, addr) == Met(m, r))
  {
    hide ScanBack, Mid;
  }

  lemma LoopUnfold(stabs: seq<Stab>, kind: nat, s: Search)
    requires InTable(stabs, s) && s.l <= s.r
    ensures InTable(stabs, Halve(stabs, kind, s))
    ensures Loop(stabs, kind, s) == Loop(stabs, kind, Halve(stabs, kind, s))
    ensures Rank(stabs, kind, Halve(stabs, kind, s)) < Rank(stabs, kind, s)
  {
    HalveDescends(stabs, kind, s);
    hide Halve, HitFirst;
  }

  /** The search gets to the meeting. */
  lemma {:induction false} LoopToMeeting(stabs: seq<Stab>, kind: nat, s: Search)
    requires 0 <= s.l && s.r == s.right < |stabs| && Meet(stabs, kind, s.l, s.r, s.addr).Met?
    ensures var e := Meet(stabs, kind, s.l, s.r, s.addr);
            Loop(stabs, kind, s) == Loop(stabs, kind, AfterMatch(e, Next(s.addr)))
    decreases Rank(stabs, kind, s)
  {
    hide Loop, Meet, ScanBack, Mid, Next, Rank;
    MeetUnfold(stabs, kind, s.l, s.r, s.addr);
    LoopUnfold(stabs, kind, s);
    var m := ScanBack(stabs, kind, s.l, Mid(s.l, s.r));
    if m < s.l || stabs[m].value != s.addr {
      LoopToMeeting(stabs, kind, Halve(stabs, kind, s));
    }
  }

  /** A record in the interval is met. */
  lemma {:induction false} SortedMeets(stabs: seq<Stab>, left: int, right: int, kind: nat, l: int, r: int, addr: Word, i: int)
    requires 0 <= left <= l && r <= right < |stabs| && SortedIn(stabs, left, right, kind)
    requires l <= i <= r && stabs[i].kind == kind && stabs[i].value == addr
    ensures Meet(stabs, kind, l, r, addr).Met?
    decreases r - l + 1
  {
    hide Meet, ScanBack, Mid;
    MeetUnfold(stabs, kind, l, r, addr);
    var m := ScanBack(stabs, kind, l, Mid(l, r));
    if m < l || stabs[m].value < addr {
      SortedMeets(stabs, left, right, kind, Mid(l, r) + 1, r, addr, i);
    } else if stabs[m].value > addr {
      SortedMeets(stabs, left, right, kind, l, m - 1, addr, i);
    }
  }

  /** The search has just wrapped at the record `l`: all records that are left are above 0. */
  ghost predicate Wrapped(stabs: seq<Stab>, left: int, right: int, kind: nat, s: Search)
    requires 0 <= left && right < |stabs|
  {
    && left <= s.l <= s.r + 1 && s.r == s.right <= right && s.l <= right && s.left == s.l && s.any && s.addr == 0
    && stabs[s.l].kind == kind && stabs[s.l].value == LAST_ADDR
  }

  lemma HalveWrapped(stabs: seq<Stab>, left: int, right: int, kind: nat, s: Search)
    requires 0 <= left && right < |stabs| && SortedIn(stabs, left, right, kind)
    requires Wrapped(stabs, left, right, kind, s) && s.l <= s.r
    ensures Wrapped(stabs, left, right, kind, Halve(stabs, kind, s)) && Halve(stabs, kind, s).l == s.l
  {
    var m := ScanBack(stabs, kind, s.l, Mid(s.l, s.r));
    assert s.l <= m && stabs[m].value == LAST_ADDR;
  }

  /** The search goes back to where it wrapped. */
  lemma {:induction false} LoopWrapped(stabs: seq<Stab>, left: int, right: int, kind: nat, s: Search)
    requires 0 <= left && right < |stabs| && SortedIn(stabs, left, right, kind)
    requires Wrapped(stabs, left, right, kind, s)
    ensures Loop(stabs, kind, s) == Search(s.l, s.l - 1, 0, s.l, s.l - 1, true)
    decreases Rank(stabs, kind, s)
  {
    if s.l <= s.r {
      HalveDescends(stabs, kind, s);
      HalveWrapped(stabs, left, right, kind, s);
      LoopWrapped(stabs, left, right, kind, Halve(stabs, kind, s));
    }
  }

  /** A search that is behind a record above the address, and has stepped past the value of the
      record that it takes for the last one. */
  ghost predicate Beyond(stabs: seq<Stab>, left: int, right: int, kind: nat, addr: Word, s: Search)
    requires 0 <= left && right < |stabs|
  {
    && left <= s.left <= s.l <= s.r + 1 && s.left <= s.r == s.right <= right && s.any
    && stabs[s.left].kind == kind && addr < stabs[s.left].value < s.addr
  }

  lemma HalveBeyond(stabs: seq<Stab>, left: int, right: int, kind: nat, addr: Word, s: Search)
    requires 0 <= left && right < |stabs| && SortedIn(stabs, left, right, kind)
    requires Beyond(stabs, left, right, kind, addr, s) && s.l <= s.r
    ensures var s' := Halve(stabs, kind, s);
            || Beyond(stabs, left, right, kind, addr, s')
            || (Wrapped(stabs, left, right, kind, s') && Misses(stabs, left, right, kind, addr, s'.l - 1))
  {
    hide ScanBack, Mid;
    var m := ScanBack(stabs, kind, s.l, Mid(s.l, s.r));
  }

  /** The answer is not the last record at or below the address. */
  ghost predicate Misses(stabs: seq<Stab>, left: int, right: int, kind: nat, addr: Word, k: int)
    requires 0 <= left && right < |stabs|
  {
    left <= k <= right && stabs[k].kind == kind ==> stabs[k].value > addr
  }

  lemma BeyondMisses(stabs: seq<Stab>, left: int, right: int, kind: nat, addr: Word, s: Search)
    requires 0 <= left && right < |stabs| && SortedIn(stabs, left, right, kind)
    requires Beyond(stabs, left, right, kind, addr, s)
    ensures Misses(stabs, left, right, kind, addr, Finish(stabs, kind, s).0)
  {
    hide ScanBack;
  }

  lemma {:induction false} LoopBeyond(stabs: seq<Stab>, left: int, right: int, kind: nat, addr: Word, s: Search)
    requires 0 <= left && right < |stabs| && SortedIn(stabs, left, right, kind)
    requires Beyond(stabs, left, right, kind, addr, s)
    ensures var e := Loop(stabs, kind, s);
            && 0 <= e.left && e.right < |stabs|
            && Misses(stabs, left, right, kind, addr, Finish(stabs, kind, e).0)
    decreases Rank(stabs, kind, s)
  {
    hide Misses, Narrow, ScanBack;
    if s.l <= s.r {
      HalveDescends(stabs, kind, s);
      HalveBeyond(stabs, left, right, kind, addr, s);
      if Beyond(stabs, left, right, kind, addr, Halve(stabs, kind, s)) {
        LoopBeyond(stabs, left, right, kind, addr, Halve(stabs, kind, s));
      } else {
        LoopWrapped(stabs, left, right, kind, Halve(stabs, kind, s));
      }
    } else {
      BeyondMisses(stabs, left, right, kind, addr, s);
    }
  }

  /** The two meetings of a search that steps onto another record. */
  lemma SecondMeeting(stabs: seq<Stab>, left: int, right: int, kind: nat, addr: Word, e: Meeting, i: int)
    requires 0 <= left && right < |stabs| && SortedIn(stabs, left, right, kind)
    requires e == Meet(stabs, kind, left, right, addr) && e.Met? && addr < LAST_ADDR
    requires e.m <= i <= e.r && stabs[i].kind == kind && stabs[i].value == addr + 1
    ensures var f := Meet(stabs, kind, e.m, e.r, addr + 1);
            && f.Met? && left <= e.m < f.m <= f.r <= right
            && Loop(stabs, kind, Begin(left, right, addr)) == Loop(stabs, kind, AfterMatch(f, Next(addr + 1)))
  {
    hide Loop, Meet;
    LoopToMeeting(stabs, kind, Begin(left, right, addr));
    SortedMeets(stabs, left, right, kind, e.m, e.r, addr + 1, i);
    LoopToMeeting(stabs, kind, AfterMatch(e, addr + 1));
  }

  /** With a record at the next address, the search lands right only by the wrap. */
  lemma StepLandsWrong(stabs: seq<Stab>, left: int, right: int, kind: nat, addr: Word, e: Meeting, i: int)
    requires 0 <= left && right < |stabs| && SortedIn(stabs, left, right, kind)
    requires e == Meet(stabs, kind, left, right, addr) && e.Met? && addr < LAST_ADDR
    requires e.m <= i <= e.r && stabs[i].kind == kind && stabs[i].value == addr + 1
    ensures var (left', right') := BinSearch(stabs, left, right, kind, addr);
            Bracketed(stabs, left, right, kind, addr, left', right') <==> WrapsBack(stabs, kind, addr, e)
  {
    hide Loop, Meet, BinSearch, Bracketed, ScanBack, SortedIn;
    BinSearchIs(stabs, left, right, kind, addr);
    SecondMeeting(stabs, left, right, kind, addr, e, i);
    var f := Meet(stabs, kind, e.m, e.r, addr + 1);
    if addr + 1 == LAST_ADDR {
      LoopWrapped(stabs, left, right, kind, AfterMatch(f, 0));
      WrapAnswer(stabs, left, right, kind, addr, e.m, f.m);
    } else {
      LoopBeyond(stabs, left, right, kind, addr, AfterMatch(f, addr + 2));
      var (left', right') := BinSearch(stabs, left, right, kind, addr);
      MissIsWrong(stabs, left, right, kind, addr, e.m, left', right');
    }
  }

  lemma MissIsWrong(stabs: seq<Stab>, left: int, right: int, kind: nat, addr: Word, i: int, left': int, right': int)
    requires 0 <= left <= i <= right < |stabs| && stabs[i].kind == kind && stabs[i].value <= addr
    requires Misses(stabs, left, right, kind, addr, left')
    ensures !Bracketed(stabs, left, right, kind, addr, left', right')
  {
  }

  /** What the wrap at the record `k` answers. */
  lemma WrapAnswer(stabs: seq<Stab>, left: int, right: int, kind: nat, addr: Word, i: int, k: int)
    requires 0 <= left <= i < k <= right < |stabs| && SortedIn(stabs, left, right, kind)
    requires stabs[i].kind == kind && stabs[i].value == addr && addr + 1 == LAST_ADDR
    requires stabs[k].kind == kind && stabs[k].value == LAST_ADDR
    ensures Bracketed(stabs, left, right, kind, addr, k - 1, k - 1)
       <==> stabs[k - 1].kind == kind && stabs[k - 1].value < LAST_ADDR
  {
    if stabs[k - 1].kind == kind && stabs[k - 1].value < LAST_ADDR {
      assert Last(stabs, left, right, kind, addr, k - 1);
    }
  }

  /** The last address cannot be stepped over. */
  lemma LastAddressLandsWrong(stabs: seq<Stab>, left: int, right: int, kind: nat, e: Meeting)
    requires 0 <= left && right < |stabs| && SortedIn(stabs, left, right, kind)
    requires e == Meet(stabs, kind, left, right, LAST_ADDR) && e.Met?
    ensures var (left', right') := BinSearch(stabs, left, right, kind, LAST_ADDR);
            !Bracketed(stabs, left, right, kind, LAST_ADDR, left', right')
  {
    hide Loop, Meet, BinSearch, ScanBack, SortedIn;
    BinSearchIs(stabs, left, right, kind, LAST_ADDR);
    LoopToMeeting(stabs, kind, Begin(left, right, LAST_ADDR));
    LoopWrapped(stabs, left, right, kind, AfterMatch(e, 0));
    assert BinSearch(stabs, left, right, kind, LAST_ADDR) == (e.m - 1, e.m - 1);
    assert !Last(stabs, left, right, kind, LAST_ADDR, e.m - 1);
  }

  lemma RightLandsRight(stabs: seq<Stab>, left: int, right: int, kind: nat, addr: Word)
    requires 0 <= left && right < |stabs| && SortedIn(stabs, left, right, kind)
    requires StepsOver(stabs, kind, addr, Meet(stabs, kind, left, right, addr))
    ensures var (left', right') := BinSearch(stabs, left, right, kind, addr);
            Bracketed(stabs, left, right, kind, addr, left', right')
  {
    BinSearchIs(stabs, left, right, kind, addr);
    if left <= right + 1 {
      LoopNarrows(stabs, left, right, kind, addr, Begin(left, right, addr));
      EndBrackets(stabs, left, right, kind, addr, Loop(stabs, kind, Begin(left, right, addr)));
    }
  }

  /** For records in order, and every address, the search finds the last record at or below the
      address and the place just before the next one, exactly when it can step over the address
      where bisection first meets it. */
  lemma SearchBrackets(stabs: seq<Stab>, left: int, right: int, kind: nat, addr: Word)
    requires 0 <= left && right < |stabs| && SortedIn(stabs, left, right, kind)
    ensures var (left', right') := BinSearch(stabs, left, right, kind, addr);
            Bracketed(stabs, left, right, kind, addr, left', right') <==> LandsRight(stabs, left, right, kind, addr)
  {
    hide Bracketed;
    var e := Meet(stabs, kind, left, right, addr);
    if StepsOver(stabs, kind, addr, e) {
      RightLandsRight(stabs, left, right, kind, addr);
    } else if addr == LAST_ADDR {
      LastAddressLandsWrong(stabs, left, right, kind, e);
    } else {
      var i :| e.m <= i <= e.r && stabs[i].kind == kind && stabs[i].value == addr + 1;
      StepLandsWrong(stabs, left, right, kind, addr, e, i);
    }
  }

  // ----- the empty answer

  /** In every table, in order or not, the answer is empty if and only if there is no record of
      the kind. */
  lemma EmptyAnswer(stabs: seq<Stab>, left: int, right: int, kind: nat, addr: Word)
    requires 0 <= left <= right + 1 <= |stabs|
    ensures var (left', right') := BinSearch(stabs, left, right, kind, addr);
            left' > right' <==> NoneIn(stabs, left, right + 1, kind)
  {
    BinSearchIs(stabs, left, right, kind, addr);
    var s := Begin(left, right, addr);
    if NoneIn(stabs, left, right + 1, kind) {
      LoopMatchesNone(stabs, kind, s);
    } else {
      var i :| left <= i <= right && stabs[i].kind == kind;
      LoopMatches(stabs, kind, s, i);
    }
  }

  lemma {:induction false} LoopMatchesNone(stabs: seq<Stab>, kind: nat, s: Search)
    requires InTable(stabs, s) && !s.any && (s.l <= s.r ==> NoneIn(stabs, s.l, s.r + 1, kind))
    ensures !Loop(stabs, kind, s).any
    decreases Rank(stabs, kind, s)
  {
    if s.l <= s.r {
      HalveDescends(stabs, kind, s);
      LoopMatchesNone(stabs, kind, Halve(stabs, kind, s));
    }
  }

  lemma {:induction false} LoopMatches(stabs: seq<Stab>, kind: nat, s: Search, i: int)
    requires InTable(stabs, s) && (s.any || (s.l <= i <= s.r && stabs[i].kind == kind))
    ensures Loop(stabs, kind, s).any
    decreases Rank(stabs, kind, s)
  {
    if s.l <= s.r {
      HalveDescends(stabs, kind, s);
      LoopMatches(stabs, kind, Halve(stabs, kind, s), i);
    }
  }

  /** When a caller can tell from the answer that some record is at or below the address. */
  lemma ContainedAnswer(stabs: seq<Stab>, left: int, right: int, kind: nat, addr: Word)
    requires 0 <= left && right < |stabs|
    requires SortedIn(stabs, left, right, kind) && LandsRight(stabs, left, right, kind, addr)
    ensures var (left', right') := BinSearch(stabs, left, right, kind, addr);
            (exists k :: Last(stabs, left, right, kind, addr, k)) <==>
              left <= left' <= right' <= right && stabs[left'].kind == kind && stabs[left'].value <= addr
  {
    SearchBrackets(stabs, left, right, kind, addr);
  }

  /** The answer is not empty when all records are above the address: in the table of one
      record it is (-1, -1). */
  lemma AboveIsNotEmpty(stabs: seq<Stab>, kind: nat, addr: Word)
    requires |stabs| == 1 && stabs[0].kind == kind && stabs[0].value > addr
    ensures BinSearch(stabs, 0, 0, kind, addr) == (-1, -1)
    ensures forall k :: !Last(stabs, 0, 0, kind, addr, k)
  {
    hide Loop, ScanBack, Rank, BinSearch;
    ScanStopsAt(stabs, kind, 0, 0);
    var s := Search(0, -1, addr, 0, -1, true);
    Round(stabs, kind, Begin(0, 0, addr), 0, s);
    LoopDone(stabs, kind, s);
    BinSearchIs(stabs, 0, 0, kind, addr);
  }

  lemma ScanStopsAt(stabs: seq<Stab>, kind: nat, l: int, m: int)
    requires 0 <= l <= m < |stabs| && stabs[m].kind == kind
    ensures ScanBack(stabs, kind, l, m) == m
  {
  }

  /** Where the step over an exact match goes too far: with records at `a` and at `a + 1`,
      the search for `a` takes the second record. */
  lemma StepsTooFar(stabs: seq<Stab>, kind: nat, a: Word)
    requires a < LAST_ADDR - 1 && |stabs| == 2
    requires stabs[0].kind == kind && stabs[0].value == a && stabs[1].kind == kind && stabs[1].value == a + 1
    ensures SortedIn(stabs, 0, 1, kind) && Last(stabs, 0, 1, kind, a, 0)
    ensures !LandsRight(stabs, 0, 1, kind, a) && BinSearch(stabs, 0, 1, kind, a) == (1, 1)
  {
    hide Loop, ScanBack, Rank, BinSearch, LandsRight;
    ScanStopsAt(stabs, kind, 0, 0);
    ScanStopsAt(stabs, kind, 1, 1);
    var s0 := Begin(0, 1, a);
    var s1 := Search(0, 1, a + 1, 0, 1, true);
    Round(stabs, kind, s0, 0, s1);
    var s2 := Search(1, 1, a + 1, 0, 1, true);
    Round(stabs, kind, s1, 0, s2);
    var s3 := Search(1, 1, a + 2, 1, 1, true);
    Round(stabs, kind, s2, 1, s3);
    var s4 := Search(2, 1, a + 2, 1, 1, true);
    Round(stabs, kind, s3, 1, s4);
    LoopDone(stabs, kind, s4);
    BinSearchIs(stabs, 0, 1, kind, a);
    SearchBrackets(stabs, 0, 1, kind, a);
    assert !Last(stabs, 0, 1, kind, a, 1);
  }

  /** And where it does not, with one record more: bisection drops the record at `a + 1` before
      it meets the one at `a`. */
  lemma StepsInTime(stabs: seq<Stab>, kind: nat, a: Word)
    requires |stabs| == 3 && forall i :: 0 <= i < 3 ==> stabs[i].kind == kind
    requires a < LAST_ADDR && stabs[0].value == a && stabs[1].value == a + 1 <= stabs[2].value
    ensures SortedIn(stabs, 0, 2, kind) && HasValue(stabs, 0, 2, kind, a + 1) && LandsRight(stabs, 0, 2, kind, a)
  {
    hide Meet, ScanBack;
    ScanStopsAt(stabs, kind, 0, 1);
    ScanStopsAt(stabs, kind, 0, 0);
    MeetUnfold(stabs, kind, 0, 2, a);
    MeetUnfold(stabs, kind, 0, 0, a);
  }
}
