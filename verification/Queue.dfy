/** The intrusive doubly linked lists of inc/queue.h.

    The memory that the list macros work on is an array of elements, each with its
    `le_next` and `le_prev` fields, and an array of list heads. `le_prev` is a pointer
    to a pointer: it names the slot, a head or some element's `le_next`, that points
    at the element. */
module Queue {

  datatype Ptr = Null | At(elm: nat)

  datatype Slot = NoSlot | HeadOf(head: nat) | NextOf(elm: nat)

  datatype Link = Link(next: Ptr, prev: Slot)

  /** What the slot before position `i` of the list `s` has to hold. */
  function PtrAt(s: seq<nat>, i: nat): Ptr {
    if i < |s| then At(s[i]) else Null
  }

  /** The slot that holds the pointer to position `i` of a list with head `h`. */
  function SlotAt(h: nat, s: seq<nat>, i: nat): Slot
    requires i <= |s|
  {
    if i == 0 then HeadOf(h) else NextOf(s[i - 1])
  }

  ghost predicate Distinct(s: seq<nat>) {
    forall i, j :: 0 <= i < j < |s| ==> s[i] != s[j]
  }

  /** The links starting at `first` represent the sequence `s`, and the first element
      believes that the head variable `h` points at it. */
  ghost predicate IsList(links: seq<Link>, first: Ptr, h: nat, s: seq<nat>) {
    && Distinct(s)
    && first == PtrAt(s, 0)
    && (forall i :: 0 <= i < |s| ==> s[i] < |links|)
    && forall i {:trigger links[s[i]]} :: 0 <= i < |s| ==> links[s[i]] == Link(PtrAt(s, i + 1), SlotAt(h, s, i))
  }

  ghost predicate Apart(s: seq<nat>, t: seq<nat>) {
    forall e :: e in s ==> e !in t
  }

  /** The memory is a family of lists, one for every head, with no common elements. */
  ghost predicate Represents(links: seq<Link>, heads: seq<Ptr>, lists: seq<seq<nat>>) {
    && |lists| == |heads|
    && (forall h :: 0 <= h < |heads| ==> IsList(links, heads[h], h, lists[h]))
    && forall g, h :: 0 <= g < |heads| && 0 <= h < |heads| && g != h ==> Apart(lists[g], lists[h])
  }

  /** The pointer that a slot holds. */
  function Deref(links: seq<Link>, heads: seq<Ptr>, slot: Slot): Ptr {
    match slot
    case HeadOf(h) => if h < |heads| then heads[h] else Null
    case NextOf(e) => if e < |links| then links[e].next else Null
    case NoSlot => Null
  }

  /** The slot named by `le_prev` holds the element, in every list of a family. */
  lemma PrevHoldsElement(links: seq<Link>, heads: seq<Ptr>, lists: seq<seq<nat>>, h: nat, i: nat)
    requires Represents(links, heads, lists)
    requires h < |lists| && i < |lists[h]|
    ensures lists[h][i] < |links|
    ensures Deref(links, heads, links[lists[h][i]].prev) == At(lists[h][i])
  {
    assert IsList(links, heads[h], h, lists[h]);
    if i > 0 {
      assert links[lists[h][i - 1]].next == PtrAt(lists[h], i);
    }
  }

  /** A memory represents at most one family of lists. */
  lemma RepresentsUnique(links: seq<Link>, heads: seq<Ptr>, ls: seq<seq<nat>>, ms: seq<seq<nat>>)
    requires Represents(links, heads, ls) && Represents(links, heads, ms)
    ensures ls == ms
  {
    forall h | 0 <= h < |ls| ensures ls[h] == ms[h] {
      IsListUnique(links, heads[h], h, ls[h], ms[h], 0);
    }
  }

  lemma {:induction false} IsListUnique(links: seq<Link>, first: Ptr, h: nat, s: seq<nat>, t: seq<nat>, n: nat)
    requires IsList(links, first, h, s) && IsList(links, first, h, t)
    requires n <= |s| && n <= |t| && s[..n] == t[..n]
    ensures s == t
    decreases |s| - n
  {
    assert PtrAt(s, n) == PtrAt(t, n) by {
      if n > 0 {
        assert s[n - 1] == s[..n][n - 1] == t[..n][n - 1] == t[n - 1];
        assert links[s[n - 1]].next == PtrAt(s, n) && links[t[n - 1]].next == PtrAt(t, n);
      }
    }
    if n < |s| {
      assert s[..n + 1] == s[..n] + [s[n]] && t[..n + 1] == t[..n] + [t[n]];
      IsListUnique(links, first, h, s, t, n + 1);
    }
  }

  /** `s` with `e` at position `i`. */
  function Inserted(s: seq<nat>, i: nat, e: nat): seq<nat>
    requires i <= |s|
  {
    s[..i] + [e] + s[i..]
  }

  /** `s` without position `i`. */
  function Removed(s: seq<nat>, i: nat): seq<nat>
    requires i < |s|
  {
    s[..i] + s[i + 1..]
  }

  ghost predicate InNoList(lists: seq<seq<nat>>, e: nat) {
    forall h :: 0 <= h < |lists| ==> e !in lists[h]
  }

  /** The step that every insertion makes: the slot for position `i` now points at `e`,
      `e` points at the old occupant, and the occupant's `le_prev` names `e`. */
  ghost predicate LinksIn(links: seq<Link>, links': seq<Link>, h: nat, s: seq<nat>, i: nat, e: nat)
    requires i <= |s|
  {
    && e < |links| == |links'|
    && links'[e] == Link(PtrAt(s, i), SlotAt(h, s, i))
    && forall x :: 0 <= x < |links| && x != e ==> links'[x] == Link(
        if i > 0 && x == s[i - 1] then At(e) else links[x].next,
        if i < |s| && x == s[i] then NextOf(e) else links[x].prev)
  }

  /** The links of an old element after an insertion. */
  lemma LinkAfterInsertion(links: seq<Link>, first: Ptr, links': seq<Link>, h: nat, s: seq<nat>, i: nat, e: nat, k: nat)
    requires IsList(links, first, h, s) && i <= |s| && e !in s && k < |s|
    requires LinksIn(links, links', h, s, i, e)
    ensures links'[s[k]] == Link(if k + 1 == i then At(e) else PtrAt(s, k + 1), if k == i then NextOf(e) else SlotAt(h, s, k))
  {
    assert links[s[k]] == Link(PtrAt(s, k + 1), SlotAt(h, s, k));
    assert s[k] != e;
  }

  lemma InsertionIsList(links: seq<Link>, first: Ptr, links': seq<Link>, first': Ptr, h: nat, s: seq<nat>, i: nat, e: nat)
    requires IsList(links, first, h, s) && i <= |s| && e !in s
    requires LinksIn(links, links', h, s, i, e)
    requires first' == if i == 0 then At(e) else first
    ensures IsList(links', first', h, Inserted(s, i, e))
  {
    var t := Inserted(s, i, e);
    InsertedElements(s, i, e);
    forall k | 0 <= k < |t|
      ensures t[k] < |links'| && links'[t[k]] == Link(PtrAt(t, k + 1), SlotAt(h, t, k))
    {
      if k != i {
        LinkAfterInsertion(links, first, links', h, s, i, e, if k < i then k else k - 1);
      }
    }
  }

  lemma InsertedElements(s: seq<nat>, i: nat, e: nat)
    requires i <= |s| && Distinct(s) && e !in s
    ensures var t := Inserted(s, i, e);
            Distinct(t) && |t| == |s| + 1
            && forall k :: 0 <= k < |t| ==> t[k] == if k < i then s[k] else if k == i then e else s[k - 1]
  {
    assert forall k :: 0 <= k < |s| ==> s[k] in s;
  }

  lemma InsertionRepresents(links: seq<Link>, heads: seq<Ptr>, lists: seq<seq<nat>>,
                            links': seq<Link>, heads': seq<Ptr>, h: nat, i: nat, e: nat)
    requires Represents(links, heads, lists)
    requires h < |lists| && i <= |lists[h]| && InNoList(lists, e)
    requires LinksIn(links, links', h, lists[h], i, e)
    requires heads' == if i == 0 then heads[h := At(e)] else heads
    ensures Represents(links', heads', lists[h := Inserted(lists[h], i, e)])
  {
    var s := lists[h];
    InsertionIsList(links, heads[h], links', heads'[h], h, s, i, e);
    forall g | 0 <= g < |heads| && g != h ensures IsList(links', heads'[g], g, lists[g]) {
      OtherListUntouched(links, heads, lists, links', g, h, e);
    }
    forall g | 0 <= g < |heads| && g != h
      ensures Apart(lists[g], Inserted(s, i, e)) && Apart(Inserted(s, i, e), lists[g])
    {
      assert Apart(lists[g], s) && Apart(s, lists[g]);
      assert forall x :: x in Inserted(s, i, e) ==> x in s || x == e;
    }
  }

  /** A list whose elements keep their links is still that list. */
  lemma ListKept(links: seq<Link>, first: Ptr, h: nat, s: seq<nat>, links': seq<Link>)
    requires IsList(links, first, h, s) && |links'| == |links|
    requires forall i :: 0 <= i < |s| ==> links'[s[i]] == links[s[i]]
    ensures IsList(links', first, h, s)
  {
  }

  lemma OtherListUntouched(links: seq<Link>, heads: seq<Ptr>, lists: seq<seq<nat>>, links': seq<Link>, g: nat, h: nat, e: nat)
    requires Represents(links, heads, lists)
    requires g < |lists| && h < |lists| && g != h && e !in lists[g] && |links'| == |links|
    requires forall x :: 0 <= x < |links| && x !in lists[h] && x != e ==> links'[x] == links[x]
    ensures IsList(links', heads[g], g, lists[g])
  {
    assert Apart(lists[g], lists[h]);
    forall i | 0 <= i < |lists[g]| ensures links'[lists[g][i]] == links[lists[g][i]] {
      assert lists[g][i] in lists[g];
    }
    ListKept(links, heads[g], g, lists[g], links');
  }

  /** The step that a removal makes. */
  ghost predicate LinksOut(links: seq<Link>, links': seq<Link>, h: nat, s: seq<nat>, i: nat)
    requires i < |s|
  {
    && |links| == |links'|
    && forall x :: 0 <= x < |links| ==> links'[x] == Link(
        if i > 0 && x == s[i - 1] then PtrAt(s, i + 1) else links[x].next,
        if i + 1 < |s| && x == s[i + 1] then SlotAt(h, s, i) else links[x].prev)
  }

  lemma RemovalIsList(links: seq<Link>, first: Ptr, links': seq<Link>, first': Ptr, h: nat, s: seq<nat>, i: nat)
    requires IsList(links, first, h, s) && i < |s|
    requires LinksOut(links, links', h, s, i)
    requires first' == if i == 0 then PtrAt(s, 1) else first
    ensures IsList(links', first', h, Removed(s, i))
  {
    var t := Removed(s, i);
    forall k | 0 <= k < |t|
      ensures t[k] < |links'| && links'[t[k]] == Link(PtrAt(t, k + 1), SlotAt(h, t, k))
    {
      if k < i {
        assert t[k] == s[k];
      } else {
        assert t[k] == s[k + 1];
      }
    }
  }

  lemma RemovalRepresents(links: seq<Link>, heads: seq<Ptr>, lists: seq<seq<nat>>,
                          links': seq<Link>, heads': seq<Ptr>, h: nat, i: nat)
    requires Represents(links, heads, lists)
    requires h < |lists| && i < |lists[h]|
    requires LinksOut(links, links', h, lists[h], i)
    requires heads' == if i == 0 then heads[h := PtrAt(lists[h], 1)] else heads
    ensures Represents(links', heads', lists[h := Removed(lists[h], i)])
  {
    var s := lists[h];
    RemovalIsList(links, heads[h], links', heads'[h], h, s, i);
    forall g | 0 <= g < |heads| && g != h ensures IsList(links', heads'[g], g, lists[g]) {
      OtherListUntouched(links, heads, lists, links', g, h, s[i]);
    }
    forall g | 0 <= g < |heads| && g != h
      ensures Apart(lists[g], Removed(s, i)) && Apart(Removed(s, i), lists[g])
    {
      assert Apart(lists[g], s) && Apart(s, lists[g]);
      assert forall x :: x in Removed(s, i) ==> x in s;
    }
  }

  /** The elements and heads of some lists. */
  class ListMemory {
    const links: array<Link>
    const heads: array<Ptr>

    constructor (elements: nat, lists: nat)
      ensures fresh(links) && fresh(heads)
      ensures links.Length == elements && heads.Length == lists
      ensures Represents(links[..], heads[..], seq(lists, _ => []))
    {
      links := new Link[elements](_ => Link(Null, NoSlot));
      heads := new Ptr[lists](_ => Null);
    }

    /** `LIST_INIT`: forgets the list of head `h`; its elements stay as they were. */
    method Init(h: nat, ghost lists: seq<seq<nat>>)
      requires h < heads.Length && Represents(links[..], heads[..], lists)
      modifies heads
      ensures heads[..] == old(heads[..])[h := Null]
      ensures Represents(links[..], heads[..], lists[h := []])
    {
      heads[h] := Null;
      forall g | 0 <= g < heads.Length && g != h
        ensures IsList(links[..], heads[g], g, lists[g])
      {
        assert IsList(links[..], old(heads[..])[g], g, lists[g]);
      }
    }

    /** `*slot = p`, a write through a pointer to a pointer. */
    method StoreThrough(slot: Slot, p: Ptr)
      requires slot.HeadOf? ==> slot.head < heads.Length
      requires slot.NextOf? ==> slot.elm < links.Length
      requires !slot.NoSlot?
      modifies if slot.HeadOf? then {heads as object} else {links}
      ensures slot.HeadOf? ==> heads[..] == old(heads[..])[slot.head := p]
      ensures slot.NextOf? ==> links[..] == old(links[..])[slot.elm := Link(p, old(links[slot.elm].prev))]
    {
      match slot
      case HeadOf(h) => heads[h] := p;
      case NextOf(e) => links[e] := links[e].(next := p);
    }

    /** `memset` of an element's links to 0. */
    method ClearLink(elm: nat, ghost lists: seq<seq<nat>>)
      requires elm < links.Length && Represents(links[..], heads[..], lists) && InNoList(lists, elm)
      modifies links
      ensures links[..] == old(links[..])[elm := Link(Null, NoSlot)]
      ensures Represents(links[..], heads[..], lists)
    {
      links[elm] := Link(Null, NoSlot);
      forall g | 0 <= g < heads.Length ensures IsList(links[..], heads[g], g, lists[g]) {
        assert forall k :: 0 <= k < |lists[g]| ==> lists[g][k] in lists[g];
        ListKept(old(links[..]), heads[g], g, lists[g], links[..]);
      }
    }

    /** `LIST_INSERT_HEAD` */
    method InsertHead(h: nat, elm: nat, ghost lists: seq<seq<nat>>)
      requires h < heads.Length && elm < links.Length
      requires Represents(links[..], heads[..], lists) && InNoList(lists, elm)
      modifies links, heads
      ensures Represents(links[..], heads[..], lists[h := [elm] + lists[h]])
      ensures heads[..] == old(heads[..])[h := At(elm)]
      ensures forall x :: 0 <= x < links.Length && x !in lists[h] && x != elm ==> links[x] == old(links[x])
    {
      assert IsList(links[..], heads[h], h, lists[h]);
      links[elm] := links[elm].(next := heads[h]);
      if heads[h] != Null {
        var first := heads[h].elm;
        links[first] := links[first].(prev := NextOf(elm));
      }
      heads[h] := At(elm);
      links[elm] := links[elm].(prev := HeadOf(h));
      InsertionRepresents(old(links[..]), old(heads[..]), lists, links[..], heads[..], h, 0, elm);
      assert Inserted(lists[h], 0, elm) == [elm] + lists[h];
    }

    /** `LIST_INSERT_AFTER`: the list and position of `listelm` are not known to the code. */
    method InsertAfter(listelm: nat, elm: nat, ghost lists: seq<seq<nat>>, ghost h: nat, ghost i: nat)
      requires elm < links.Length && listelm < links.Length
      requires h < |lists| && i < |lists[h]| && lists[h][i] == listelm
      requires Represents(links[..], heads[..], lists) && InNoList(lists, elm)
      modifies links
      ensures Represents(links[..], heads[..], lists[h := Inserted(lists[h], i + 1, elm)])
      ensures forall x :: 0 <= x < links.Length && x !in lists[h] && x != elm ==> links[x] == old(links[x])
    {
      assert IsList(links[..], heads[h], h, lists[h]);
      links[elm] := links[elm].(next := links[listelm].next);
      if links[elm].next != Null {
        var next := links[listelm].next.elm;
        links[next] := links[next].(prev := NextOf(elm));
      }
      links[listelm] := links[listelm].(next := At(elm));
      links[elm] := links[elm].(prev := NextOf(listelm));
      InsertionRepresents(old(links[..]), heads[..], lists, links[..], heads[..], h, i + 1, elm);
    }

    /** `LIST_INSERT_BEFORE`: works through `le_prev`, without the head. */
    method InsertBefore(listelm: nat, elm: nat, ghost lists: seq<seq<nat>>, ghost h: nat, ghost i: nat)
      requires elm < links.Length && listelm < links.Length
      requires h < |lists| && i < |lists[h]| && lists[h][i] == listelm
      requires Represents(links[..], heads[..], lists) && InNoList(lists, elm)
      modifies links, heads
      ensures Represents(links[..], heads[..], lists[h := Inserted(lists[h], i, elm)])
      ensures forall x :: 0 <= x < links.Length && x !in lists[h] && x != elm ==> links[x] == old(links[x])
    {
      assert IsList(links[..], heads[h], h, lists[h]);
      links[elm] := links[elm].(prev := links[listelm].prev);
      links[elm] := links[elm].(next := At(listelm));
      StoreThrough(links[listelm].prev, At(elm));
      links[listelm] := links[listelm].(prev := NextOf(elm));
      InsertionRepresents(old(links[..]), old(heads[..]), lists, links[..], heads[..], h, i, elm);
    }

    /** `LIST_REMOVE`: works through `le_prev`, without the head, and leaves the
        element's own links dangling. */
    method Remove(elm: nat, ghost lists: seq<seq<nat>>, ghost h: nat, ghost i: nat)
      requires elm < links.Length && h < |lists| && i < |lists[h]| && lists[h][i] == elm
      requires Represents(links[..], heads[..], lists)
      modifies links, heads
      ensures Represents(links[..], heads[..], lists[h := Removed(lists[h], i)])
      ensures links[elm] == old(links[elm])
      ensures forall x :: 0 <= x < links.Length && x !in lists[h] ==> links[x] == old(links[x])
    {
      assert IsList(links[..], heads[h], h, lists[h]);
      if links[elm].next != Null {
        var next := links[elm].next.elm;
        links[next] := links[next].(prev := links[elm].prev);
      }
      StoreThrough(links[elm].prev, links[elm].next);
      RemovalRepresents(old(links[..]), old(heads[..]), lists, links[..], heads[..], h, i);
    }
  }
}
