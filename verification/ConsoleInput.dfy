/** The console input ring of kern/console.c, and the stream of characters that it delivers
    over every interleaving of interrupts and reads. */
module ConsoleInput {
  import opened Options

  type Byte = b: int | 0 <= b < 256

  const CONSBUFSIZE := 512

  // ----- the queue that the ring refines

  /** A character that comes in while 511 are unread makes the read position meet the write
      position: all 512 are lost. */
  function Accept(q: seq<Byte>, c: Byte): (r: seq<Byte>)
    ensures |q| < CONSBUFSIZE ==> |r| < CONSBUFSIZE
  {
    if |q| + 1 == CONSBUFSIZE then [] else q + [c]
  }

  /** `cons_intr` with what the device has, which skips zeros. */
  function AcceptAll(q: seq<Byte>, cs: seq<Byte>): (r: seq<Byte>)
    ensures |q| < CONSBUFSIZE ==> |r| < CONSBUFSIZE
    decreases |cs|
  {
    if cs == [] then q else AcceptAll(if cs[0] == 0 then q else Accept(q, cs[0]), cs[1..])
  }

  // ----- the ring

  class ConsoleBuffer {
    const buf: array<Byte>
    var rpos: nat
    var wpos: nat
    ghost var queue: seq<Byte>

    ghost predicate Valid()
      reads this, buf
    {
      && buf.Length == CONSBUFSIZE && rpos < CONSBUFSIZE && wpos < CONSBUFSIZE
      && queue == if rpos <= wpos then buf[rpos..wpos] else buf[rpos..] + buf[..wpos]
    }

    constructor ()
      ensures Valid() && queue == [] && fresh(buf)
    {
      buf := new Byte[CONSBUFSIZE](_ => 0);
      rpos, wpos, queue := 0, 0, [];
    }

    /** One character of `cons_intr`. */
    method Push(c: Byte)
      requires Valid()
      modifies this, buf
      ensures Valid() && queue == Accept(old(queue), c)
    {
      buf[wpos] := c;
      wpos := wpos + 1;
      if wpos == CONSBUFSIZE {
        wpos := 0;
      }
      queue := Accept(queue, c);
    }

    /** `cons_intr`: `cs` is what `proc` answers before -1. */
    method ConsIntr(cs: seq<Byte>)
      requires Valid()
      modifies this, buf
      ensures Valid() && queue == AcceptAll(old(queue), cs)
    {
      var i := 0;
      assert cs[0..] == cs;
      while i < |cs|
        invariant 0 <= i <= |cs| && Valid()
        invariant AcceptAll(old(queue), cs) == AcceptAll(queue, cs[i..])
      {
        assert cs[i..][0] == cs[i] && cs[i..][1..] == cs[i + 1..];
        if cs[i] != 0 {
          Push(cs[i]);
        }
        i := i + 1;
      }
    }

    /** The next unread character, or 0. */
    method Pop() returns (c: Byte)
      requires Valid()
      modifies this
      ensures Valid()
      ensures if old(queue) == [] then c == 0 && queue == [] else c == old(queue)[0] && queue == old(queue)[1..]
    {
      if rpos != wpos {
        c := buf[rpos];
        rpos := rpos + 1;
        if rpos == CONSBUFSIZE {
          rpos := 0;
        }
        queue := queue[1..];
      } else {
        c := 0;
      }
    }

    /** `cons_getc`, which polls both devices first. */
    method ConsGetc(serial: seq<Byte>, keyboard: seq<Byte>) returns (c: Byte)
      requires Valid()
      modifies this, buf
      ensures Valid()
      ensures var q := AcceptAll(AcceptAll(old(queue), serial), keyboard);
              if q == [] then c == 0 && queue == [] else c == q[0] && queue == q[1..]
    {
      ConsIntr(serial);
      ConsIntr(keyboard);
      c := Pop();
    }
  }

  // ----- what is delivered

  /** What happens: a character comes in, or one is read. */
  datatype Event = In(c: Byte) | Read

  /** The unread characters, and all that came in and that was delivered so far. */
  datatype Trace = Trace(queue: seq<Byte>, accepted: seq<Byte>, delivered: seq<Byte>)

  function Happen(t: Trace, e: Event): Trace {
    match e
    case In(c) => if c == 0 then t else Trace(Accept(t.queue, c), t.accepted + [c], t.delivered)
    case Read => if t.queue == [] then t else Trace(t.queue[1..], t.accepted, t.delivered + [t.queue[0]])
  }

  function After(es: seq<Event>): Trace {
    if es == [] then Trace([], [], []) else Happen(After(es[..|es| - 1]), es[|es| - 1])
  }

  /** The characters that came in and are not 0, in order. */
  function Arrived(es: seq<Event>): seq<Byte> {
    if es == [] then []
    else Arrived(es[..|es| - 1]) + if es[|es| - 1].In? && es[|es| - 1].c != 0 then [es[|es| - 1].c] else []
  }

  lemma {:induction false} AcceptedIsArrived(es: seq<Event>)
    ensures After(es).accepted == Arrived(es)
  {
    if es != [] {
      AcceptedIsArrived(es[..|es| - 1]);
    }
  }

  /** The delivered characters are the accepted ones but for blocks of 512 in a row. */
  ghost predicate LosesBlocks(accepted: seq<Byte>, delivered: seq<Byte>)
    decreases |accepted|
  {
    || (accepted == [] && delivered == [])
    || (accepted != [] && delivered != [] && accepted[|accepted| - 1] == delivered[|delivered| - 1]
        && LosesBlocks(accepted[..|accepted| - 1], delivered[..|delivered| - 1]))
    || (|accepted| >= CONSBUFSIZE && LosesBlocks(accepted[..|accepted| - CONSBUFSIZE], delivered))
  }

  ghost predicate Explained(t: Trace) {
    && |t.queue| < CONSBUFSIZE && |t.queue| <= |t.accepted|
    && var n := |t.accepted| - |t.queue|;
       t.queue == t.accepted[n..] && LosesBlocks(t.accepted[..n], t.delivered)
  }

  lemma InExplained(t: Trace, c: Byte)
    requires Explained(t) && c != 0
    ensures Explained(Happen(t, In(c)))
  {
    var n := |t.accepted| - |t.queue|;
    var t' := Happen(t, In(c));
    assert t'.accepted[..n] == t.accepted[..n];
    if |t.queue| + 1 == CONSBUFSIZE {
      assert t'.accepted[..|t'.accepted|] == t'.accepted;
      assert |t'.accepted| - CONSBUFSIZE == n;
      assert LosesBlocks(t'.accepted, t.delivered);
    }
  }

  lemma ReadExplained(t: Trace)
    requires Explained(t) && t.queue != []
    ensures Explained(Happen(t, Read))
  {
    var n := |t.accepted| - |t.queue|;
    var a, d := t.accepted[..n + 1], t.delivered + [t.queue[0]];
    assert a[..n] == t.accepted[..n] && d[..|d| - 1] == t.delivered;
    assert a[n] == t.queue[0];
    assert LosesBlocks(a, d);
  }

  lemma HappenExplained(t: Trace, e: Event)
    requires Explained(t)
    ensures Explained(Happen(t, e))
  {
    hide Explained;
    match e
    case In(c) =>
      if c != 0 {
        InExplained(t, c);
      }
    case Read =>
      if t.queue != [] {
        ReadExplained(t);
      }
  }

  /** Over every run the delivered stream is the accepted stream minus blocks of exactly 512
      consecutive characters, and what is unread is the end of the accepted stream. */
  lemma {:induction false} RunExplained(es: seq<Event>)
    ensures Explained(After(es))
  {
    if es != [] {
      RunExplained(es[..|es| - 1]);
      HappenExplained(After(es[..|es| - 1]), es[|es| - 1]);
    }
  }

  /** How often the unread characters reached 512. */
  function Overflows(es: seq<Event>): nat {
    if es == [] then 0
    else
      var before, e := es[..|es| - 1], es[|es| - 1];
      Overflows(before) + if e.In? && e.c != 0 && |After(before).queue| + 1 == CONSBUFSIZE then 1 else 0
  }

  /** What one event does to the numbers of characters, and that it keeps the order unless
      it loses some. */
  lemma HappenCounted(t: Trace, e: Event)
    requires Explained(t)
    ensures var t' := Happen(t, e);
            var lost := if e.In? && e.c != 0 && |t.queue| + 1 == CONSBUFSIZE then CONSBUFSIZE else 0;
            && |t'.accepted| - |t'.delivered| - |t'.queue| == |t.accepted| - |t.delivered| - |t.queue| + lost
            && (lost == 0 && t.accepted == t.delivered + t.queue ==> t'.accepted == t'.delivered + t'.queue)
  {
    hide LosesBlocks;
  }

  /** Every overflow loses 512 characters, and nothing else does: the stream is plain first
      in, first out exactly when the unread characters never reach 512. */
  lemma {:induction false} LossesCounted(es: seq<Event>)
    ensures var t := After(es);
            && |t.accepted| == |t.delivered| + |t.queue| + CONSBUFSIZE * Overflows(es)
            && (Overflows(es) == 0 <==> t.accepted == t.delivered + t.queue)
  {
    if es != [] {
      var before, e := es[..|es| - 1], es[|es| - 1];
      LossesCounted(before);
      RunExplained(before);
      HappenCounted(After(before), e);
      var t' := After(es);
      assert Overflows(es) != 0 ==> |t'.accepted| != |t'.delivered + t'.queue|;
    }
  }

  /** What a device delivers, as events. */
  function Arrivals(cs: seq<Byte>): (es: seq<Event>)
    ensures |es| == |cs| && forall i :: 0 <= i < |cs| ==> es[i] == In(cs[i])
  {
    seq(|cs|, i requires 0 <= i < |cs| => In(cs[i]))
  }

  lemma {:induction false} IntrIsRun(es: seq<Event>, cs: seq<Byte>)
    ensures After(es + Arrivals(cs)).queue == AcceptAll(After(es).queue, cs)
    ensures After(es + Arrivals(cs)).delivered == After(es).delivered
    decreases |cs|
  {
    if cs == [] {
      assert es + Arrivals(cs) == es;
    } else {
      assert es + Arrivals(cs) == (es + [In(cs[0])]) + Arrivals(cs[1..]);
      assert (es + [In(cs[0])])[..|es|] == es;
      IntrIsRun(es + [In(cs[0])], cs[1..]);
    }
  }

  /** A call of `cons_getc` is the end of a run: what the devices have comes in, and then one
      character is read, which is what the method of the class answers. */
  lemma GetcIsRun(es: seq<Event>, serial: seq<Byte>, keyboard: seq<Byte>)
    ensures var t := After(es + Arrivals(serial) + Arrivals(keyboard) + [Read]);
            var q := AcceptAll(AcceptAll(After(es).queue, serial), keyboard);
            && t.queue == (if q == [] then [] else q[1..])
            && t.delivered == After(es).delivered + if q == [] then [] else [q[0]]
  {
    var before := es + Arrivals(serial) + Arrivals(keyboard);
    assert (before + [Read])[..|before|] == before;
    IntrIsRun(es, serial);
    IntrIsRun(es + Arrivals(serial), keyboard);
  }
}
