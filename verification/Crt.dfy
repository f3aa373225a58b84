/** The text-mode display of kern/console.c: a buffer of 25 rows that scrolls shows the
    last rows of an unbounded log of what was written. */
module Crt {

  type Cell = c: int | 0 <= c < 0x1_0000

  const CRT_ROWS := 25
  const CRT_COLS := 80
  const CRT_SIZE := 2000

  /** A space, white on black. */
  const BLANK: Cell := 0x0720

  // ----- the log

  /** `cells` is everything that was written, blank from its end on; `pos` is the place of
      the next character, and `top` the number of rows that were scrolled away. */
  datatype Log = Log(cells: seq<Cell>, pos: nat, top: nat)

  function Get(cells: seq<Cell>, k: nat): Cell {
    if k < |cells| then cells[k] else BLANK
  }

  function Blanks(n: nat): (b: seq<Cell>)
    ensures |b| == n && forall i :: 0 <= i < n ==> b[i] == BLANK
  {
    seq(n, i => BLANK)
  }

  /** The cells with one changed. */
  function Set(cells: seq<Cell>, k: nat, c: Cell): (r: seq<Cell>)
    ensures forall j: nat :: Get(r, j) == if j == k then c else Get(cells, j)
  {
    if k < |cells| then cells[k := c] else cells + Blanks(k - |cells|) + [c]
  }

  /** The window of 25 rows follows the cursor down, and never up. */
  function Follow(log: Log): Log {
    if log.pos >= CRT_COLS * log.top + CRT_SIZE then log.(top := log.pos / CRT_COLS - (CRT_ROWS - 1)) else log
  }

  /** The character with its attribute: black and white if there is none. */
  function WithAttribute(c: nat): nat {
    if c < 0x100 then c + 0x0700 else c
  }

  function RowStart(pos: nat): nat {
    pos - pos % CRT_COLS
  }

  function PutPlain(log: Log, c: nat): Log {
    Follow(Log(Set(log.cells, log.pos, c % 0x1_0000), log.pos + 1, log.top))
  }

  /** Writing a character, at any place of the log but behind the top of the window. */
  function Put(log: Log, ch: nat): Log {
    var c := WithAttribute(ch);
    match c % 0x100
    case 8 =>
      if log.pos > CRT_COLS * log.top
      then Log(Set(log.cells, log.pos - 1, (c - c % 0x100 + 0x20) % 0x1_0000), log.pos - 1, log.top) else log
    case 10 => Follow(log.(pos := RowStart(log.pos + CRT_COLS)))
    case 13 => log.(pos := RowStart(log.pos))
    case 9 => PutSpaces(log, 5)
    case _ => PutPlain(log, c)
  }

  function PutSpaces(log: Log, n: nat): Log
    decreases n
  {
    if n == 0 then log else PutSpaces(PutPlain(log, BLANK), n - 1)
  }

  function PutAll(log: Log, cs: seq<nat>): Log
    decreases |cs|
  {
    if cs == [] then log else PutAll(Put(log, cs[0]), cs[1..])
  }

  /** The cursor is in the window. */
  predicate InWindow(log: Log) {
    CRT_COLS * log.top <= log.pos < CRT_COLS * log.top + CRT_SIZE
  }

  /** A row is all that a character adds below the window. */
  lemma FollowsByOneRow(log: Log)
    requires CRT_COLS * log.top <= log.pos < CRT_COLS * (log.top + 1) + CRT_SIZE
    ensures InWindow(Follow(log)) && log.top <= Follow(log).top <= log.top + 1
  {
  }

  lemma {:induction false} SpacesStayInWindow(log: Log, n: nat)
    requires InWindow(log)
    ensures InWindow(PutSpaces(log, n)) && log.top <= PutSpaces(log, n).top
    ensures forall k: nat :: k < CRT_COLS * log.top ==> Get(PutSpaces(log, n).cells, k) == Get(log.cells, k)
    decreases n
  {
    if n > 0 {
      var next := PutPlain(log, BLANK);
      FollowsByOneRow(Log(Set(log.cells, log.pos, BLANK), log.pos + 1, log.top));
      SpacesStayInWindow(next, n - 1);
    }
  }

  lemma RowStartBelow(pos: nat, top: nat)
    requires pos >= CRT_COLS * top
    ensures CRT_COLS * top <= RowStart(pos) <= pos < RowStart(pos) + CRT_COLS
  {
    assert pos / CRT_COLS >= top;
  }

  /** One character keeps the cursor in the window and changes nothing above it. */
  lemma PutStaysInWindow(log: Log, ch: nat)
    requires InWindow(log)
    ensures InWindow(Put(log, ch)) && log.top <= Put(log, ch).top
    ensures forall k: nat :: k < CRT_COLS * log.top ==> Get(Put(log, ch).cells, k) == Get(log.cells, k)
  {
    hide RowStart, Get, Set, PutSpaces;
    RowStartBelow(log.pos, log.top);
    RowStartBelow(log.pos + CRT_COLS, log.top);
    SpacesStayInWindow(log, 5);
    FollowsByOneRow(log.(pos := RowStart(log.pos + CRT_COLS)));
    FollowsByOneRow(Log(Set(log.cells, log.pos, WithAttribute(ch) % 0x1_0000), log.pos + 1, log.top));
    hide Follow;
  }

  /** What has scrolled away is never changed, whatever is written later. */
  lemma {:induction false} HistoryIsKept(log: Log, cs: seq<nat>)
    requires InWindow(log)
    ensures InWindow(PutAll(log, cs)) && log.top <= PutAll(log, cs).top
    ensures forall k: nat :: k < CRT_COLS * log.top ==> Get(PutAll(log, cs).cells, k) == Get(log.cells, k)
    decreases |cs|
  {
    if cs != [] {
      PutStaysInWindow(log, cs[0]);
      HistoryIsKept(Put(log, cs[0]), cs[1..]);
    }
  }

  predicate Printable(c: nat) {
    0x20 <= c < 0x7F
  }

  lemma PutPrintable(log: Log, c: nat)
    requires InWindow(log) && Printable(c)
    ensures var e := Put(log, c);
            && e.pos == log.pos + 1
            && (forall k: nat :: Get(e.cells, k) == if k == log.pos then 0x0700 + c else Get(log.cells, k))
            && e.top == if e.pos >= CRT_COLS * log.top + CRT_SIZE then log.top + 1 else log.top
  {
    FollowsByOneRow(Log(Set(log.cells, log.pos, 0x0700 + c), log.pos + 1, log.top));
  }

  /** Text without control characters stands in the log character by character, from where
      the cursor was, and nothing else changes. */
  lemma {:induction false} TextIsLogged(log: Log, cs: seq<nat>)
    requires InWindow(log) && forall i :: 0 <= i < |cs| ==> Printable(cs[i])
    ensures var e := PutAll(log, cs);
            && e.pos == log.pos + |cs|
            && (forall k: nat :: Get(e.cells, k) ==
                  if log.pos <= k < log.pos + |cs| then 0x0700 + cs[k - log.pos] else Get(log.cells, k))
    decreases |cs|
  {
    if cs != [] {
      hide Get, InWindow;
      PutPrintable(log, cs[0]);
      PutStaysInWindow(log, cs[0]);
      hide Put;
      TextIsLogged(Put(log, cs[0]), cs[1..]);
    }
  }

  /** The window ends with the row of the cursor, if that is further down than before. */
  lemma {:induction false} WindowFollowsText(log: Log, cs: seq<nat>)
    requires InWindow(log) && forall i :: 0 <= i < |cs| ==> Printable(cs[i])
    ensures var e := PutAll(log, cs);
            && e.pos == log.pos + |cs|
            && e.top == if e.pos >= CRT_COLS * log.top + CRT_SIZE then e.pos / CRT_COLS - (CRT_ROWS - 1) else log.top
    decreases |cs|
  {
    if cs != [] {
      PutPrintable(log, cs[0]);
      PutStaysInWindow(log, cs[0]);
      hide Put;
      WindowFollowsText(Put(log, cs[0]), cs[1..]);
    }
  }

  // ----- every kind of character

  /** The screen scrolls by a row exactly when the cursor is below it. */
  ghost predicate Scrolled(before: Log, after: Log) {
    after.top == if after.pos >= CRT_COLS * before.top + CRT_SIZE then before.top + 1 else before.top
  }

  /** A newline moves to the next start of a row, and changes no cell. */
  lemma NewlineMoves(log: Log, ch: nat)
    requires InWindow(log) && ch % 0x100 == 10
    ensures var e := Put(log, ch);
            && e.pos % 80 == 0 && log.pos < e.pos <= log.pos + 80
            && e.cells == log.cells && Scrolled(log, e)
  {
    hide RowStart, PutSpaces, Set;
    RowStartIs(log.pos + CRT_COLS);
    RowStartBelow(log.pos + CRT_COLS, log.top);
    FollowsByOneRow(log.(pos := RowStart(log.pos + CRT_COLS)));
  }

  /** A carriage return moves to the start of this row, and changes no cell. */
  lemma ReturnMoves(log: Log, ch: nat)
    requires InWindow(log) && ch % 0x100 == 13
    ensures var e := Put(log, ch);
            && e.pos % 80 == 0 && log.pos - 80 < e.pos <= log.pos
            && e.cells == log.cells && e.top == log.top
  {
    RowStartIs(log.pos);
  }

  lemma RowStartIs(pos: nat)
    ensures RowStart(pos) % 80 == 0 && pos - 80 < RowStart(pos) <= pos
  {
  }

  /** A backspace blanks the cell before the cursor, with the attribute of the character, and moves
      there; at the top of the screen it does nothing. */
  lemma BackspaceErases(log: Log, ch: nat)
    requires InWindow(log) && ch % 0x100 == 8
    ensures var e := Put(log, ch);
            if log.pos == 80 * log.top then e == log
            else
              && e.pos == log.pos - 1 && e.top == log.top
              && forall k: nat :: Get(e.cells, k) ==
                   if k == e.pos then ((if ch < 0x100 then 0x0700 else ch - 8) + 0x20) % 0x1_0000 else Get(log.cells, k)
  {
  }

  lemma {:induction false} SpacesWritten(log: Log, n: nat)
    requires InWindow(log) && n <= 80
    ensures var e := PutSpaces(log, n);
            && e.pos == log.pos + n && Scrolled(log, e)
            && forall k: nat :: Get(e.cells, k) == if log.pos <= k < log.pos + n then BLANK else Get(log.cells, k)
    decreases n
  {
    if n > 0 {
      var next := PutPlain(log, BLANK);
      FollowsByOneRow(Log(Set(log.cells, log.pos, BLANK), log.pos + 1, log.top));
      hide Get;
      SpacesWritten(next, n - 1);
    }
  }

  /** A tab writes five blanks. */
  lemma TabBlanks(log: Log, ch: nat)
    requires InWindow(log) && ch % 0x100 == 9
    ensures var e := Put(log, ch);
            && e.pos == log.pos + 5 && Scrolled(log, e)
            && forall k: nat :: Get(e.cells, k) == if log.pos <= k < log.pos + 5 then 0x0720 else Get(log.cells, k)
  {
    hide PutSpaces, Get;
    SpacesWritten(log, 5);
  }

  /** Any other character is written with its attribute, which is black and white if it has none. */
  lemma CharacterWritten(log: Log, ch: nat)
    requires InWindow(log) && ch % 0x100 !in {8, 9, 10, 13}
    ensures var e := Put(log, ch);
            && e.pos == log.pos + 1 && Scrolled(log, e)
            && forall k: nat :: Get(e.cells, k) ==
                 if k == log.pos then (if ch < 0x100 then 0x0700 + ch else ch % 0x1_0000) else Get(log.cells, k)
  {
    hide PutSpaces, RowStart, Get, Set;
    FollowsByOneRow(Log(Set(log.cells, log.pos, WithAttribute(ch) % 0x1_0000), log.pos + 1, log.top));
  }

  // ----- lines of text

  /** The lines, each with a newline behind it. */
  function TextOf(lines: seq<seq<nat>>): seq<nat>
    decreases |lines|
  {
    if lines == [] then [] else lines[0] + [10] + TextOf(lines[1..])
  }

  /** Where line `i` starts: the first one at the cursor, the others at the start of the row behind
      the last character of the line before. */
  function LineStart(pos: nat, lines: seq<seq<nat>>, i: nat): nat
    requires i <= |lines|
    decreases i
  {
    if i == 0 then pos else LineStart(((pos + |lines[0]|) / 80 + 1) * 80, lines[1..], i - 1)
  }

  ghost predicate AllPrintable(lines: seq<seq<nat>>) {
    forall i, j :: 0 <= i < |lines| && 0 <= j < |lines[i]| ==> Printable(lines[i][j])
  }

  /** The cell belongs to line `i`. */
  predicate InLine(pos: nat, lines: seq<seq<nat>>, i: nat, k: nat)
    requires i < |lines|
  {
    LineStart(pos, lines, i) <= k < LineStart(pos, lines, i) + |lines[i]|
  }

  /** All lines are where they belong, and no other cell is changed. */
  ghost predicate LinesAt(before: Log, after: Log, lines: seq<seq<nat>>) {
    && (forall i: nat, k: nat :: i < |lines| && InLine(before.pos, lines, i, k) ==>
          Get(after.cells, k) == 0x0700 + lines[i][k - LineStart(before.pos, lines, i)])
    && forall k: nat :: (forall i: nat :: i < |lines| ==> !InLine(before.pos, lines, i, k)) ==>
         Get(after.cells, k) == Get(before.cells, k)
  }

  lemma {:induction false} PutAllAppend(log: Log, a: seq<nat>, b: seq<nat>)
    ensures PutAll(log, a + b) == PutAll(PutAll(log, a), b)
    decreases |a|
  {
    if a == [] {
      assert a + b == b;
    } else {
      assert (a + b)[1..] == a[1..] + b;
      hide Put;
      PutAllAppend(Put(log, a[0]), a[1..], b);
    }
  }

  /** The next start of a row is the only one there. */
  lemma NextRow(pos: nat, next: nat)
    requires next % 80 == 0 && pos < next <= pos + 80
    ensures next == (pos / 80 + 1) * 80
  {
  }

  lemma {:induction false} LineStartsAbove(pos: nat, lines: seq<seq<nat>>, i: nat)
    requires i <= |lines|
    ensures LineStart(pos, lines, i) >= pos
    decreases i
  {
    if i > 0 {
      LineStartsAbove(((pos + |lines[0]|) / 80 + 1) * 80, lines[1..], i - 1);
    }
  }

  /** The row of the cursor is the last one of the screen, if it is further down than before. */
  ghost predicate Follows(before: Log, after: Log) {
    after.top == if after.pos >= CRT_COLS * before.top + CRT_SIZE then after.pos / CRT_COLS - (CRT_ROWS - 1) else before.top
  }

  lemma FollowsNewline(log: Log, m: Log, e: Log)
    requires Follows(log, m) && Scrolled(m, e) && m.pos <= e.pos <= m.pos + 80 && e.pos % 80 == 0
    requires m.pos < CRT_COLS * m.top + CRT_SIZE && CRT_COLS * log.top <= log.pos <= m.pos
    ensures Follows(log, e)
  {
  }

  lemma FollowsTwice(log: Log, m: Log, e: Log)
    requires Follows(log, m) && Follows(m, e) && log.pos <= m.pos <= e.pos
    ensures Follows(log, e)
  {
  }

  lemma WindowEnd(log: Log)
    requires InWindow(log)
    ensures CRT_COLS * log.top <= log.pos < CRT_COLS * log.top + CRT_SIZE
  {
  }

  /** One line, and the newline behind it. */
  lemma LineWritten(log: Log, line: seq<nat>)
    requires InWindow(log) && forall j :: 0 <= j < |line| ==> Printable(line[j])
    ensures var e := PutAll(log, line + [10]);
            && InWindow(e) && e.pos == ((log.pos + |line|) / 80 + 1) * 80 && Follows(log, e)
            && forall k: nat :: Get(e.cells, k) ==
                 if log.pos <= k < log.pos + |line| then 0x0700 + line[k - log.pos] else Get(log.cells, k)
  {
    hide Get, Put, InWindow;
    PutAllAppend(log, line, [10]);
    TextIsLogged(log, line);
    WindowFollowsText(log, line);
    HistoryIsKept(log, line);
    var m := PutAll(log, line);
    assert PutAll(m, [10]) == Put(m, 10) by {
      assert [10][1..] == [];
    }
    NewlineMoves(m, 10);
    PutStaysInWindow(m, 10);
    NextRow(m.pos, Put(m, 10).pos);
    WindowEnd(log);
    WindowEnd(m);
    FollowsNewline(log, m, Put(m, 10));
  }

  /** Every line of a text stands in rows of its own, below the one before, and nothing else has
      changed; the cursor is at the start of the row behind the last one. */
  lemma {:induction false} LinesAreLogged(log: Log, lines: seq<seq<nat>>)
    requires InWindow(log) && AllPrintable(lines)
    ensures var e := PutAll(log, TextOf(lines));
            && InWindow(e) && e.pos == LineStart(log.pos, lines, |lines|) && Follows(log, e)
            && LinesAt(log, e, lines)
    decreases |lines|
  {
    hide Get, InWindow, Follows, LinesAt, Put;
    if lines == [] {
      NoLines(log);
    } else {
      var first, rest := lines[0], lines[1..];
      var m := PutAll(log, first + [10]);
      LineWritten(log, first);
      PutAllAppend(log, first + [10], TextOf(rest));
      assert AllPrintable(rest);
      LinesAreLogged(m, rest);
      LinesBehind(log, m, PutAll(m, TextOf(rest)), lines);
      LineStartsAbove(m.pos, rest, |rest|);
      FollowsTwice(log, m, PutAll(m, TextOf(rest)));
    }
  }

  lemma NoLines(log: Log)
    requires InWindow(log)
    ensures Follows(log, log) && LinesAt(log, log, [])
  {
  }

  lemma LinesBehind(log: Log, m: Log, e: Log, lines: seq<seq<nat>>)
    requires lines != [] && m.pos == ((log.pos + |lines[0]|) / 80 + 1) * 80 && LinesAt(m, e, lines[1..])
    requires forall k: nat :: Get(m.cells, k) ==
               if log.pos <= k < log.pos + |lines[0]| then 0x0700 + lines[0][k - log.pos] else Get(log.cells, k)
    ensures LinesAt(log, e, lines)
  {
    hide Get;
    var rest := lines[1..];
    assert m.pos > log.pos + |lines[0]|;
    forall i: nat, k: nat | 0 < i < |lines| ensures InLine(log.pos, lines, i, k) <==> InLine(m.pos, rest, i - 1, k) {
      assert rest[i - 1] == lines[i];
    }
    forall i: nat, k: nat | i < |rest| && InLine(m.pos, rest, i, k) ensures k >= m.pos {
      LineStartsAbove(m.pos, rest, i);
    }
    forall i: nat, k: nat | i < |lines| && InLine(log.pos, lines, i, k)
      ensures Get(e.cells, k) == 0x0700 + lines[i][k - LineStart(log.pos, lines, i)]
    {
      if i > 0 {
        assert InLine(m.pos, rest, i - 1, k);
      } else {
        assert Get(e.cells, k) == Get(m.cells, k);
      }
    }
    forall k: nat | forall i: nat :: i < |lines| ==> !InLine(log.pos, lines, i, k)
      ensures Get(e.cells, k) == Get(log.cells, k)
    {
      assert !InLine(log.pos, lines, 0, k);
      forall i: nat | i < |rest| ensures !InLine(m.pos, rest, i, k) {
        assert !InLine(log.pos, lines, i + 1, k);
      }
    }
  }

  lemma SpaceIsPlain(log: Log)
    ensures Put(log, 0x20) == PutPlain(log, BLANK)
  {
  }

  // ----- the buffer

  /** `memcpy` of lib/string.c, which copies forwards: the source may overlap the end of
      the destination. */
  method MemCpy(a: array<Cell>, dst: nat, src: nat, n: nat)
    requires dst <= src && src + n <= a.Length
    modifies a
    ensures forall k :: 0 <= k < a.Length ==> a[k] == if dst <= k < dst + n then old(a[src + (k - dst)]) else old(a[k])
  {
    var i := 0;
    while i < n
      invariant 0 <= i <= n
      invariant forall k :: 0 <= k < a.Length ==> a[k] == if dst <= k < dst + i then old(a[src + (k - dst)]) else old(a[k])
    {
      a[dst + i] := a[src + i];
      i := i + 1;
    }
  }

  /** `crt_buf` and `crt_pos`, with the log that they show. */
  class Display {
    const buf: array<Cell>
    var pos: nat
    ghost var log: Log

    /** The screen is the window of the log, and nothing was written below it. */
    ghost predicate Shows()
      reads this, buf
    {
      && buf.Length == CRT_SIZE && pos == log.pos - CRT_COLS * log.top
      && |log.cells| <= CRT_COLS * log.top + CRT_SIZE
      && forall k :: 0 <= k < CRT_SIZE ==> buf[k] == Get(log.cells, CRT_COLS * log.top + k)
    }

    ghost predicate Valid()
      reads this, buf
    {
      InWindow(log) && Shows()
    }

    /** The display as `cga_init` finds it. */
    constructor (buf: array<Cell>, pos: nat)
      requires buf.Length == CRT_SIZE && pos < CRT_SIZE
      ensures Valid() && this.buf == buf && log == Log(buf[..], pos, 0)
    {
      this.buf, this.pos := buf, pos;
      log := Log(buf[..], pos, 0);
    }

    /** A write of one cell of the screen. */
    method SetCell(k: nat, c: Cell)
      requires Shows() && k < CRT_SIZE
      modifies this`log, buf
      ensures Shows() && log == old(log).(cells := Set(old(log.cells), CRT_COLS * log.top + k, c))
    {
      buf[k] := c;
      log := log.(cells := Set(log.cells, CRT_COLS * log.top + k, c));
    }

    /** The end of `cga_putc`: one row is scrolled away if the cursor left the screen. */
    method Scroll()
      requires Shows() && CRT_COLS * log.top <= log.pos < CRT_COLS * (log.top + 1) + CRT_SIZE
      modifies this, buf
      ensures Valid() && log == Follow(old(log))
    {
      FollowsByOneRow(log);
      if pos >= CRT_SIZE {
        ghost var before := buf[..];
        MemCpy(buf, 0, CRT_COLS, CRT_SIZE - CRT_COLS);
        var i := CRT_SIZE - CRT_COLS;
        while i < CRT_SIZE
          invariant CRT_SIZE - CRT_COLS <= i <= CRT_SIZE
          invariant forall k :: 0 <= k < CRT_SIZE - CRT_COLS ==> buf[k] == before[k + CRT_COLS]
          invariant forall k :: CRT_SIZE - CRT_COLS <= k < i ==> buf[k] == BLANK
          modifies buf
        {
          buf[i] := BLANK;
          i := i + 1;
        }
        pos := pos - CRT_COLS;
        log := Follow(log);
      }
    }

    /** `crt_pos -= (crt_pos % CRT_COLS)`, at the end of `ahead` more columns. */
    method StartRow(ahead: nat)
      requires Valid()
      modifies this`pos, this`log
      ensures Shows() && log == old(log).(pos := RowStart(old(log.pos) + ahead))
      ensures CRT_COLS * log.top <= log.pos <= old(log.pos) + ahead
    {
      pos := pos + ahead;
      RowStartBelow(log.pos + ahead, log.top);
      pos := pos - pos % CRT_COLS;
      log := log.(pos := RowStart(log.pos + ahead));
    }

    /** `crt_buf[crt_pos++] = c` */
    method PutCell(c: Cell)
      requires Valid()
      modifies this, buf
      ensures Shows() && log == Log(Set(old(log.cells), old(log.pos), c), old(log.pos) + 1, old(log.top))
    {
      SetCell(pos, c);
      pos := pos + 1;
      log := log.(pos := log.pos + 1);
    }

    /** The cell before the cursor becomes a space, if there is one on the screen. */
    method Backspace(c: Cell)
      requires Valid()
      modifies this, buf
      ensures Valid()
      ensures log == if old(log.pos) > CRT_COLS * old(log.top)
                     then Log(Set(old(log.cells), old(log.pos) - 1, c), old(log.pos) - 1, old(log.top)) else old(log)
    {
      if pos > 0 {
        pos := pos - 1;
        log := log.(pos := log.pos - 1);
        SetCell(pos, c);
      }
    }

    /** A tab is five spaces. */
    method Tab()
      requires Valid()
      modifies this, buf
      ensures Valid() && log == PutSpaces(old(log), 5)
      decreases 1
    {
      SpaceIsPlain(log);
      PutC(0x20);
      SpaceIsPlain(log);
      PutC(0x20);
      SpaceIsPlain(log);
      PutC(0x20);
      SpaceIsPlain(log);
      PutC(0x20);
      SpaceIsPlain(log);
      hide PutPlain;
      PutC(0x20);
    }

    /** `cga_putc` */
    method PutC(ch: nat)
      requires Valid()
      modifies this, buf
      ensures Valid() && log == Put(old(log), ch)
      decreases if WithAttribute(ch) % 0x100 == 9 then 2 else 0
    {
      var c := WithAttribute(ch);
      hide Get, Set, PutSpaces, RowStart;
      match c % 0x100 {
        case 8 => Backspace((c - c % 0x100 + 0x20) % 0x1_0000);
        case 10 => StartRow(CRT_COLS);
        case 13 => StartRow(0);
        case 9 => Tab();
        case _ => PutCell(c % 0x1_0000);
      }
      Scroll();
    }

    /** A whole output: the screen is the window of the log of it. */
    method PutString(cs: seq<nat>)
      requires Valid()
      modifies this, buf
      ensures Valid() && log == PutAll(old(log), cs)
    {
      var i := 0;
      assert cs[0..] == cs;
      while i < |cs|
        invariant 0 <= i <= |cs| && Valid()
        invariant PutAll(old(log), cs) == PutAll(log, cs[i..])
      {
        assert cs[i..][0] == cs[i] && cs[i..][1..] == cs[i + 1..];
        PutC(cs[i]);
        i := i + 1;
      }
    }
  }
}
