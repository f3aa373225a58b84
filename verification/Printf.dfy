/** `printnum`, `vprintfmt` and `vsnprintf` of lib/printfmt.c, with their loops and the
    bounded buffer that they print to. */
module Printf {
  import opened Options
  import opened Numbers
  import opened Format

  const E_INVAL := 3

  /** The `char` that a value becomes. */
  function Char(c: int): (r: int)
    ensures -128 <= r < 128 && (r - c) % 256 == 0
  {
    (c + 128) % 256 - 128
  }

  /** `struct sprintbuf`: `next` is the place of `b->buf` and `limit` that of `b->ebuf`. The
      stream is all that was put, whether it was stored or not. */
  class SprintBuf {
    const buf: array<int>
    const limit: nat
    var next: nat
    var cnt: nat
    ghost var stream: Text
    ghost const before: seq<int>

    /** The buffer has the start of the stream, up to its limit, and is untouched behind it. */
    ghost predicate Valid()
      reads this, buf
    {
      && limit < buf.Length == |before| && cnt == |stream|
      && next == (if cnt < limit then cnt else limit)
      && forall i :: 0 <= i < buf.Length ==> buf[i] == if i < next then Char(stream[i]) else before[i]
    }

    constructor (buf: array<int>, n: nat)
      requires 0 < n <= buf.Length
      ensures Valid() && this.buf == buf && limit == n - 1 && stream == [] && before == buf[..]
    {
      this.buf, limit, next, cnt := buf, n - 1, 0, 0;
      stream, before := [], buf[..];
    }

    /** `sprintputch` */
    method Put(ch: int)
      requires Valid()
      modifies this, buf
      ensures Valid() && stream == old(stream) + [ch]
    {
      cnt := cnt + 1;
      stream := stream + [ch];
      if next < limit {
        buf[next] := Char(ch);
        next := next + 1;
      }
    }
  }

  /** `for (; n > 0; n--) putch(c)` */
  method PutRepeat(b: SprintBuf, c: int, n: int)
    requires b.Valid()
    modifies b, b.buf
    ensures b.Valid() && b.stream == old(b.stream) + Repeat(c, n)
  {
    var left := n;
    while left > 0
      invariant b.Valid() && (left >= 0 || left == n)
      invariant b.stream == old(b.stream) + Repeat(c, n - left)
      decreases left
    {
      b.Put(c);
      left := left - 1;
    }
    assert left == n || n == n - left;
  }

  method PutText(b: SprintBuf, t: Text)
    requires b.Valid()
    modifies b, b.buf
    ensures b.Valid() && b.stream == old(b.stream) + t
  {
    var i := 0;
    while i < |t|
      invariant 0 <= i <= |t| && b.Valid() && b.stream == old(b.stream) + t[..i]
    {
      b.Put(t[i]);
      i := i + 1;
    }
  }

  /** A number is the number without its last digit, in less room, and that digit. */
  lemma NumberSplit(num: nat, base: nat, width: int, padc: int)
    requires 2 <= base <= 16
    ensures num >= base ==> Number(num, base, width, padc) == Number(num / base, base, width - 1, padc) + [DigitCode(num % base)]
    ensures num < base ==> num % base == num && Number(num, base, width, padc) == Repeat(padc, width - 1) + [DigitCode(num)]
  {
    hide Digits, DigitCode;
    DigitsUnfold(num, base);
    if num >= base {
      var high := Digits(num / base, base);
      assert width - |Digits(num, base)| == width - 1 - |high|;
    }
  }

  /** `printnum`, which prints the more significant digits first. */
  method PrintNum(b: SprintBuf, num: nat, base: nat, width: int, padc: int)
    requires b.Valid() && 2 <= base <= 16
    modifies b, b.buf
    ensures b.Valid() && b.stream == old(b.stream) + Number(num, base, width, padc)
    decreases num
  {
    NumberSplit(num, base, width, padc);
    LastDigit(num, base);
    hide Number, Digits;
    if num >= base {
      PrintNum(b, num / base, base, width - 1, padc);
    } else {
      PutRepeat(b, padc, width - 1);
    }
    b.Put(DigitCode(num % base));
  }

  /** The string of a `%s`, with its padding. */
  method PrintString(b: SprintBuf, s: Text, e: Escape)
    requires b.Valid()
    modifies b, b.buf
    ensures b.Valid() && b.stream == old(b.stream) + StringText(s, e)
  {
    var width := e.width;
    if width > 0 && e.padc != MINUS {
      width := width - StrNLen(s, e.precision);
      PutRepeat(b, e.padc, width);
      width := if width > 0 then 0 else width;
    }
    PutShown(b, s, e);
    PutRepeat(b, SPACE, width - StrNLen(s, e.precision));
  }

  /** `strnlen(p, precision)`: a negative precision is a very large size. */
  function StrNLen(s: Text, precision: int): (n: nat)
    ensures n == |Cut(s, precision)|
  {
    if 0 <= precision < |s| then precision else |s|
  }

  /** The middle loop of a `%s`, which prints no more than the precision allows. */
  method PutShown(b: SprintBuf, s: Text, e: Escape)
    requires b.Valid()
    modifies b, b.buf
    ensures b.Valid() && b.stream == old(b.stream) + Shown(Cut(s, e.precision), e.altflag)
  {
    ghost var t := Shown(Cut(s, e.precision), e.altflag);
    var i, precision := 0, e.precision;
    while i < |s| && (precision < 0 || precision > 0)
      invariant 0 <= i <= |t| && b.Valid() && b.stream == old(b.stream) + t[..i]
      invariant precision == if e.precision < 0 then e.precision else e.precision - i
      decreases |s| - i
    {
      if e.altflag && (s[i] < ' ' as int || s[i] > '~' as int) {
        b.Put('?' as int);
      } else {
        b.Put(s[i]);
      }
      if precision > 0 {
        precision := precision - 1;
      }
      i := i + 1;
    }
  }

  /** The loop over a number in the format, which moves on as long as there are digits. */
  method ReadNumber(fmt: Text, start: nat) returns (n: int, p: nat)
    requires IsString(fmt) && start < |fmt| && IsDigit(fmt[start])
    ensures (n, p) == Digitized(fmt, start, 0)
  {
    n, p := 0, start;
    while IsDigit(fmt[p])
      invariant start <= p < |fmt| && Digitized(fmt, p, n) == Digitized(fmt, start, 0)
      decreases |fmt| - p
    {
      n := n * 10 + fmt[p] - '0' as int;
      p := p + 1;
    }
  }

  /** The flags of an escape sequence: the cases of the switch that go back to it. */
  method ReadFlags(fmt: Text, args: seq<Arg>, start: Escape) returns (e: Escape)
    requires IsString(fmt) && start.pos < |fmt|
    ensures e == Flags(fmt, args, start)
  {
    e := start;
    while IsFlag(fmt[e.pos])
      invariant start.pos <= e.pos < |fmt| && Flags(fmt, args, e) == Flags(fmt, args, start)
      decreases |fmt| - e.pos
    {
      ghost var next := Flag(fmt, args, e);
      var c := fmt[e.pos];
      if c == '-' as int || c == '0' as int {
        e := e.(pos := e.pos + 1, padc := c);
      } else if IsDigit(c) {
        var n, p := ReadNumber(fmt, e.pos);
        e := WithNumber(e.(pos := p), n);
      } else if c == '*' as int {
        e := WithNumber(e.(pos := e.pos + 1, arg := e.arg + 1), SignedInt(NumAt(args, e.arg), 0));
      } else if c == '.' as int {
        e := e.(pos := e.pos + 1, width := if e.width < 0 then 0 else e.width);
      } else if c == '#' as int {
        e := e.(pos := e.pos + 1, altflag := true);
      } else {
        e := e.(pos := e.pos + 1, lflag := e.lflag + 1);
      }
      assert e == next;
    }
  }

  /** `%e`: both of its formats are printed by `vprintfmt` itself; see `ErrorFormat`. */
  method PrintError(b: SprintBuf, err: int)
    requires b.Valid()
    modifies b, b.buf
    ensures b.Valid() && b.stream == old(b.stream) + ErrorText(err)
  {
    var n := if err < 0 then -err else err;
    if 1 <= n <= 6 {
      PutText(b, Codes(ERRORS[n - 1]));
    } else {
      PutText(b, Codes("error "));
      PrintNum(b, n, 10, -1, SPACE);
    }
  }

  /** The cases of the switch that print. */
  method PrintConversion(b: SprintBuf, c: int, args: seq<Arg>, e: Escape)
    requires b.Valid() && IsConversion(c)
    modifies b, b.buf
    ensures b.Valid() && b.stream == old(b.stream) + Converted(c, args, e)
  {
    var n := NumAt(args, e.arg);
    if c == 'c' as int {
      b.Put(SignedInt(n, 0));
    } else if c == 'e' as int {
      PrintError(b, SignedInt(n, 0));
    } else if c == 's' as int {
      PrintString(b, StrAt(args, e.arg), e);
    } else if c == 'd' as int {
      PrintSigned(b, SignedInt(n, e.lflag), e);
    } else if c == 'u' as int {
      PrintNum(b, Unsigned(n, e.lflag), 10, e.width, e.padc);
    } else if c == 'o' as int {
      PrintNum(b, Unsigned(n, e.lflag), 8, e.width, e.padc);
    } else if c == 'p' as int {
      PutText(b, Codes("0x"));
      PrintNum(b, Unsigned(n, 0), 16, e.width, e.padc);
    } else if c == 'x' as int {
      PrintNum(b, Unsigned(n, e.lflag), 16, e.width, e.padc);
    } else {
      b.Put(PERCENT);
    }
  }

  method PrintSigned(b: SprintBuf, n: int, e: Escape)
    requires b.Valid()
    modifies b, b.buf
    ensures b.Valid() && b.stream == old(b.stream) + SignedText(n, e)
  {
    var num := n;
    if num < 0 {
      b.Put(MINUS);
      num := -num;
    }
    PrintNum(b, num, 10, e.width, e.padc);
  }

  /** `for (fmt--; fmt[-1] != '%'; fmt--)`: back to the start of the escape. */
  method BackToPercent(fmt: Text, from: nat, ghost percent: nat) returns (p: nat)
    requires percent < from < |fmt| && fmt[percent] == PERCENT
    requires forall i :: percent < i < from ==> fmt[i] != PERCENT
    ensures p == percent + 1
  {
    p := from;
    while fmt[p - 1] != PERCENT
      invariant percent < p <= from
      decreases p
    {
      p := p - 1;
    }
  }

  /** `vprintfmt`: it ends on every format, and does not read behind its end, although an
      escape that is not recognised moves it back to the percent sign. */
  method VPrintFmt(b: SprintBuf, fmt: Text, args: seq<Arg>)
    requires b.Valid() && IsString(fmt)
    modifies b, b.buf
    ensures b.Valid() && b.stream == old(b.stream) + Printed(fmt, args, 0, 0)
  {
    hide Printed, Percents, Flags, Converted, IsConversion;
    var p: nat, arg: nat := 0, 0;
    while true
      invariant p < |fmt| && b.Valid()
      invariant b.stream + Printed(fmt, args, p, arg) == old(b.stream) + Printed(fmt, args, 0, 0)
      decreases Percents(fmt, p), |fmt| - p
    {
      if fmt[p] != PERCENT {
        PrintedPlain(fmt, args, p, arg);
        if fmt[p] == 0 {
          return;
        }
        b.Put(fmt[p]);
        p := p + 1;
      } else {
        var e := ReadFlags(fmt, args, Start(p + 1, arg));
        PrintedEscape(fmt, args, p, arg, e);
        if IsConversion(fmt[e.pos]) {
          PrintConversion(b, fmt[e.pos], args, e);
          p, arg := e.pos + 1, if fmt[e.pos] == PERCENT then e.arg else e.arg + 1;
        } else {
          b.Put(PERCENT);
          p := BackToPercent(fmt, e.pos, p);
          arg := e.arg;
        }
      }
    }
  }

  /** `vsnprintf`: the answer is the length of the whole output, the buffer has as much of
      it as fits, ended by a NUL, and is untouched behind that. */
  method VSNPrintf(buf: array?<int>, n: int, fmt: Text, args: seq<Arg>) returns (r: int)
    requires IsString(fmt) && (buf != null ==> n <= buf.Length)
    modifies buf
    ensures buf == null || n < 1 ==> r == -E_INVAL && (buf != null ==> buf[..] == old(buf[..]))
    ensures buf != null && n >= 1 ==>
              var t := Printed(fmt, args, 0, 0);
              var m := if |t| < n - 1 then |t| else n - 1;
              && r == |t| && buf[m] == 0
              && (forall i :: 0 <= i < m ==> buf[i] == Char(t[i]))
              && forall i :: m < i < buf.Length ==> buf[i] == old(buf[i])
  {
    if buf == null || n < 1 {
      return -E_INVAL;
    }
    var b := new SprintBuf(buf, n);
    VPrintFmt(b, fmt, args);
    assert b.stream == Printed(fmt, args, 0, 0);
    buf[b.next] := 0;
    return b.cnt;
  }
}
