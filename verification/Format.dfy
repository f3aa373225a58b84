/** What `vprintfmt` of lib/printfmt.c prints: the meaning of a format string, as a function
    of the format and its arguments. */
module Format {
  import opened Options
  import opened Numbers

  const PERCENT: int := '%' as int

  /** An argument: a number of any size, or a string, possibly null. Its characters are the
      values of the `char` type. */
  datatype Arg = Num(n: int) | Str(s: Option<Text>)

  // ----- arguments

  /** The argument as a number; C leaves a wrong or missing argument undefined, here it is 0. */
  function NumAt(args: seq<Arg>, i: nat): int {
    if i < |args| && args[i].Num? then args[i].n else 0
  }

  function StrAt(args: seq<Arg>, i: nat): Text {
    if i < |args| && args[i].Str? && args[i].s.Some? then args[i].s.value else Codes("(null)")
  }

  /** `getuint`: two `l` flags make the argument 64 bits wide, otherwise it has 32. */
  function Unsigned(n: int, lflag: nat): nat {
    if lflag >= 2 then n % 0x1_0000_0000_0000_0000 else n % 0x1_0000_0000
  }

  /** `getint` */
  function SignedInt(n: int, lflag: nat): int {
    var half := if lflag >= 2 then 0x8000_0000_0000_0000 else 0x8000_0000;
    (n + half) % (2 * half) - half
  }

  // ----- escapes

  /** The variables of an escape sequence that is being read: the place in the format, the
      next argument, and what the flags have set. */
  datatype Escape = Escape(pos: nat, arg: nat, padc: int, width: int, precision: int, lflag: nat, altflag: bool)

  function Start(pos: nat, arg: nat): Escape {
    Escape(pos, arg, SPACE, -1, -1, 0, false)
  }

  predicate IsDigit(c: int) {
    '0' as int <= c <= '9' as int
  }

  /** A character after which the escape sequence goes on. */
  predicate IsFlag(c: int) {
    IsDigit(c) || c == '-' as int || c == '*' as int || c == '.' as int || c == '#' as int || c == 'l' as int
  }

  /** The format is a C string: it has one NUL, at its end. */
  predicate IsString(fmt: Text) {
    |fmt| > 0 && fmt[|fmt| - 1] == 0 && forall i :: 0 <= i < |fmt| - 1 ==> fmt[i] != 0
  }

  /** The number from `p` on, and the place behind it. */
  function Digitized(fmt: Text, p: nat, val: int): (r: (int, nat))
    requires IsString(fmt) && p < |fmt|
    ensures p <= r.1 < |fmt| && (IsDigit(fmt[p]) ==> p < r.1)
    ensures forall i :: p <= i < r.1 ==> IsDigit(fmt[i])
    decreases |fmt| - p
  {
    if IsDigit(fmt[p]) then Digitized(fmt, p + 1, val * 10 + fmt[p] - '0' as int) else (val, p)
  }

  /** `process_precision`: the first number is the width. */
  function WithNumber(e: Escape, n: int): Escape {
    if e.width < 0 then e.(width := n, precision := -1) else e.(precision := n)
  }

  /** One flag of the escape sequence. */
  function Flag(fmt: Text, args: seq<Arg>, e: Escape): (r: Escape)
    requires IsString(fmt) && e.pos < |fmt| && IsFlag(fmt[e.pos])
    ensures e.pos < r.pos < |fmt| && forall i :: e.pos <= i < r.pos ==> IsFlag(fmt[i])
  {
    var c := fmt[e.pos];
    if c == '-' as int then e.(pos := e.pos + 1, padc := c)
    else if c == '0' as int then e.(pos := e.pos + 1, padc := c)
    else if IsDigit(c) then WithNumber(e.(pos := Digitized(fmt, e.pos, 0).1), Digitized(fmt, e.pos, 0).0)
    else if c == '*' as int then WithNumber(e.(pos := e.pos + 1, arg := e.arg + 1), SignedInt(NumAt(args, e.arg), 0))
    else if c == '.' as int then e.(pos := e.pos + 1, width := if e.width < 0 then 0 else e.width)
    else if c == '#' as int then e.(pos := e.pos + 1, altflag := true)
    else e.(pos := e.pos + 1, lflag := e.lflag + 1)
  }

  /** All flags, up to the conversion character. */
  function Flags(fmt: Text, args: seq<Arg>, e: Escape): (r: Escape)
    requires IsString(fmt) && e.pos < |fmt|
    ensures e.pos <= r.pos < |fmt| && !IsFlag(fmt[r.pos])
    ensures forall i :: e.pos <= i < r.pos ==> IsFlag(fmt[i])
    decreases |fmt| - e.pos
  {
    if IsFlag(fmt[e.pos]) then Flags(fmt, args, Flag(fmt, args, e)) else e
  }

  predicate IsConversion(c: int) {
    || c == 'c' as int || c == 'e' as int || c == 's' as int || c == 'd' as int || c == 'u' as int
    || c == 'o' as int || c == 'p' as int || c == 'x' as int || c == PERCENT
  }

  // ----- conversions

  const ERRORS := ["unspecified error", "bad environment", "invalid parameter", "out of memory",
                   "out of environments", "segmentation fault"]

  /** `%e` */
  function ErrorText(err: int): Text {
    var n := if err < 0 then -err else err;
    if 1 <= n <= 6 then Codes(ERRORS[n - 1]) else Codes("error ") + Number(n, 10, -1, SPACE)
  }

  /** The characters of a `%s`: with `#` those that cannot be printed are question marks. */
  function Shown(s: Text, altflag: bool): (t: Text)
    ensures |t| == |s|
  {
    seq(|s|, i requires 0 <= i < |s| => if altflag && (s[i] < ' ' as int || s[i] > '~' as int) then '?' as int else s[i])
  }

  /** A precision limits the string. */
  function Cut(s: Text, precision: int): (t: Text)
    ensures |t| <= |s|
  {
    if 0 <= precision < |s| then s[..precision] else s
  }

  /** `%s`: padded on the left, or with `-` on the right. */
  function StringText(s: Text, e: Escape): Text {
    var t := Cut(s, e.precision);
    (if e.padc == MINUS then [] else Repeat(e.padc, e.width - |t|))
    + Shown(t, e.altflag)
    + (if e.padc == MINUS then Repeat(SPACE, e.width - |t|) else [])
  }

  /** `%d` */
  function SignedText(n: int, e: Escape): Text {
    if n < 0 then [MINUS] + Number(-n, 10, e.width, e.padc) else Number(n, 10, e.width, e.padc)
  }

  /** What a conversion prints. */
  function Converted(c: int, args: seq<Arg>, e: Escape): Text
    requires IsConversion(c)
  {
    var n := NumAt(args, e.arg);
    if c == 'c' as int then [SignedInt(n, 0)]
    else if c == 'e' as int then ErrorText(SignedInt(n, 0))
    else if c == 's' as int then StringText(StrAt(args, e.arg), e)
    else if c == 'd' as int then SignedText(SignedInt(n, e.lflag), e)
    else if c == 'u' as int then Number(Unsigned(n, e.lflag), 10, e.width, e.padc)
    else if c == 'o' as int then Number(Unsigned(n, e.lflag), 8, e.width, e.padc)
    else if c == 'p' as int then Codes("0x") + Number(Unsigned(n, 0), 16, e.width, e.padc)
    else if c == 'x' as int then Number(Unsigned(n, e.lflag), 16, e.width, e.padc)
    else [PERCENT]
  }

  // ----- formats

  /** The percent signs from a place on. */
  function Percents(fmt: Text, p: nat): nat
    decreases |fmt| - p
  {
    if p >= |fmt| then 0 else (if fmt[p] == PERCENT then 1 else 0) + Percents(fmt, p + 1)
  }

  lemma {:induction false} FewerPercents(fmt: Text, p: nat, q: nat)
    requires p <= q
    ensures Percents(fmt, q) <= Percents(fmt, p)
    decreases q - p
  {
    if p < q {
      FewerPercents(fmt, p + 1, q);
    }
  }

  /** Everything that `vprintfmt` prints from a place in the format on. An escape that is not
      recognised prints its percent sign, and is then read again as text. */
  function Printed(fmt: Text, args: seq<Arg>, p: nat, arg: nat): Text
    requires IsString(fmt) && p < |fmt|
    decreases Percents(fmt, p), |fmt| - p
  {
    if fmt[p] == 0 then []
    else if fmt[p] != PERCENT then
      [fmt[p]] + Printed(fmt, args, p + 1, arg)
    else
      var e := Flags(fmt, args, Start(p + 1, arg));
      var c := fmt[e.pos];
      if IsConversion(c) then
        FewerPercents(fmt, p + 1, e.pos + 1);
        Converted(c, args, e) + Printed(fmt, args, e.pos + 1, if c == PERCENT then e.arg else e.arg + 1)
      else [PERCENT] + Printed(fmt, args, p + 1, e.arg)
  }

  lemma PrintedPlain(fmt: Text, args: seq<Arg>, p: nat, arg: nat)
    requires IsString(fmt) && p < |fmt| && fmt[p] != PERCENT
    ensures fmt[p] == 0 ==> Printed(fmt, args, p, arg) == []
    ensures fmt[p] != 0 ==>
              && p + 1 < |fmt| && Percents(fmt, p + 1) == Percents(fmt, p)
              && Printed(fmt, args, p, arg) == [fmt[p]] + Printed(fmt, args, p + 1, arg)
  {
  }

  lemma PrintedEscape(fmt: Text, args: seq<Arg>, p: nat, arg: nat, e: Escape)
    requires IsString(fmt) && p + 1 < |fmt| && fmt[p] == PERCENT && e == Flags(fmt, args, Start(p + 1, arg))
    ensures p < e.pos < |fmt| && forall i :: p < i < e.pos ==> fmt[i] != PERCENT
    ensures Percents(fmt, p + 1) < Percents(fmt, p)
    ensures IsConversion(fmt[e.pos]) ==>
              && e.pos + 1 < |fmt| && Percents(fmt, e.pos + 1) < Percents(fmt, p)
              && Printed(fmt, args, p, arg)
                 == Converted(fmt[e.pos], args, e) + Printed(fmt, args, e.pos + 1, if fmt[e.pos] == PERCENT then e.arg else e.arg + 1)
    ensures !IsConversion(fmt[e.pos]) ==> Printed(fmt, args, p, arg) == [PERCENT] + Printed(fmt, args, p + 1, e.arg)
  {
    hide Flags, Percents, Converted, IsConversion, IsFlag, Printed;
    FlagIsNoPercent();
    FewerPercents(fmt, p + 1, e.pos + 1);
    PercentCounts(fmt, p);
    PrintedUnfold(fmt, args, p, arg);
  }

  lemma FlagIsNoPercent()
    ensures !IsFlag(PERCENT) && !IsConversion(0) && IsConversion(PERCENT)
  {
  }

  lemma PercentCounts(fmt: Text, p: nat)
    requires p < |fmt| && fmt[p] == PERCENT
    ensures Percents(fmt, p) == Percents(fmt, p + 1) + 1
  {
  }

  lemma PrintedUnfold(fmt: Text, args: seq<Arg>, p: nat, arg: nat)
    requires IsString(fmt) && p + 1 < |fmt| && fmt[p] == PERCENT
    ensures var e := Flags(fmt, args, Start(p + 1, arg));
            && (IsConversion(fmt[e.pos]) ==>
                  && e.pos + 1 < |fmt|
                  && Printed(fmt, args, p, arg)
                     == Converted(fmt[e.pos], args, e) + Printed(fmt, args, e.pos + 1, if fmt[e.pos] == PERCENT then e.arg else e.arg + 1))
            && (!IsConversion(fmt[e.pos]) ==> Printed(fmt, args, p, arg) == [PERCENT] + Printed(fmt, args, p + 1, e.arg))
  {
  }

  /** Text without percent signs is printed as it is. */
  lemma {:induction false} PlainTextPrinted(fmt: Text, args: seq<Arg>, p: nat, q: nat, arg: nat)
    requires IsString(fmt) && p <= q < |fmt| && forall i :: p <= i < q ==> fmt[i] != PERCENT
    ensures Printed(fmt, args, p, arg) == fmt[p..q] + Printed(fmt, args, q, arg)
    decreases q - p
  {
    hide Printed;
    if p < q {
      PrintedPlain(fmt, args, p, arg);
      PlainTextPrinted(fmt, args, p + 1, q, arg);
      assert fmt[p..q] == [fmt[p]] + fmt[p + 1..q];
    }
  }

  /** An escape that is not recognised is printed as its own text, flags and all; only the
      arguments that its stars took are used up. */
  lemma UnrecognizedIsText(fmt: Text, args: seq<Arg>, p: nat, arg: nat)
    requires IsString(fmt) && p < |fmt| && fmt[p] == PERCENT
    requires !IsConversion(fmt[Flags(fmt, args, Start(p + 1, arg)).pos])
    ensures var e := Flags(fmt, args, Start(p + 1, arg));
            var q := if fmt[e.pos] == 0 then e.pos else e.pos + 1;
            q < |fmt| && Printed(fmt, args, p, arg) == fmt[p..q] + Printed(fmt, args, q, e.arg)
  {
    FlagIsNoPercent();
    hide Flags, Printed, IsConversion, IsFlag;
    var e := Flags(fmt, args, Start(p + 1, arg));
    PrintedEscape(fmt, args, p, arg, e);
    var q := if fmt[e.pos] == 0 then e.pos else e.pos + 1;
    PlainTextPrinted(fmt, args, p + 1, q, e.arg);
    assert fmt[p..q] == [PERCENT] + fmt[p + 1..q];
  }

  /** A format that ends with an escape of one character. */
  lemma LastEscape(fmt: Text, args: seq<Arg>, p: nat)
    requires IsString(fmt) && |fmt| == p + 3 && (forall i :: 0 <= i < p ==> fmt[i] != PERCENT)
    requires fmt[p] == PERCENT && IsConversion(fmt[p + 1]) && fmt[p + 1] != PERCENT
    ensures Printed(fmt, args, 0, 0) == fmt[..p] + Converted(fmt[p + 1], args, Start(p + 1, 0))
  {
    var e := Start(p + 1, 0);
    assert Flags(fmt, args, e) == e;
    hide Flags, Printed, Converted, IsConversion;
    PlainTextPrinted(fmt, args, 0, p, 0);
    PrintedEscape(fmt, args, p, 0, e);
    PrintedPlain(fmt, args, p + 2, 1);
  }

  /** `printfmt(putch, putdat, "error %d", err)` */
  lemma ErrorFormat(err: nat)
    requires err < 0x8000_0000
    ensures IsString(Codes("error %d\0"))
    ensures Printed(Codes("error %d\0"), [Num(err)], 0, 0) == Codes("error ") + Number(err, 10, -1, SPACE)
  {
    var fmt, args := Codes("error %d\0"), [Num(err)];
    assert fmt[6] == PERCENT && fmt[7] == 'd' as int;
    assert fmt[..6] == Codes("error ");
    assert Converted('d' as int, args, Start(7, 0)) == Number(err, 10, -1, SPACE);
    hide Printed, Converted;
    LastEscape(fmt, args, 6);
  }

  /** `printfmt(putch, putdat, "%s", p)` */
  lemma StringFormat(t: Text)
    ensures IsString(Codes("%s\0"))
    ensures Printed(Codes("%s\0"), [Str(Some(t))], 0, 0) == t
  {
    var fmt, args := Codes("%s\0"), [Str(Some(t))];
    var e := Start(1, 0);
    assert fmt[0] == PERCENT && fmt[1] == 's' as int;
    assert StringText(t, e) == t by {
      assert Shown(t, false) == t;
    }
    assert Converted('s' as int, args, e) == t;
    hide Printed, Converted;
    LastEscape(fmt, args, 0);
  }

  /** `%d`, read back: the number is recovered exactly when it is a `long` and no space falls
      behind a minus sign. */
  lemma ParseOfSigned(n: int, e: Escape)
    requires e.padc in {SPACE, ZERO}
    ensures var s := SignedText(n, e) + [0];
            Terminated(s) && (Parsed(s, 10).0 == n <==>
                                && -0x8000_0000 <= n < 0x8000_0000
                                && (n >= 0 || e.padc == ZERO || e.width <= |Digits(-n, 10)|))
  {
    if n < 0 {
      assert SignedText(n, e) == Negative(-n, e.width, e.padc);
      ParseOfNegative(-n, e.width, e.padc);
    } else {
      ParseOfPrint(n, 10, e.width, e.padc);
    }
  }

  // ----- what the flags mean

  /** The flags of an escape as they are written: a pad character or none (SPACE), a width and a
      precision or none (0), `#`, and some `l`. */
  datatype Layout = Layout(pad: int, width: nat, precision: nat, altflag: bool, longs: nat)

  predicate Proper(l: Layout) {
    l.pad == SPACE || l.pad == ZERO || l.pad == MINUS
  }

  function PadText(l: Layout): Text {
    if l.pad == SPACE then [] else [l.pad]
  }

  function WidthText(l: Layout): Text {
    if l.width == 0 then [] else Digits(l.width, 10)
  }

  function PrecisionText(l: Layout): Text {
    if l.precision == 0 then [] else ['.' as int] + Digits(l.precision, 10)
  }

  function AltText(l: Layout): Text {
    if l.altflag then ['#' as int] else []
  }

  function FlagText(l: Layout): Text {
    PadText(l) + (WidthText(l) + (PrecisionText(l) + (AltText(l) + Repeat('l' as int, l.longs))))
  }

  /** No width is -1, but a precision without a width makes it 0. */
  function WidthOf(l: Layout): int {
    if l.width > 0 then l.width else if l.precision > 0 then 0 else -1
  }

  function PrecisionOf(l: Layout): int {
    if l.precision > 0 then l.precision else -1
  }

  lemma HoldsParts(s: Text, p: nat, t: Text, u: Text)
    requires Holds(s, p, t + u)
    ensures p + |t| + |u| <= |s| && Holds(s, p, t) && Holds(s, p + |t|, u)
  {
    var r := s[p..p + |t + u|];
    assert s[p..p + |t|] == r[..|t|] == t;
    assert s[p + |t|..p + |t| + |u|] == r[|t|..] == u;
  }

  lemma HoldsOne(s: Text, p: nat, c: int)
    requires Holds(s, p, [c])
    ensures p < |s| && s[p] == c
  {
    assert s[p..p + 1][0] == c;
  }

  lemma FlagsUnfold(fmt: Text, args: seq<Arg>, e: Escape)
    requires IsString(fmt) && e.pos < |fmt|
    ensures IsFlag(fmt[e.pos]) ==> Flags(fmt, args, e) == Flags(fmt, args, Flag(fmt, args, e))
    ensures !IsFlag(fmt[e.pos]) ==> Flags(fmt, args, e) == e
  {
  }

  lemma {:induction false} DecimalDigits(n: nat)
    ensures forall i :: 0 <= i < |Digits(n, 10)| ==> IsDigit(Digits(n, 10)[i])
    decreases n
  {
    if n >= 10 {
      LastDigit(n, 10);
      DecimalDigits(n / 10);
    }
  }

  lemma DigitizedUnfold(fmt: Text, p: nat, val: int)
    requires IsString(fmt) && p < |fmt|
    ensures IsDigit(fmt[p]) ==> p + 1 < |fmt| && Digitized(fmt, p, val) == Digitized(fmt, p + 1, val * 10 + fmt[p] - '0' as int)
    ensures !IsDigit(fmt[p]) ==> Digitized(fmt, p, val) == (val, p)
  {
  }

  /** The digits of a number in the format are read as the number. */
  lemma {:induction false} DigitizedIs(fmt: Text, p: nat, n: nat)
    requires IsString(fmt) && Holds(fmt, p, Digits(n, 10)) && p + |Digits(n, 10)| < |fmt|
    ensures Digitized(fmt, p, 0) == Digitized(fmt, p + |Digits(n, 10)|, n)
    decreases n
  {
    hide Digits, Digitized, Holds;
    DigitsUnfold(n, 10);
    LastDigit(n, 10);
    if n < 10 {
      assert [] + [DigitCode(n)] == [DigitCode(n)];
      HoldsSplit(fmt, p, [], DigitCode(n));
      DigitizedUnfold(fmt, p, 0);
    } else {
      var high := Digits(n / 10, 10);
      HoldsSplit(fmt, p, high, DigitCode(n % 10));
      DigitizedIs(fmt, p, n / 10);
      DigitizedUnfold(fmt, p + |high|, n / 10);
    }
  }

  /** A number is read as one, whatever it is for. */
  lemma NumberFlag(fmt: Text, args: seq<Arg>, e: Escape, n: nat)
    requires IsString(fmt) && n > 0 && Holds(fmt, e.pos, Digits(n, 10)) && e.pos + |Digits(n, 10)| < |fmt|
    requires !IsDigit(fmt[e.pos + |Digits(n, 10)|])
    ensures Flags(fmt, args, e) == Flags(fmt, args, WithNumber(e.(pos := e.pos + |Digits(n, 10)|), n))
  {
    hide Digits, Flags, Digitized, Flag, IsFlag, IsDigit;
    var d := Digits(n, 10);
    FirstDigit(n, 10);
    DecimalDigits(n);
    assert fmt[e.pos] == fmt[e.pos..e.pos + |d|][0] == d[0];
    DigitFlag(fmt, args, e);
    DigitizedIs(fmt, e.pos, n);
    DigitizedUnfold(fmt, e.pos + |d|, n);
    FlagsUnfold(fmt, args, e);
  }

  lemma DigitFlag(fmt: Text, args: seq<Arg>, e: Escape)
    requires IsString(fmt) && e.pos < |fmt| && IsDigit(fmt[e.pos]) && fmt[e.pos] != ZERO
    ensures IsFlag(fmt[e.pos])
    ensures Flag(fmt, args, e) == WithNumber(e.(pos := Digitized(fmt, e.pos, 0).1), Digitized(fmt, e.pos, 0).0)
  {
    hide Digitized;
  }

  lemma {:induction false} LongFlags(fmt: Text, args: seq<Arg>, e: Escape, k: nat)
    requires IsString(fmt) && Holds(fmt, e.pos, Repeat('l' as int, k)) && e.pos + k < |fmt|
    ensures Flags(fmt, args, e) == Flags(fmt, args, e.(pos := e.pos + k, lflag := e.lflag + k))
    decreases k
  {
    hide Flags, Holds;
    if k > 0 {
      var c := 'l' as int;
      assert Repeat(c, k) == [c] + Repeat(c, k - 1);
      HoldsParts(fmt, e.pos, [c], Repeat(c, k - 1));
      HoldsOne(fmt, e.pos, c);
      FlagsUnfold(fmt, args, e);
      LongFlags(fmt, args, e.(pos := e.pos + 1, lflag := e.lflag + 1), k - 1);
    }
  }

  lemma PadFlag(fmt: Text, args: seq<Arg>, e: Escape, l: Layout)
    requires IsString(fmt) && Proper(l) && Holds(fmt, e.pos, PadText(l)) && e.pos + |PadText(l)| < |fmt| && e.padc == SPACE
    ensures Flags(fmt, args, e) == Flags(fmt, args, e.(pos := e.pos + |PadText(l)|, padc := l.pad))
  {
    hide Flags;
    if l.pad != SPACE {
      HoldsOne(fmt, e.pos, l.pad);
      FlagsUnfold(fmt, args, e);
    }
  }

  lemma WidthFlag(fmt: Text, args: seq<Arg>, e: Escape, l: Layout)
    requires IsString(fmt) && Holds(fmt, e.pos, WidthText(l)) && e.pos + |WidthText(l)| < |fmt|
    requires !IsDigit(fmt[e.pos + |WidthText(l)|]) && e.width == -1 && e.precision == -1
    ensures Flags(fmt, args, e)
         == Flags(fmt, args, e.(pos := e.pos + |WidthText(l)|, width := if l.width > 0 then l.width else -1))
  {
    hide Flags, Digits;
    if l.width > 0 {
      NumberFlag(fmt, args, e, l.width);
    }
  }

  lemma DotFlag(fmt: Text, args: seq<Arg>, e: Escape)
    requires IsString(fmt) && e.pos < |fmt| && fmt[e.pos] == '.' as int
    ensures IsFlag(fmt[e.pos])
    ensures Flag(fmt, args, e) == e.(pos := e.pos + 1, width := if e.width < 0 then 0 else e.width)
  {
  }

  lemma PrecisionFlag(fmt: Text, args: seq<Arg>, e: Escape, l: Layout)
    requires IsString(fmt) && Holds(fmt, e.pos, PrecisionText(l)) && e.pos + |PrecisionText(l)| < |fmt|
    requires !IsDigit(fmt[e.pos + |PrecisionText(l)|])
    requires e.width == (if l.width > 0 then l.width else -1) && e.precision == -1
    ensures Flags(fmt, args, e)
         == Flags(fmt, args, e.(pos := e.pos + |PrecisionText(l)|, width := WidthOf(l), precision := PrecisionOf(l)))
  {
    hide Flags, Digits, Holds, IsDigit, Flag, IsFlag, IsString;
    if l.precision > 0 {
      var dot, digits := ['.' as int], Digits(l.precision, 10);
      HoldsParts(fmt, e.pos, dot, digits);
      HoldsOne(fmt, e.pos, '.' as int);
      FlagsUnfold(fmt, args, e);
      DotFlag(fmt, args, e);
      var e1 := Escape(e.pos + 1, e.arg, e.padc, WidthOf(l), -1, e.lflag, e.altflag);
      assert Flag(fmt, args, e) == e1;
      assert e.pos + |PrecisionText(l)| == e1.pos + |digits|;
      NumberFlag(fmt, args, e1, l.precision);
    }
  }

  lemma AltFlag(fmt: Text, args: seq<Arg>, e: Escape, l: Layout)
    requires IsString(fmt) && Holds(fmt, e.pos, AltText(l)) && e.pos + |AltText(l)| < |fmt| && !e.altflag
    ensures Flags(fmt, args, e) == Flags(fmt, args, e.(pos := e.pos + |AltText(l)|, altflag := l.altflag))
  {
    hide Flags;
    if l.altflag {
      HoldsOne(fmt, e.pos, '#' as int);
      FlagsUnfold(fmt, args, e);
    }
  }

  /** The character behind a part of the flags is no digit. */
  lemma NoDigitNext(fmt: Text, p: nat, l: Layout)
    requires Holds(fmt, p, AltText(l) + Repeat('l' as int, l.longs)) && p + |AltText(l)| + l.longs < |fmt|
    requires !IsFlag(fmt[p + |AltText(l)| + l.longs])
    ensures !IsDigit(fmt[p])
  {
    var t := AltText(l) + Repeat('l' as int, l.longs);
    if |t| > 0 {
      assert fmt[p] == fmt[p..p + |t|][0] == t[0];
    }
  }

  lemma NoDigitAfterWidth(fmt: Text, p: nat, l: Layout)
    requires Holds(fmt, p, PrecisionText(l) + (AltText(l) + Repeat('l' as int, l.longs)))
    requires p + |PrecisionText(l)| + |AltText(l)| + l.longs < |fmt|
    requires !IsFlag(fmt[p + |PrecisionText(l)| + |AltText(l)| + l.longs])
    ensures !IsDigit(fmt[p])
  {
    hide Digits;
    HoldsParts(fmt, p, PrecisionText(l), AltText(l) + Repeat('l' as int, l.longs));
    if l.precision > 0 {
      assert fmt[p] == fmt[p..p + |PrecisionText(l)|][0] == '.' as int;
    } else {
      NoDigitNext(fmt, p, l);
    }
  }

  /** Where the parts of the flags are. */
  lemma FlagPlaces(fmt: Text, p: nat, l: Layout)
    requires Holds(fmt, p, FlagText(l)) && p + |FlagText(l)| < |fmt| && !IsFlag(fmt[p + |FlagText(l)|])
    ensures var p1 := p + |PadText(l)|; var p2 := p1 + |WidthText(l)|; var p3 := p2 + |PrecisionText(l)|; var p4 := p3 + |AltText(l)|;
            && p4 + l.longs == p + |FlagText(l)|
            && Holds(fmt, p, PadText(l)) && Holds(fmt, p1, WidthText(l)) && Holds(fmt, p2, PrecisionText(l))
            && Holds(fmt, p3, AltText(l)) && Holds(fmt, p4, Repeat('l' as int, l.longs))
            && !IsDigit(fmt[p2]) && !IsDigit(fmt[p3])
  {
    hide Holds, IsFlag, IsDigit, PadText, WidthText, PrecisionText, AltText;
    var longs := Repeat('l' as int, l.longs);
    var p1 := p + |PadText(l)|;
    var p2 := p1 + |WidthText(l)|;
    var p3 := p2 + |PrecisionText(l)|;
    HoldsParts(fmt, p, PadText(l), WidthText(l) + (PrecisionText(l) + (AltText(l) + longs)));
    HoldsParts(fmt, p1, WidthText(l), PrecisionText(l) + (AltText(l) + longs));
    HoldsParts(fmt, p2, PrecisionText(l), AltText(l) + longs);
    HoldsParts(fmt, p3, AltText(l), longs);
    NoDigitAfterWidth(fmt, p2, l);
    NoDigitNext(fmt, p3, l);
  }

  /** The flags are read as they are written. */
  lemma FlagsRead(fmt: Text, args: seq<Arg>, p: nat, arg: nat, l: Layout)
    requires IsString(fmt) && Proper(l) && Holds(fmt, p, FlagText(l)) && p + |FlagText(l)| < |fmt|
    requires !IsFlag(fmt[p + |FlagText(l)|])
    ensures Flags(fmt, args, Start(p, arg))
         == Escape(p + |FlagText(l)|, arg, l.pad, WidthOf(l), PrecisionOf(l), l.longs, l.altflag)
  {
    hide Flags, Holds, IsFlag, IsDigit, PadText, WidthText, PrecisionText, AltText, FlagText, WidthOf, PrecisionOf, IsString, Repeat;
    FlagPlaces(fmt, p, l);
    var p2 := p + |PadText(l)| + |WidthText(l)|;
    PadAndWidthRead(fmt, args, p, arg, l);
    RestRead(fmt, args, p2, arg, l);
  }

  lemma PadAndWidthRead(fmt: Text, args: seq<Arg>, p: nat, arg: nat, l: Layout)
    requires IsString(fmt) && Proper(l) && Holds(fmt, p, PadText(l)) && Holds(fmt, p + |PadText(l)|, WidthText(l))
    requires p + |PadText(l)| + |WidthText(l)| < |fmt| && !IsDigit(fmt[p + |PadText(l)| + |WidthText(l)|])
    ensures Flags(fmt, args, Start(p, arg))
         == Flags(fmt, args, Escape(p + |PadText(l)| + |WidthText(l)|, arg, l.pad, if l.width > 0 then l.width else -1, -1, 0, false))
  {
    hide Flags, Holds, IsFlag, IsDigit, PadText, WidthText;
    PadFlag(fmt, args, Start(p, arg), l);
    WidthFlag(fmt, args, Escape(p + |PadText(l)|, arg, l.pad, -1, -1, 0, false), l);
  }

  lemma RestRead(fmt: Text, args: seq<Arg>, p2: nat, arg: nat, l: Layout)
    requires IsString(fmt) && Holds(fmt, p2, PrecisionText(l)) && Holds(fmt, p2 + |PrecisionText(l)|, AltText(l))
    requires var p4 := p2 + |PrecisionText(l)| + |AltText(l)|;
             Holds(fmt, p4, Repeat('l' as int, l.longs)) && p4 + l.longs < |fmt| && !IsFlag(fmt[p4 + l.longs])
    requires !IsDigit(fmt[p2 + |PrecisionText(l)|])
    ensures Flags(fmt, args, Escape(p2, arg, l.pad, if l.width > 0 then l.width else -1, -1, 0, false))
         == Escape(p2 + |PrecisionText(l)| + |AltText(l)| + l.longs, arg, l.pad, WidthOf(l), PrecisionOf(l), l.longs, l.altflag)
  {
    hide Flags, Holds, IsFlag, IsDigit, PrecisionText, AltText, WidthOf, PrecisionOf, Repeat;
    var p3 := p2 + |PrecisionText(l)|;
    var p4 := p3 + |AltText(l)|;
    PrecisionFlag(fmt, args, Escape(p2, arg, l.pad, if l.width > 0 then l.width else -1, -1, 0, false), l);
    AltFlag(fmt, args, Escape(p3, arg, l.pad, WidthOf(l), PrecisionOf(l), 0, false), l);
    LongFlags(fmt, args, Escape(p4, arg, l.pad, WidthOf(l), PrecisionOf(l), 0, l.altflag), l.longs);
    FlagsUnfold(fmt, args, Escape(p4 + l.longs, arg, l.pad, WidthOf(l), PrecisionOf(l), l.longs, l.altflag));
  }

  // ----- what the conversions print

  /** An escape with these flags and this conversion stands at `p`. */
  ghost predicate EscapeAt(fmt: Text, p: nat, l: Layout, c: char) {
    && IsString(fmt) && Proper(l) && p + |FlagText(l)| + 2 < |fmt| && fmt[p] == PERCENT
    && Holds(fmt, p + 1, FlagText(l)) && fmt[p + 1 + |FlagText(l)|] == c as int
  }

  /** The place behind it. */
  function Behind(p: nat, l: Layout): nat {
    p + |FlagText(l)| + 2
  }

  lemma EscapePrinted(fmt: Text, args: seq<Arg>, p: nat, arg: nat, l: Layout, c: char)
    requires EscapeAt(fmt, p, l, c) && IsConversion(c as int)
    ensures Printed(fmt, args, p, arg)
         == Converted(c as int, args, Escape(Behind(p, l) - 1, arg, l.pad, WidthOf(l), PrecisionOf(l), l.longs, l.altflag))
            + Printed(fmt, args, Behind(p, l), if c == '%' then arg else arg + 1)
  {
    ConversionIsNoFlag(c as int);
    hide Flags, Printed, Converted, IsConversion, IsFlag, FlagText, WidthOf, PrecisionOf;
    FlagsRead(fmt, args, p + 1, arg, l);
    PrintedEscape(fmt, args, p, arg, Flags(fmt, args, Start(p + 1, arg)));
  }

  lemma ConversionIsNoFlag(c: int)
    ensures IsConversion(c) ==> !IsFlag(c)
  {
  }

  /** The base of an unsigned conversion. */
  ghost predicate IsBase(c: char, base: nat) {
    (c == 'u' && base == 10) || (c == 'o' && base == 8) || (c == 'x' && base == 16)
  }

  const WORD := 0x1_0000_0000
  const LONG_LONG := 0x1_0000_0000_0000_0000

  /** `%u` prints the argument in base 10, `%o` in base 8 and `%x` in base 16, modulo 2^32 or with
      `ll` modulo 2^64, padded to the width. */
  lemma UnsignedPrinted(fmt: Text, args: seq<Arg>, p: nat, arg: nat, l: Layout, c: char, base: nat, n: int)
    requires EscapeAt(fmt, p, l, c) && IsBase(c, base) && arg < |args| && args[arg] == Num(n)
    ensures Printed(fmt, args, p, arg)
         == Number(n % if l.longs >= 2 then LONG_LONG else WORD, base, WidthOf(l), l.pad)
            + Printed(fmt, args, Behind(p, l), arg + 1)
  {
    hide Printed, Number, FlagText, WidthOf, PrecisionOf, EscapeAt;
    EscapePrinted(fmt, args, p, arg, l, c);
  }

  lemma NothingBehind(fmt: Text, args: seq<Arg>, l: Layout, c: char)
    requires EscapeAt(fmt, 0, l, c) && |fmt| == Behind(0, l) + 1
    ensures Printed(fmt, args, Behind(0, l), 1) == [] && Proper(l) && IsString(fmt)
  {
    PrintedPlain(fmt, args, Behind(0, l), 1);
  }

  lemma WidthIs(l: Layout)
    ensures l.width > 0 ==> WidthOf(l) == l.width
    ensures l.width == 0 ==> WidthOf(l) <= 0
  {
  }

  /** So reading it back in that base gives the argument, as a `long`. */
  lemma UnsignedReadBack(fmt: Text, args: seq<Arg>, l: Layout, c: char, base: nat, n: int)
    requires EscapeAt(fmt, 0, l, c) && |fmt| == Behind(0, l) + 1 && IsBase(c, base) && |args| == 1 && args[0] == Num(n)
    ensures l.pad != MINUS ==>
              var t, v := Printed(fmt, args, 0, 0), n % if l.longs >= 2 then LONG_LONG else WORD;
              && Parsed(t + [0], base) == (Long(v), |t|)
              && |t| == (if l.width > |Digits(v, base)| then l.width else |Digits(v, base)|)
              && forall i :: 0 <= i < |t| - |Digits(v, base)| ==> t[i] == l.pad
  {
    hide Printed, Number, Parsed, Digits, EscapeAt, Behind, Long, WidthOf;
    var v: nat := n % if l.longs >= 2 then LONG_LONG else WORD;
    UnsignedPrinted(fmt, args, 0, 0, l, c, base, n);
    NothingBehind(fmt, args, l, c);
    WidthIs(l);
    assert Printed(fmt, args, 0, 0) == Number(v, base, WidthOf(l), l.pad);
    NumberLength(v, base, WidthOf(l), l.pad);
    NumberText(v, base, WidthOf(l), l.pad);
    if l.pad != MINUS {
      ParseOfPrint(v, base, WidthOf(l), l.pad);
    }
  }

  /** `%d` prints the argument as a signed number of 32 bits, or 64 with `ll`, with the sign in
      front of the padding; `ParseOfSigned` says when it can be read back. */
  lemma SignedPrinted(fmt: Text, args: seq<Arg>, p: nat, arg: nat, l: Layout, n: int)
    requires EscapeAt(fmt, p, l, 'd') && arg < |args| && args[arg] == Num(n)
    requires if l.longs >= 2 then -(LONG_LONG / 2) <= n < LONG_LONG / 2 else -(WORD / 2) <= n < WORD / 2
    ensures Printed(fmt, args, p, arg)
         == (if n < 0 then [MINUS] + Number(-n, 10, WidthOf(l), l.pad) else Number(n, 10, WidthOf(l), l.pad))
            + Printed(fmt, args, Behind(p, l), arg + 1)
  {
    hide Printed, Number, FlagText, WidthOf, PrecisionOf, EscapeAt;
    EscapePrinted(fmt, args, p, arg, l, 'd');
  }

  /** `%p` prints "0x" and the argument in base 16, padded behind that. */
  lemma PointerPrinted(fmt: Text, args: seq<Arg>, p: nat, arg: nat, l: Layout, n: int)
    requires EscapeAt(fmt, p, l, 'p') && arg < |args| && args[arg] == Num(n)
    ensures Printed(fmt, args, p, arg)
         == ['0' as int, 'x' as int] + Number(n % WORD, 16, WidthOf(l), l.pad) + Printed(fmt, args, Behind(p, l), arg + 1)
  {
    hide Printed, Number, FlagText, WidthOf, PrecisionOf, EscapeAt;
    EscapePrinted(fmt, args, p, arg, l, 'p');
    assert Codes("0x") == ['0' as int, 'x' as int];
  }

  /** `%c` prints one character, whatever the flags are. */
  lemma CharPrinted(fmt: Text, args: seq<Arg>, p: nat, arg: nat, l: Layout, n: int)
    requires EscapeAt(fmt, p, l, 'c') && arg < |args| && args[arg] == Num(n) && -(WORD / 2) <= n < WORD / 2
    ensures Printed(fmt, args, p, arg) == [n] + Printed(fmt, args, Behind(p, l), arg + 1)
  {
    hide Printed, Number, FlagText, WidthOf, PrecisionOf, EscapeAt;
    EscapePrinted(fmt, args, p, arg, l, 'c');
  }

  /** `%%` prints one percent sign and takes no argument. */
  lemma PercentPrinted(fmt: Text, args: seq<Arg>, p: nat, arg: nat, l: Layout)
    requires EscapeAt(fmt, p, l, '%')
    ensures Printed(fmt, args, p, arg) == [PERCENT] + Printed(fmt, args, Behind(p, l), arg)
  {
    hide Printed, Number, FlagText, WidthOf, PrecisionOf, EscapeAt;
    EscapePrinted(fmt, args, p, arg, l, '%');
  }

  /** The characters of a string that a precision lets through. */
  function Limit(n: nat, precision: int): nat {
    if 0 <= precision < n then precision else n
  }

  /** `t` is the string `s`, cut to the precision and padded to the width: on the left with the pad
      character, or on the right with blanks if that is a minus sign. */
  ghost predicate IsField(t: Text, s: Text, pad: int, width: int, precision: int, altflag: bool) {
    var n := Limit(|s|, precision);
    && |t| == (if width > n then width else n)
    && var start := if pad == MINUS then 0 else |t| - n;
       && (forall i :: 0 <= i < n ==> t[start + i] == if altflag && !(32 <= s[i] <= 126) then 63 else s[i])
       && forall i :: 0 <= i < |t| && !(start <= i < start + n) ==> t[i] == if pad == MINUS then 32 else pad
  }

  lemma StringTextIsField(s: Text, e: Escape)
    ensures IsField(StringText(s, e), s, e.padc, e.width, e.precision, e.altflag)
  {
    var n := Limit(|s|, e.precision);
    var t := Cut(s, e.precision);
    assert |t| == n && forall i :: 0 <= i < n ==> t[i] == s[i];
    hide Cut;
  }

  /** `%s` prints the string as a field, and "(null)" for a null pointer. */
  lemma StringPrinted(fmt: Text, args: seq<Arg>, p: nat, arg: nat, l: Layout, o: Option<Text>)
    requires EscapeAt(fmt, p, l, 's') && arg < |args| && args[arg] == Str(o)
    ensures var s := if o.Some? then o.value else Codes("(null)");
            exists t :: IsField(t, s, l.pad, WidthOf(l), PrecisionOf(l), l.altflag)
              && Printed(fmt, args, p, arg) == t + Printed(fmt, args, Behind(p, l), arg + 1)
  {
    hide Printed, FlagText, WidthOf, PrecisionOf, EscapeAt, StringText, IsField, Codes;
    EscapePrinted(fmt, args, p, arg, l, 's');
    var s := if o.Some? then o.value else Codes("(null)");
    var e := Escape(Behind(p, l) - 1, arg, l.pad, WidthOf(l), PrecisionOf(l), l.longs, l.altflag);
    StringTextIsField(s, e);
    assert Converted('s' as int, args, e) == StringText(s, e);
  }

  /** `%e` prints the text of an error code, of either sign, and other numbers as such. */
  lemma ErrorPrinted(fmt: Text, args: seq<Arg>, p: nat, arg: nat, l: Layout, n: int)
    requires EscapeAt(fmt, p, l, 'e') && arg < |args| && args[arg] == Num(n) && -(WORD / 2) < n < WORD / 2
    ensures var t := match if n < 0 then -n else n
              case 1 => Codes("unspecified error")
              case 2 => Codes("bad environment")
              case 3 => Codes("invalid parameter")
              case 4 => Codes("out of memory")
              case 5 => Codes("out of environments")
              case 6 => Codes("segmentation fault")
              case k => Codes("error ") + Digits(k, 10);
            Printed(fmt, args, p, arg) == t + Printed(fmt, args, Behind(p, l), arg + 1)
  {
    hide Printed, FlagText, WidthOf, PrecisionOf, EscapeAt, Codes, Digits;
    EscapePrinted(fmt, args, p, arg, l, 'e');
    var k := if n < 0 then -n else n;
    assert Number(k, 10, -1, SPACE) == Digits(k, 10);
  }

  // ----- stars, and a precision of 0

  /** `%*` takes the width from an argument of its own. */
  lemma StarWidthPrinted(fmt: Text, args: seq<Arg>, p: nat, arg: nat, c: char, base: nat, w: int, n: int)
    requires IsString(fmt) && p + 3 < |fmt| && fmt[p] == PERCENT && fmt[p + 1] == '*' as int && fmt[p + 2] == c as int
    requires IsBase(c, base) && arg + 1 < |args| && args[arg] == Num(w) && args[arg + 1] == Num(n) && -(WORD / 2) <= w < WORD / 2
    ensures Printed(fmt, args, p, arg) == Number(n % WORD, base, w, SPACE) + Printed(fmt, args, p + 3, arg + 2)
  {
    hide Printed, Flags, Number;
    var e := Start(p + 1, arg);
    FlagsUnfold(fmt, args, e);
    FlagsUnfold(fmt, args, Escape(p + 2, arg + 1, SPACE, w, -1, 0, false));
    PrintedEscape(fmt, args, p, arg, Escape(p + 2, arg + 1, SPACE, w, -1, 0, false));
  }

  /** Without a width a string is not padded. */
  lemma PlainField(s: Text, e: Escape)
    requires e.width <= 0 && e.padc != MINUS && !e.altflag
    ensures StringText(s, e) == s[..Limit(|s|, e.precision)]
  {
    assert Shown(Cut(s, e.precision), false) == s[..Limit(|s|, e.precision)];
  }

  /** `%.*` takes the precision. */
  lemma StarPrecisionPrinted(fmt: Text, args: seq<Arg>, p: nat, arg: nat, k: int, s: Text)
    requires IsString(fmt) && p + 4 < |fmt| && fmt[p] == PERCENT && fmt[p + 1] == '.' as int && fmt[p + 2] == '*' as int
    requires fmt[p + 3] == 's' as int
    requires arg + 1 < |args| && args[arg] == Num(k) && args[arg + 1] == Str(Some(s)) && -(WORD / 2) <= k < WORD / 2
    ensures Printed(fmt, args, p, arg) == s[..Limit(|s|, k)] + Printed(fmt, args, p + 4, arg + 2)
  {
    hide Printed, Flags, StringText;
    var e := Escape(p + 3, arg + 1, SPACE, 0, k, 0, false);
    FlagsUnfold(fmt, args, Start(p + 1, arg));
    FlagsUnfold(fmt, args, Escape(p + 2, arg, SPACE, 0, -1, 0, false));
    FlagsUnfold(fmt, args, e);
    PrintedEscape(fmt, args, p, arg, e);
    PlainField(s, e);
  }

  /** In `%.0s` the 0 is the flag, so that there is no precision and the whole string is printed. */
  lemma ZeroPrecisionPrinted(fmt: Text, args: seq<Arg>, p: nat, arg: nat, s: Text)
    requires IsString(fmt) && p + 4 < |fmt| && fmt[p] == PERCENT && fmt[p + 1] == '.' as int && fmt[p + 2] == '0' as int
    requires fmt[p + 3] == 's' as int && arg < |args| && args[arg] == Str(Some(s))
    ensures Printed(fmt, args, p, arg) == s + Printed(fmt, args, p + 4, arg + 1)
  {
    hide Printed, Flags, StringText;
    var e := Escape(p + 3, arg, ZERO, 0, -1, 0, false);
    FlagsUnfold(fmt, args, Start(p + 1, arg));
    FlagsUnfold(fmt, args, Escape(p + 2, arg, SPACE, 0, -1, 0, false));
    FlagsUnfold(fmt, args, e);
    PrintedEscape(fmt, args, p, arg, e);
    PlainField(s, e);
  }
}
