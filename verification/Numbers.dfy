/** Numbers as text: `printnum` of lib/printfmt.c and `strtol` of lib/string.c. Text is a
    sequence of character codes. */
module Numbers {

  type Text = seq<int>

  /** The characters of a literal. */
  function Codes(s: string): (t: Text)
    ensures |t| == |s| && forall i :: 0 <= i < |s| ==> t[i] == s[i] as int
  {
    seq(|s|, i requires 0 <= i < |s| => s[i] as int)
  }

  // ----- printing

  /** `"0123456789abcdef"[d]` */
  function DigitCode(d: nat): (c: int)
    requires d < 16
    ensures c != 0
  {
    if d < 10 then '0' as int + d else 'a' as int + (d - 10)
  }

  /** The digits of a number, the most significant one first. */
  function Digits(num: nat, base: nat): (t: Text)
    requires 2 <= base <= 16
    ensures |t| >= 1
  {
    if num < base then [DigitCode(num)] else Digits(num / base, base) + [DigitCode(num % base)]
  }

  function Repeat(c: int, n: int): (t: Text)
    ensures |t| == (if n < 0 then 0 else n) && forall i :: 0 <= i < |t| ==> t[i] == c
  {
    if n <= 0 then [] else seq(n, i => c)
  }

  /** What `printnum` prints. */
  function Number(num: nat, base: nat, width: int, padc: int): (t: Text)
    requires 2 <= base <= 16
  {
    Repeat(padc, width - |Digits(num, base)|) + Digits(num, base)
  }

  /** As long as the width asks for, or as the digits need. */
  lemma NumberLength(num: nat, base: nat, width: int, padc: int)
    requires 2 <= base <= 16
    ensures |Number(num, base, width, padc)| == if width > |Digits(num, base)| then width else |Digits(num, base)|
  {
  }

  /** Padding in front, and the digits at the end. */
  lemma NumberText(num: nat, base: nat, width: int, padc: int)
    requires 2 <= base <= 16
    ensures var t, n := Number(num, base, width, padc), |Digits(num, base)|;
            && |t| >= n && t[|t| - n..] == Digits(num, base)
            && forall i :: 0 <= i < |t| - n ==> t[i] == padc
  {
  }

  /** The digits are the lower-case ones. */
  lemma DigitCodes(d: nat)
    requires d < 16
    ensures DigitCode(d) == "0123456789abcdef"[d] as int
  {
  }

  // ----- parsing

  /** A `long` of 32 bits: nothing detects overflow. */
  function Long(x: int): (r: int)
    ensures -0x8000_0000 <= r < 0x8000_0000
    ensures -0x8000_0000 <= x < 0x8000_0000 ==> r == x
  {
    (x + 0x8000_0000) % 0x1_0000_0000 - 0x8000_0000
  }

  /** The value of a character as a digit; 36 if it is none. */
  function DigitValue(c: int): (d: nat)
    ensures d <= 36
  {
    if '0' as int <= c <= '9' as int then c - '0' as int
    else if 'a' as int <= c <= 'z' as int then c - 'a' as int + 10
    else if 'A' as int <= c <= 'Z' as int then c - 'A' as int + 10
    else 36
  }

  predicate Terminated(s: Text) {
    |s| > 0 && s[|s| - 1] == 0
  }

  /** The end of the blanks from `p` on. */
  function AfterBlanks(s: Text, p: nat): (q: nat)
    requires Terminated(s) && p < |s|
    ensures p <= q < |s|
    decreases |s| - p
  {
    if s[p] == ' ' as int || s[p] == '\t' as int then AfterBlanks(s, p + 1) else p
  }

  /** The digits from `p` on, added to `val`: the value and the place behind them. */
  function Accumulated(s: Text, p: nat, base: nat, val: int): (r: (int, nat))
    requires Terminated(s) && p < |s| && base <= 36
    ensures p <= r.1 < |s|
    decreases |s| - p
  {
    var d := DigitValue(s[p]);
    if d >= base then (val, p) else Accumulated(s, p + 1, base, Long(val * base + d))
  }

  /** The base and the place behind its prefix. */
  function Prefixed(s: Text, p: nat, base: nat): (r: (nat, nat))
    requires Terminated(s) && p < |s| && base <= 36
    ensures p <= r.1 < |s| && r.0 <= 36
  {
    if (base == 0 || base == 16) && s[p] == '0' as int && s[p + 1] == 'x' as int then (16, p + 2)
    else if base == 0 && s[p] == '0' as int then (8, p + 1)
    else if base == 0 then (10, p)
    else (base, p)
  }

  predicate Signed(s: Text, p: nat)
    requires p < |s|
  {
    s[p] == '+' as int || s[p] == '-' as int
  }

  /** `strtol`: the value and the end. */
  function Parsed(s: Text, base: nat): (int, nat)
    requires Terminated(s) && base <= 36
  {
    var p := AfterBlanks(s, 0);
    var (b, q) := Prefixed(s, if Signed(s, p) then p + 1 else p, base);
    var (val, end) := Accumulated(s, q, b, 0);
    (if s[p] == '-' as int then Long(-val) else val, end)
  }

  /** The digit loop of `strtol`. */
  method AccumulateDigits(s: Text, start: nat, base: nat) returns (val: int, p: nat)
    requires Terminated(s) && start < |s| && base <= 36
    ensures (val, p) == Accumulated(s, start, base, 0)
  {
    p, val := start, 0;
    while true
      invariant start <= p < |s|
      invariant Accumulated(s, p, base, val) == Accumulated(s, start, base, 0)
      decreases |s| - p
    {
      var dig := DigitValue(s[p]);
      if dig >= base {
        break;
      }
      p := p + 1;
      val := Long(val * base + dig);
    }
  }

  /** `strtol` */
  method Strtol(s: Text, base: nat) returns (val: int, end: nat)
    requires Terminated(s) && base <= 36
    ensures (val, end) == Parsed(s, base)
  {
    var p := 0;
    while s[p] == ' ' as int || s[p] == '\t' as int
      invariant 0 <= p < |s| && AfterBlanks(s, p) == AfterBlanks(s, 0)
      decreases |s| - p
    {
      p := p + 1;
    }
    var neg := s[p] == '-' as int;
    if s[p] == '+' as int || s[p] == '-' as int {
      p := p + 1;
    }
    ghost var q := p;
    var b := base;
    if (base == 0 || base == 16) && s[p] == '0' as int && s[p + 1] == 'x' as int {
      p, b := p + 2, 16;
    } else if base == 0 && s[p] == '0' as int {
      p, b := p + 1, 8;
    } else if base == 0 {
      b := 10;
    }
    assert (b, p) == Prefixed(s, q, base);
    val, end := AccumulateDigits(s, p, b);
    if neg {
      val := Long(-val);
    }
  }

  // ----- printing, then parsing

  const SPACE: int := ' ' as int
  const ZERO: int := '0' as int
  const MINUS: int := '-' as int

  /** The text has `t` at `p`. */
  ghost predicate Holds(s: Text, p: nat, t: Text) {
    p + |t| <= |s| && s[p..p + |t|] == t
  }

  lemma DigitCodeValue(d: nat)
    requires d < 16
    ensures DigitValue(DigitCode(d)) == d
  {
  }

  /** Zeros in front do not change the value. */
  lemma {:induction false} ZerosAccumulate(s: Text, p: nat, base: nat, n: nat)
    requires Terminated(s) && 2 <= base <= 36 && p + n < |s| && forall i :: p <= i < p + n ==> s[i] == ZERO
    ensures Accumulated(s, p, base, 0) == Accumulated(s, p + n, base, 0)
    decreases n
  {
    if n > 0 {
      ZerosAccumulate(s, p + 1, base, n - 1);
    }
  }

  /** Wrapping early or late makes no difference. */
  lemma LongStep(val: int, base: nat, d: nat)
    ensures Long(Long(val) * base + d) == Long(val * base + d)
  {
    var k := (val + 0x8000_0000) / 0x1_0000_0000;
    assert Long(val) == val - k * 0x1_0000_0000;
    assert (val - k * 0x1_0000_0000) * base == val * base - k * base * 0x1_0000_0000;
    LongWraps(val * base + d, -(k * base));
  }

  lemma LongWraps(x: int, k: int)
    ensures Long(x + k * 0x1_0000_0000) == Long(x)
  {
  }

  lemma LongZero()
    ensures Long(0) == 0
  {
  }

  lemma LongNegated(x: int)
    ensures Long(-Long(x)) == Long(-x)
  {
    var k := (x + 0x8000_0000) / 0x1_0000_0000;
    assert Long(x) == x - k * 0x1_0000_0000;
    LongWraps(-x, k);
  }

  /** One more digit. */
  lemma DigitAccumulates(s: Text, p: nat, base: nat, val: nat, d: nat)
    requires Terminated(s) && 2 <= base <= 16 && d < base && p + 1 < |s| && s[p] == DigitCode(d)
    ensures Accumulated(s, p, base, Long(val)) == Accumulated(s, p + 1, base, Long(val * base + d))
  {
    DigitCodeValue(d);
    LongStep(val, base, d);
    hide Long;
    UnfoldDigit(s, p, base, Long(val));
  }

  lemma UnfoldDigit(s: Text, p: nat, base: nat, val: int)
    requires Terminated(s) && p < |s| && base <= 36 && DigitValue(s[p]) < base
    ensures p + 1 < |s|
    ensures Accumulated(s, p, base, val) == Accumulated(s, p + 1, base, Long(val * base + DigitValue(s[p])))
  {
  }

  /** The digits of a number add up to it, as a `long`. */
  lemma {:induction false} DigitsAccumulate(s: Text, p: nat, base: nat, num: nat)
    requires Terminated(s) && 2 <= base <= 16
    requires Holds(s, p, Digits(num, base)) && p + |Digits(num, base)| < |s|
    ensures Accumulated(s, p, base, 0) == Accumulated(s, p + |Digits(num, base)|, base, Long(num))
    decreases num
  {
    hide Digits, Accumulated, Holds, Long, Terminated, DigitCode;
    DigitsUnfold(num, base);
    LastDigit(num, base);
    LongZero();
    if num < base {
      assert [] + [DigitCode(num)] == [DigitCode(num)];
      HoldsSplit(s, p, [], DigitCode(num));
      DigitAccumulates(s, p, base, 0, num);
    } else {
      var high := Digits(num / base, base);
      HoldsSplit(s, p, high, DigitCode(num % base));
      DigitsAccumulate(s, p, base, num / base);
      DigitAccumulates(s, p + |high|, base, num / base, num % base);
    }
  }

  lemma HoldsSplit(s: Text, p: nat, t: Text, c: int)
    requires Holds(s, p, t + [c])
    ensures p + |t| < |s| && Holds(s, p, t) && s[p + |t|] == c
  {
    var r := s[p..p + |t| + 1];
    assert r == t + [c];
    assert s[p..p + |t|] == r[..|t|] == t;
    assert s[p + |t|] == r[|t|];
  }

  lemma DigitsUnfold(num: nat, base: nat)
    requires 2 <= base <= 16
    ensures num < base ==> Digits(num, base) == [DigitCode(num)]
    ensures num >= base ==> Digits(num, base) == Digits(num / base, base) + [DigitCode(num % base)]
  {
  }

  lemma LastDigit(num: nat, base: nat)
    requires base >= 2
    ensures num / base * base + num % base == num
    ensures num > 0 ==> num / base < num
  {
    var q := num / base;
    assert num == base * q + num % base;
    assert base * q == 2 * q + (base - 2) * q;
  }

  /** No digit is a blank, a sign or the letter of a prefix. */
  lemma {:induction false} DigitsAreDigits(num: nat, base: nat)
    requires 2 <= base <= 16
    ensures forall i :: 0 <= i < |Digits(num, base)| ==> DigitValue(Digits(num, base)[i]) < base
    decreases num
  {
    DigitCodeValue(num % base);
    if num >= base {
      LastDigit(num, base);
      DigitsAreDigits(num / base, base);
    }
  }

  /** Zeros and digits at `p`, up to the end of the text, have the value of the number. */
  lemma NumberAccumulates(s: Text, p: nat, base: nat, num: nat, zeros: nat)
    requires Terminated(s) && 2 <= base <= 16
    requires |s| == p + zeros + |Digits(num, base)| + 1
    requires (forall i :: p <= i < p + zeros ==> s[i] == ZERO) && Holds(s, p + zeros, Digits(num, base))
    ensures Accumulated(s, p, base, 0) == (Long(num), |s| - 1)
  {
    hide Digits, Accumulated, Long, Holds;
    EndOfDigits(s, |s| - 1, base, Long(num));
    ZerosAccumulate(s, p, base, zeros);
    DigitsAccumulate(s, p + zeros, base, num);
  }

  lemma EndOfDigits(s: Text, p: nat, base: nat, val: int)
    requires Terminated(s) && 2 <= base <= 36 && p == |s| - 1
    ensures Accumulated(s, p, base, val) == (val, p)
  {
  }

  /** The end of the blanks in front of something else. */
  lemma {:induction false} BlanksSkipped(s: Text, p: nat, n: nat)
    requires Terminated(s) && p + n < |s| && (forall i :: p <= i < p + n ==> s[i] == SPACE)
    requires s[p + n] != SPACE && s[p + n] != '\t' as int
    ensures AfterBlanks(s, p) == p + n
    decreases n
  {
    if n > 0 {
      BlanksSkipped(s, p + 1, n - 1);
    }
  }

  /** What a number looks like in a text that holds it from `p` to its end. */
  lemma NumberInText(s: Text, p: nat, num: nat, base: nat, width: int, padc: int)
    requires 2 <= base <= 16 && p <= |s| && s[p..] == Number(num, base, width, padc) + [0]
    ensures var pads := |Repeat(padc, width - |Digits(num, base)|)|;
            && |s| == p + pads + |Digits(num, base)| + 1 && Terminated(s)
            && (forall i :: p <= i < p + pads ==> s[i] == padc)
            && Holds(s, p + pads, Digits(num, base))
            && forall i :: p + pads <= i < |s| - 1 ==> DigitValue(s[i]) < base
  {
    hide Digits, DigitValue;
    DigitsAreDigits(num, base);
    var t, r := Digits(num, base), s[p..];
    var pads := |Repeat(padc, width - |t|)|;
    assert forall i :: p <= i < |s| ==> s[i] == r[i - p];
    assert s[p + pads..p + pads + |t|] == r[pads..pads + |t|] == t;
    assert s[|s| - 1] == r[|r| - 1];
  }

  /** A digit is no blank and no sign, and no prefix starts with it and another digit. */
  lemma DigitIsPlain(s: Text, p: nat, base: nat)
    requires p < |s| && base <= 16 && DigitValue(s[p]) < base
    ensures s[p] != SPACE && s[p] != '\t' as int && !Signed(s, p) && s[p] != 'x' as int && s[p] != 0
  {
  }

  lemma NoPrefix(s: Text, p: nat, base: nat)
    requires Terminated(s) && p < |s| - 1 && 2 <= base <= 16
    requires p + 1 < |s| - 1 ==> s[p + 1] != 'x' as int
    ensures Prefixed(s, p, base) == (base, p)
  {
  }

  /** Zeros and digits at `p` are parsed as the number, without sign or prefix. */
  lemma NumberParsedAt(s: Text, p: nat, num: nat, base: nat, zeros: nat)
    requires Terminated(s) && 8 <= base <= 16
    requires |s| == p + zeros + |Digits(num, base)| + 1
    requires (forall i :: p <= i < p + zeros ==> s[i] == ZERO) && Holds(s, p + zeros, Digits(num, base))
    ensures Prefixed(s, p, base) == (base, p) && Accumulated(s, p, base, 0) == (Long(num), |s| - 1)
    ensures s[p] != SPACE && s[p] != '\t' as int && !Signed(s, p)
  {
    NumberAccumulates(s, p, base, num, zeros);
    DigitsAreDigits(num, base);
    hide Digits, Accumulated;
    var t := Digits(num, base);
    forall i | p <= i < |s| - 1 ensures DigitValue(s[i]) < base {
      assert i >= p + zeros ==> s[i] == s[p + zeros..p + zeros + |t|][i - p - zeros] == t[i - p - zeros];
    }
    hide DigitValue;
    DigitIsPlain(s, p, base);
    if p + 1 < |s| - 1 {
      DigitIsPlain(s, p + 1, base);
    }
    NoPrefix(s, p, base);
  }

  /** Printing a number in base 8, 10 or 16 with spaces or zeros in front, and parsing the
      text in that base, reads the whole text and gives the number as a `long`: the number
      itself exactly when it is one. */
  lemma ParseOfPrint(num: nat, base: nat, width: int, padc: int)
    requires base in {8, 10, 16} && padc in {SPACE, ZERO}
    ensures var s := Number(num, base, width, padc) + [0];
            && Terminated(s) && Parsed(s, base) == (Long(num), |s| - 1)
            && (Parsed(s, base).0 == num <==> num < 0x8000_0000)
  {
    var s := Number(num, base, width, padc) + [0];
    NumberInText(s, 0, num, base, width, padc);
    hide Digits, Number, Accumulated, AfterBlanks, DigitValue, Prefixed;
    var pads := |Repeat(padc, width - |Digits(num, base)|)|;
    var start := if padc == SPACE then pads else 0;
    NumberParsedAt(s, start, num, base, pads - start);
    BlanksSkipped(s, 0, start);
  }

  /** What `%d` prints for a negative number: the sign comes before the padding. */
  function Negative(num: nat, width: int, padc: int): Text {
    [MINUS] + Number(num, 10, width, padc)
  }

  /** A printed negative number is recovered exactly when it is a `long` and no space falls
      behind the sign. */
  lemma ParseOfNegative(num: nat, width: int, padc: int)
    requires 0 < num && padc in {SPACE, ZERO}
    ensures var s := Negative(num, width, padc) + [0];
            Terminated(s) && (Parsed(s, 10).0 == -(num as int) <==>
                                num <= 0x8000_0000 && (padc == ZERO || width <= |Digits(num, 10)|))
  {
    hide Digits, Number, Accumulated, AfterBlanks, DigitValue, Prefixed;
    LongNegated(num);
    var s := Negative(num, width, padc) + [0];
    assert s[1..] == Number(num, 10, width, padc) + [0];
    NumberInText(s, 1, num, 10, width, padc);
    var pads := |Repeat(padc, width - |Digits(num, 10)|)|;
    BlanksSkipped(s, 0, 0);
    if padc == ZERO || pads == 0 {
      NumberParsedAt(s, 1, num, 10, pads);
    } else {
      assert s[1] == SPACE;
      NoPrefixTen(s, 1);
      SpaceStops(s, 1, 10);
    }
  }

  lemma NoPrefixTen(s: Text, p: nat)
    requires Terminated(s) && p < |s|
    ensures Prefixed(s, p, 10) == (10, p)
  {
  }

  lemma SpaceStops(s: Text, p: nat, base: nat)
    requires Terminated(s) && p < |s| && s[p] == SPACE && base <= 36
    ensures Accumulated(s, p, base, 0) == (0, p)
  {
  }

  // ----- the other forms that strtol reads

  const TAB: int := '\t' as int
  const PLUS: int := '+' as int

  /** The digits of a number, some of the letters in upper case. */
  ghost predicate IsNumber(t: Text, num: nat, base: nat)
    requires 2 <= base <= 16
  {
    && |t| == |Digits(num, base)|
    && forall i :: 0 <= i < |t| ==>
         t[i] == Digits(num, base)[i] || ('a' as int <= Digits(num, base)[i] <= 'f' as int && t[i] == Digits(num, base)[i] - 32)
  }

  lemma UpperValue(c: int, d: int)
    requires c == d || ('a' as int <= d <= 'f' as int && c == d - 32)
    ensures DigitValue(c) == DigitValue(d)
  {
  }

  /** Only the values of the characters matter. */
  lemma {:induction false} SameValues(s: Text, t: Text, p: nat, base: nat, val: int)
    requires Terminated(s) && Terminated(t) && |s| == |t| && p < |s| && base <= 36
    requires forall i :: p <= i < |s| ==> DigitValue(s[i]) == DigitValue(t[i])
    ensures Accumulated(s, p, base, val) == Accumulated(t, p, base, val)
    decreases |s| - p
  {
    hide DigitValue;
    if DigitValue(s[p]) < base {
      EndIsNoDigit(s, base);
      SameValues(s, t, p + 1, base, Long(val * base + DigitValue(s[p])));
    }
  }

  lemma EndIsNoDigit(s: Text, base: nat)
    requires Terminated(s) && base <= 36
    ensures DigitValue(s[|s| - 1]) >= base
  {
  }

  /** The character is no digit of the base, in lower or upper case. */
  ghost predicate StopsNumber(c: int, base: nat)
    requires base <= 16
  {
    forall d: nat :: d < base ==> c != DigitCode(d) && (d >= 10 ==> c != DigitCode(d) - 32)
  }

  lemma CodeOfValue(c: int)
    ensures var d := DigitValue(c); d < 16 ==> c == DigitCode(d) || (d >= 10 && c == DigitCode(d) - 32)
  {
  }

  lemma StopValue(c: int, base: nat)
    requires 2 <= base <= 16 && StopsNumber(c, base)
    ensures DigitValue(c) >= base
  {
    CodeOfValue(c);
  }

  lemma UnfoldStop(s: Text, p: nat, base: nat, val: int)
    requires Terminated(s) && p < |s| && base <= 36 && DigitValue(s[p]) >= base
    ensures Accumulated(s, p, base, val) == (val, p)
  {
  }

  /** Digits up to a character that is none have the value of the number. */
  lemma NumberReadAt(s: Text, p: nat, digits: Text, num: nat, base: nat)
    requires Terminated(s) && 2 <= base <= 16 && p + |digits| < |s|
    requires Holds(s, p, digits) && IsNumber(digits, num, base) && StopsNumber(s[p + |digits|], base)
    ensures Accumulated(s, p, base, 0) == (Long(num), p + |digits|)
    ensures forall i :: p <= i < p + |digits| ==> DigitValue(s[i]) < base
  {
    hide Digits, Accumulated, Long, StopsNumber, DigitValue, IsNumber;
    var d, q := Digits(num, base), p + |digits|;
    var t := s[..p] + d + s[q..];
    StopValue(s[q], base);
    NumberValues(digits, num, base);
    forall i | p <= i < |s| ensures DigitValue(s[i]) == DigitValue(t[i]) && (i < q ==> DigitValue(s[i]) < base) {
      if i < q {
        assert s[i] == s[p..q][i - p] == digits[i - p] && t[i] == d[i - p];
      }
    }
    SameValues(s, t, p, base, 0);
    assert t[p..p + |d|] == d && t[q] == s[q];
    DigitsAccumulate(t, p, base, num);
    UnfoldStop(t, q, base, Long(num));
  }

  lemma NumberValues(t: Text, num: nat, base: nat)
    requires 2 <= base <= 16 && IsNumber(t, num, base)
    ensures |t| == |Digits(num, base)|
    ensures forall i :: 0 <= i < |t| ==> DigitValue(t[i]) == DigitValue(Digits(num, base)[i]) < base
  {
    hide Digits;
    DigitsAreDigits(num, base);
    forall i | 0 <= i < |t| ensures DigitValue(t[i]) == DigitValue(Digits(num, base)[i]) {
      UpperValue(t[i], Digits(num, base)[i]);
    }
  }

  /** What stands in front of the digits: the base given, the base meant, and the prefix. */
  ghost predicate IsPrefix(base: nat, prefix: Text, b: nat, num: nat) {
    || (base in {0, 16} && b == 16 && prefix == Codes("0x"))
    || (base == 0 && b == 8 && prefix == Codes("0"))
    || (base == 0 && b == 10 && prefix == [] && num > 0)
    || (2 <= base == b <= 16 && prefix == [])
  }

  lemma {:induction false} FirstDigit(num: nat, base: nat)
    requires 2 <= base <= 16 && num > 0
    ensures Digits(num, base)[0] != ZERO
    decreases num
  {
    if num >= base {
      LastDigit(num, base);
      FirstDigit(num / base, base);
    }
  }

  /** The prefix is recognised, and only as far as it goes. */
  lemma PrefixRead(s: Text, p: nat, base: nat, prefix: Text, digits: Text, b: nat, num: nat)
    requires IsPrefix(base, prefix, b, num) && Terminated(s) && p + |prefix| + |digits| < |s|
    requires Holds(s, p, prefix) && Holds(s, p + |prefix|, digits) && IsNumber(digits, num, b)
    requires forall i :: p + |prefix| <= i < p + |prefix| + |digits| ==> DigitValue(s[i]) < b
    requires prefix == [] && |digits| == 1 && digits[0] == ZERO ==> s[p + 1] != 'x' as int
    ensures Prefixed(s, p, base) == (b, p + |prefix|)
    ensures s[p] != SPACE && s[p] != TAB && !Signed(s, p)
  {
    var q := p + |prefix|;
    IsNumberNotEmpty(digits, num, b);
    hide Digits, IsNumber;
    if |prefix| > 0 {
      assert s[p] == s[p..q][0] == prefix[0];
    }
    if |prefix| > 1 {
      assert s[p + 1] == s[p..q][1] == prefix[1];
    }
    assert s[q] == s[q..q + |digits|][0];
    if prefix == [] && base == 0 {
      NotZeroFirst(digits, num, 10);
    }
  }

  lemma NotZeroFirst(digits: Text, num: nat, base: nat)
    requires 2 <= base <= 16 && num > 0 && IsNumber(digits, num, base)
    ensures |digits| > 0 && digits[0] != ZERO
  {
    FirstDigit(num, base);
    hide Digits;
  }

  lemma IsNumberNotEmpty(t: Text, num: nat, base: nat)
    requires 2 <= base <= 16 && IsNumber(t, num, base)
    ensures |t| > 0
  {
  }

  lemma {:induction false} BlanksRead(s: Text, p: nat, q: nat)
    requires Terminated(s) && p <= q < |s| && (forall i :: p <= i < q ==> s[i] == SPACE || s[i] == TAB)
    requires s[q] != SPACE && s[q] != TAB
    ensures AfterBlanks(s, p) == q
    decreases q - p
  {
    if p < q {
      BlanksRead(s, p + 1, q);
    }
  }

  /** The parts of a text, by their places. */
  lemma FormParts(blanks: Text, sign: Text, prefix: Text, digits: Text, rest: Text)
    requires Terminated(rest)
    ensures var s := blanks + sign + prefix + digits + rest;
            var p := |blanks|; var q := p + |sign|; var d := q + |prefix|;
            && Terminated(s) && d + |digits| < |s| && s[d + |digits|] == rest[0]
            && Holds(s, q, prefix) && Holds(s, d, digits)
            && (|sign| > 0 ==> s[p] == sign[0])
            && forall i :: 0 <= i < p ==> s[i] == blanks[i]
  {
    var s := blanks + sign + prefix + digits + rest;
    var q := |blanks| + |sign|;
    assert s[q..q + |prefix|] == prefix;
    assert s[q + |prefix|..q + |prefix| + |digits|] == digits;
  }

  /** Blanks and tabs, a sign or none, a prefix that fits the base, and digits in lower or upper
      case are read as the number that they say, up to the first character that is no digit of
      the base. */
  lemma ParseOfForm(blanks: Text, sign: Text, prefix: Text, digits: Text, rest: Text, base: nat, b: nat, num: nat)
    requires forall i :: 0 <= i < |blanks| ==> blanks[i] == SPACE || blanks[i] == TAB
    requires sign in {[], [PLUS], [MINUS]}
    requires IsPrefix(base, prefix, b, num) && base <= 16 && 2 <= b <= 16 && IsNumber(digits, num, b)
    requires Terminated(rest) && StopsNumber(rest[0], b) && (num == 0 && prefix == [] ==> rest[0] != 'x' as int)
    ensures var s := blanks + sign + prefix + digits + rest;
            Terminated(s) && Parsed(s, base) == (if sign == [MINUS] then Long(-(num as int)) else Long(num), |s| - |rest|)
  {
    hide Digits, IsNumber, Accumulated, AfterBlanks, Prefixed, DigitValue, IsPrefix, Holds, StopsNumber;
    FormParts(blanks, sign, prefix, digits, rest);
    IsNumberNotEmpty(digits, num, b);
    var s := blanks + sign + prefix + digits + rest;
    var p, q := |blanks|, |blanks| + |sign|;
    NumberReadAt(s, q + |prefix|, digits, num, b);
    if num > 0 {
      NotZeroFirst(digits, num, b);
    }
    PrefixRead(s, q, base, prefix, digits, b, num);
    BlanksRead(s, 0, p);
    LongNegated(num);
  }
}
