/** ParseFixedPoint: decimal numbers in JSON syntax, as integers scaled by a power of ten. */
module FixedPoint {
  import opened Arith
  import opened Wrappers

  /** 10^18 - 1 */
  const UPPER_BOUND := 999_999_999_999_999_999
  const INT64_MAX := 0x7fff_ffff_ffff_ffff
  const INT32_MAX := 0x7fff_ffff

  // ---------- digits ----------

  predicate IsDigit(ch: char) {
    '0' <= ch <= '9'
  }

  function Digit(ch: char): (d: nat)
    requires IsDigit(ch)
    ensures d < 10 && "0123456789"[d] == ch
  {
    DigitChar(ch as int - '0' as int);
    ch as int - '0' as int
  }

  lemma DigitChar(d: nat)
    requires d < 10
    ensures "0123456789"[d] == ('0' as int + d) as char
  {
  }

  predicate AllDigits(s: string) {
    forall i :: 0 <= i < |s| ==> IsDigit(s[i])
  }

  function Value(digits: string): nat
    requires AllDigits(digits)
  {
    if digits == "" then 0 else 10 * Value(digits[..|digits| - 1]) + Digit(digits[|digits| - 1])
  }

  function Pow10(k: nat): (p: nat)
    ensures p >= 1
  {
    if k == 0 then 1 else 10 * Pow10(k - 1)
  }

  lemma {:induction false} Pow10Add(a: nat, b: nat)
    ensures Pow10(a + b) == Pow10(a) * Pow10(b)
  {
    if a > 0 {
      Pow10Add(a - 1, b);
      assert 10 * (Pow10(a - 1) * Pow10(b)) == (10 * Pow10(a - 1)) * Pow10(b);
    }
  }

  lemma {:induction false} ValueConcat(a: string, b: string)
    requires AllDigits(a) && AllDigits(b)
    ensures AllDigits(a + b) && Value(a + b) == Value(a) * Pow10(|b|) + Value(b) && Value(b) < Pow10(|b|)
  {
    if b == "" {
      assert a + b == a;
    } else {
      var init, last := b[..|b| - 1], b[|b| - 1];
      ValueConcat(a, init);
      assert Pow10(|b|) == 10 * Pow10(|init|);
      hide Value, Pow10;
      assert b == init + [last] && a + b == (a + init) + [last];
      NextDigit(a + init, last);
      NextDigit(init, last);
      Shift10(Value(a), Pow10(|init|));
    }
  }

  lemma Shift10(v: nat, p: nat)
    ensures v * (10 * p) == 10 * (v * p)
  {
  }

  /** The longest prefix of digits. */
  function TakeDigits(s: string): (digits: string)
    ensures AllDigits(digits) && |digits| <= |s| && s[..|digits|] == digits
    ensures |digits| < |s| ==> !IsDigit(s[|digits|])
  {
    if s == "" || !IsDigit(s[0]) then ""
    else
      var rest := TakeDigits(s[1..]);
      assert s == [s[0]] + s[1..];
      [s[0]] + rest
  }

  lemma {:induction false} TakeDigitsIs(digits: string, rest: string)
    requires AllDigits(digits) && (rest != "" ==> !IsDigit(rest[0]))
    ensures TakeDigits(digits + rest) == digits
  {
    if digits == "" {
      assert digits + rest == rest;
    } else {
      assert (digits + rest)[1..] == digits[1..] + rest;
      TakeDigitsIs(digits[1..], rest);
    }
  }

  // ---------- the syntax ----------

  /** The parts of a number; an absent fraction is empty, and so is an absent exponent. */
  datatype Number = Number(negative: bool, whole: string, frac: string, mark: string, exponent: string)

  /** int = zero / (digit1-9 *DIGIT), frac = decimal-point 1*DIGIT, exp = e [minus / plus] 1*DIGIT. */
  ghost predicate ValidNumber(n: Number) {
    && AllDigits(n.whole) && n.whole != "" && (n.whole[0] == '0' ==> |n.whole| == 1)
    && AllDigits(n.frac) && AllDigits(n.exponent)
    && (if n.exponent == "" then n.mark == "" else IsMark(n.mark))
  }

  /** e [minus / plus] */
  predicate IsMark(mark: string) {
    && (|mark| == 1 || (|mark| == 2 && (mark[1] == '+' || mark[1] == '-')))
    && (mark[0] == 'e' || mark[0] == 'E')
  }

  function FracText(frac: string): string {
    if frac == "" then "" else "." + frac
  }

  function Text(n: Number): string {
    (if n.negative then "-" else "") + (n.whole + (FracText(n.frac) + (n.mark + n.exponent)))
  }

  function Sign(s: string): (bool, string) {
    if s != "" && s[0] == '-' then (true, s[1..]) else (false, s)
  }

  function Whole(s: string): Option<(string, string)> {
    if s == "" then None
    else if s[0] == '0' then Some((s[..1], s[1..]))
    else if IsDigit(s[0]) then Some((TakeDigits(s), s[|TakeDigits(s)|..]))
    else None
  }

  function Fraction(s: string): Option<(string, string)> {
    if s != "" && s[0] == '.' then
      var digits := TakeDigits(s[1..]);
      if digits == "" then None else Some((digits, s[1 + |digits|..]))
    else Some(("", s))
  }

  /** The exponent's mark with its sign, its digits, and the rest. */
  function Exponent(s: string): Option<(string, string, string)> {
    if s != "" && (s[0] == 'e' || s[0] == 'E') then
      var m := if |s| > 1 && (s[1] == '+' || s[1] == '-') then 2 else 1;
      var digits := TakeDigits(s[m..]);
      if digits == "" then None else Some((s[..m], digits, s[m + |digits|..]))
    else Some(("", "", s))
  }

  /** The number a text stands for, if it is one. */
  function Parse(s: string): Option<Number> {
    var (negative, s1) := Sign(s);
    match Whole(s1)
    case None => None
    case Some((whole, s2)) =>
      match Fraction(s2)
      case None => None
      case Some((frac, s3)) =>
        match Exponent(s3)
        case None => None
        case Some((mark, exponent, s4)) =>
          if s4 == "" then Some(Number(negative, whole, frac, mark, exponent)) else None
  }

  lemma SignText(s: string)
    ensures s == (if Sign(s).0 then "-" else "") + Sign(s).1
  {
  }

  lemma WholeText(s: string)
    requires Whole(s).Some?
    ensures var (whole, rest) := Whole(s).value;
      s == whole + rest && AllDigits(whole) && whole != "" && (whole[0] == '0' ==> |whole| == 1)
  {
    if s[0] != '0' { assert TakeDigits(s) != "" && TakeDigits(s)[0] == s[0]; }
  }

  lemma FractionText(s: string)
    requires Fraction(s).Some?
    ensures var (frac, rest) := Fraction(s).value; s == FracText(frac) + rest && AllDigits(frac)
  {
    var (frac, rest) := Fraction(s).value;
    if frac != "" {
      assert s == "." + s[1..] && s[1..] == frac + s[1..][|frac|..];
      assert s[1..][|frac|..] == rest;
    }
  }

  lemma ExponentText(s: string)
    requires Exponent(s).Some?
    ensures var (mark, exponent, rest) := Exponent(s).value;
      && s == mark + exponent + rest && AllDigits(exponent)
      && (if exponent == "" then mark == "" else IsMark(mark))
  {
    var (mark, exponent, rest) := Exponent(s).value;
    if exponent != "" {
      assert s == mark + s[|mark|..] && s[|mark|..] == exponent + s[|mark|..][|exponent|..];
      assert s[|mark|..][|exponent|..] == rest;
    }
  }

  /** What is parsed is a number of the syntax, written as that text. */
  lemma ParsedIsValid(s: string)
    ensures Parse(s).Some? ==> ValidNumber(Parse(s).value) && Text(Parse(s).value) == s
  {
    hide Sign, Whole, Fraction, Exponent;
    SignText(s);
    var s1 := Sign(s).1;
    if Parse(s).Some? {
      WholeText(s1);
      var s2 := Whole(s1).value.1;
      FractionText(s2);
      var s3 := Fraction(s2).value.1;
      ExponentText(s3);
      var (mark, exponent, s4) := Exponent(s3).value;
      assert mark + exponent + "" == mark + exponent;
    }
  }

  lemma SignOf(negative: bool, rest: string)
    requires rest != "" && rest[0] != '-'
    ensures Sign((if negative then "-" else "") + rest) == (negative, rest)
  {
    if negative {
      assert ("-" + rest)[1..] == rest;
    } else {
      assert "" + rest == rest;
    }
  }

  lemma WholeOf(whole: string, rest: string)
    requires AllDigits(whole) && whole != "" && (whole[0] == '0' ==> |whole| == 1) && (rest != "" ==> !IsDigit(rest[0]))
    ensures Whole(whole + rest) == Some((whole, rest))
  {
    var s := whole + rest;
    assert s[0] == whole[0] && s[..|whole|] == whole && s[|whole|..] == rest;
    TakeDigitsIs(whole, rest);
  }

  lemma FractionOf(frac: string, rest: string)
    requires AllDigits(frac) && (rest != "" ==> !IsDigit(rest[0]) && rest[0] != '.')
    ensures Fraction(FracText(frac) + rest) == Some((frac, rest))
  {
    if frac == "" {
      assert "" + rest == rest;
    } else {
      var s := FracText(frac) + rest;
      assert s[0] == '.' && s[1..] == frac + rest;
      TakeDigitsIs(frac, rest);
      assert s[1 + |frac|..] == rest;
    }
  }

  lemma ExponentOf(mark: string, exponent: string)
    requires AllDigits(exponent) && (if exponent == "" then mark == "" else IsMark(mark))
    ensures Exponent(mark + exponent) == Some((mark, exponent, ""))
  {
    var s := mark + exponent;
    if exponent == "" {
      assert s == "";
    } else {
      assert s[0] == mark[0] && s[|mark|..] == exponent && s[..|mark|] == mark;
      assert |mark| == 1 ==> s[1] == exponent[0];
      assert exponent + "" == exponent;
      TakeDigitsIs(exponent, "");
      assert s[|mark| + |exponent|..] == "";
    }
  }

  /** Every number of the syntax is parsed from its text. */
  lemma ValidIsParsed(n: Number)
    requires ValidNumber(n)
    ensures Parse(Text(n)) == Some(n)
  {
    hide Sign, Whole, Fraction, Exponent;
    var s3 := n.mark + n.exponent;
    var s2 := FracText(n.frac) + s3;
    var s1 := n.whole + s2;
    assert s1[0] == n.whole[0];
    assert s3 != "" ==> s3[0] == n.mark[0];
    assert s2 != "" ==> s2[0] == if n.frac == "" then s3[0] else '.';
    SignOf(n.negative, s1);
    WholeOf(n.whole, s2);
    FractionOf(n.frac, s3);
    ExponentOf(n.mark, n.exponent);
  }

  // ---------- the value ----------

  function Digits(n: Number): nat
    requires AllDigits(n.whole) && AllDigits(n.frac)
  {
    Value(n.whole + n.frac)
  }

  predicate NegativeExponent(n: Number) {
    |n.mark| == 2 && n.mark[1] == '-'
  }

  /** The power of ten by which the digits are scaled in value * 10^decimals. */
  function Scale(n: Number, decimals: int): int
    requires AllDigits(n.exponent)
  {
    var e: int := Value(n.exponent);
    (if NegativeExponent(n) then -e else e) - |n.frac| + decimals
  }

  /** amount == digits * 10^scale */
  ghost predicate Represents(amount: nat, digits: nat, scale: int) {
    if scale >= 0 then amount == digits * Pow10(scale) else amount * Pow10(-scale) == digits
  }

  function Grown(m: nat, i: nat): nat {
    m * Pow10(i)
  }

  /** The digits up to here are m * 10^t, and m does not end in a zero. */
  ghost predicate Mantissa(digits: nat, m: nat, t: nat) {
    digits == Grown(m, t) && (m == 0 || m % 10 != 0)
  }

  /** A number without trailing zeros, scaled, is an integer exactly when the scale covers its zeros. */
  lemma RepresentsIff(amount: nat, digits: nat, m: nat, t: nat, scale: int)
    requires Mantissa(digits, m, t) && m != 0
    ensures Represents(amount, digits, scale) <==> scale + t >= 0 && amount == m * Pow10(scale + t)
  {
    hide Pow10;
    if scale >= 0 {
      Pow10Add(t, scale);
      MulAssoc(m, Pow10(t), Pow10(scale));
    } else if scale + t >= 0 {
      Pow10Add(scale + t, -scale);
      MulAssoc(m, Pow10(scale + t), Pow10(-scale));
      if amount * Pow10(-scale) == digits { Cancel(amount, m * Pow10(scale + t), Pow10(-scale)); }
    } else if amount * Pow10(-scale) == digits {
      TooFine(amount, m, t, -scale - t);
    }
  }

  /** m 10^t, with m not ending in a zero, is not a multiple of a higher power of ten. */
  lemma TooFine(amount: nat, m: nat, t: nat, more: nat)
    requires more > 0 && amount * Pow10(more + t) == m * Pow10(t)
    ensures m % 10 == 0
  {
    var p := Pow10(more - 1);
    assert Pow10(more) == 10 * p;
    hide Pow10;
    Pow10Add(more, t);
    MulAssoc(amount, Pow10(more), Pow10(t));
    Cancel(amount * Pow10(more), m, Pow10(t));
    TenTimes(amount, p);
  }

  lemma TenTimes(a: nat, p: nat)
    ensures (a * (10 * p)) % 10 == 0
  {
    Shift10(a, p);
  }

  lemma {:induction false} Pow10Mono(a: nat, b: nat)
    requires a <= b
    ensures Pow10(a) <= Pow10(b)
  {
    if a < b { Pow10Mono(a, b - 1); }
  }

  lemma Pow10Of18()
    ensures Pow10(18) == UPPER_BOUND + 1 && Pow10(17) == UPPER_BOUND / 10 + 1
  {
    assert Pow10(6) == 1_000_000;
    Pow10Add(6, 6);
    Pow10Add(12, 6);
    assert Pow10(18) == 10 * Pow10(17);
  }

  /** A scale of 18 or more is too large for any digits. */
  lemma TooLarge(m: nat, e: nat)
    requires m > 0 && e >= 18
    ensures m * Pow10(e) > UPPER_BOUND
  {
    Pow10Of18();
    Pow10Mono(18, e);
    MulMono(1, m, Pow10(e));
  }

  lemma {:induction false} Strip(digits: nat) returns (m: nat, t: nat)
    requires digits > 0
    ensures Mantissa(digits, m, t) && m > 0
  {
    if digits % 10 != 0 {
      m, t := digits, 0;
    } else {
      m, t := Strip(digits / 10);
      Shift10(m, Pow10(t));
      t := t + 1;
    }
  }

  /** Some leading digits, without trailing zeros, are already more than 18 digits. */
  ghost predicate Overflows(digits: string)
    requires AllDigits(digits)
  {
    exists i :: 0 <= i <= |digits| && OverflowAt(digits, i)
  }

  ghost predicate OverflowAt(digits: string, i: nat)
    requires AllDigits(digits) && i <= |digits|
  {
    Value(digits[..i]) > UPPER_BOUND && Value(digits[..i]) % 10 != 0
  }

  lemma OverflowExtends(a: string, b: string)
    requires AllDigits(a) && AllDigits(b) && Overflows(a)
    ensures AllDigits(a + b) && Overflows(a + b)
  {
    var i :| 0 <= i <= |a| && OverflowAt(a, i);
    assert (a + b)[..i] == a[..i];
    assert OverflowAt(a + b, i);
  }

  /** Digits that overflow are never an integer of at most 18 digits, whatever the scale. */
  lemma OverflowRejected(digits: string, amount: nat, scale: int)
    requires AllDigits(digits) && Overflows(digits) && Represents(amount, Value(digits), scale)
    ensures amount > UPPER_BOUND && Value(digits) > 0
  {
    var i :| 0 <= i <= |digits| && OverflowAt(digits, i);
    var head, tail := digits[..i], digits[i..];
    assert digits == head + tail;
    ValueConcat(head, tail);
    hide Value, Pow10;
    MulAtLeast(Value(head), Pow10(|tail|));
    var m, t := Strip(Value(digits));
    StrippedLarge(Value(head), Value(tail), |tail|, m, t);
    RepresentsIff(amount, Value(digits), m, t, scale);
    MulAtLeast(m, Pow10(scale + t));
  }

  /** Without its trailing zeros, a number is not smaller than its leading digits up to one that is not zero. */
  lemma StrippedLarge(head: nat, tail: nat, j: nat, m: nat, t: nat)
    requires head % 10 != 0 && tail < Pow10(j) && head * Pow10(j) + tail == m * Pow10(t)
    ensures m >= head
  {
    if t > j {
      MoreZeros(head, tail, j, m, t - j);
    } else {
      FewerZeros(head, tail, j - t, m, t);
    }
  }

  lemma MoreZeros(head: nat, tail: nat, j: nat, m: nat, k: nat)
    requires k > 0 && tail < Pow10(j) && head * Pow10(j) + tail == m * Pow10(k + j)
    ensures head % 10 == 0
  {
    hide Pow10;
    Pow10Add(k, j);
    MulAssoc(m, Pow10(k), Pow10(j));
    SameQuotient(m * Pow10(k), head, Pow10(j), tail);
    EndsInZero(m, k);
  }

  lemma FewerZeros(head: nat, tail: nat, k: nat, m: nat, t: nat)
    requires head * Pow10(k + t) + tail == m * Pow10(t)
    ensures m >= head
  {
    hide Pow10;
    Pow10Add(k, t);
    MulAtLeast(Pow10(t), Pow10(k));
    MulMono(Pow10(t), Pow10(k + t), head);
    if m < head {
      MulMono(m + 1, head, Pow10(t));
    }
  }

  lemma EndsInZero(m: nat, k: nat)
    requires k > 0
    ensures (m * Pow10(k)) % 10 == 0
  {
    TenTimes(m, Pow10(k - 1));
  }

  // ---------- reading ----------

  lemma {:induction false} TakeDigitsMore(digits: string, rest: string)
    requires AllDigits(digits)
    ensures TakeDigits(digits + rest) == digits + TakeDigits(rest)
  {
    if digits == "" {
      assert digits + rest == rest;
    } else {
      assert (digits + rest)[1..] == digits[1..] + rest;
      TakeDigitsMore(digits[1..], rest);
    }
  }

  lemma NextDigit(digits: string, ch: char)
    requires AllDigits(digits) && IsDigit(ch)
    ensures AllDigits(digits + [ch]) && Value(digits + [ch]) == 10 * Value(digits) + Digit(ch)
  {
    var next := digits + [ch];
    assert next[..|next| - 1] == digits;
  }

  lemma OverflowNow(digits: string)
    requires AllDigits(digits) && Value(digits) > UPPER_BOUND && Value(digits) % 10 != 0
    ensures Overflows(digits)
  {
    assert digits[..|digits|] == digits;
    assert OverflowAt(digits, |digits|);
  }

  /** One more digit after total == m 10^t; refused exactly when it is not zero and the result has over 18 digits. */
  method ProcessMantissaDigit(ch: char, m: nat, t: nat, ghost total: nat) returns (ok: bool, mantissa: nat, zeros: nat)
    requires IsDigit(ch) && m <= UPPER_BOUND && t < INT32_MAX && Mantissa(total, m, t)
    ensures ok <==> Digit(ch) == 0 || 10 * total + Digit(ch) <= UPPER_BOUND
    ensures ok ==> mantissa <= UPPER_BOUND && zeros <= t + 1 && Mantissa(10 * total + Digit(ch), mantissa, zeros)
    ensures ok && mantissa == 0 ==> m == 0 && ch == '0' && zeros == t + 1
  {
    hide Pow10, Mantissa, Grown;
    mantissa, zeros := m, t;
    AnotherZero(total, m, t);
    PowerStep(m, 0);
    if ch == '0' {
      zeros := zeros + 1;
    } else {
      for i := 0 to t + 1
        invariant mantissa == Grown(m, i) && mantissa <= UPPER_BOUND
        invariant i > 0 ==> mantissa % 10 == 0 && mantissa <= UPPER_BOUND - 9
      {
        PowerStep(m, i);
        PowerMono(m, i, t);
        if mantissa > UPPER_BOUND / 10 {
          return false, mantissa, zeros;
        }
        mantissa := mantissa * 10;
      }
      NoZeros(mantissa, Digit(ch));
      mantissa := mantissa + Digit(ch);
      zeros := 0;
    }
    ok := true;
  }

  lemma AnotherZero(total: nat, m: nat, t: nat)
    requires Mantissa(total, m, t)
    ensures total == Grown(m, t) && Mantissa(10 * total, m, t + 1)
  {
    Shift10(m, Pow10(t));
  }

  lemma NoZeros(m: nat, d: nat)
    requires m % 10 == 0 && 0 < d < 10
    ensures Mantissa(m + d, m + d, 0) && (m + d) % 10 == d
  {
    assert m + d == 10 * (m / 10) + d;
    AddMultiple(m / 10, 10, d);
  }

  lemma PowerStep(m: nat, i: nat)
    ensures Grown(m, i + 1) == 10 * Grown(m, i) && Grown(m, i + 1) % 10 == 0
    ensures Grown(m, 0) == m
  {
    Shift10(m, Pow10(i));
  }

  lemma PowerMono(m: nat, i: nat, e: nat)
    requires i <= e
    ensures Grown(m, i) <= Grown(m, e)
  {
    Pow10Mono(i, e);
    MulMono(Pow10(i), Pow10(e), m);
  }

  /** Reads the digits at ptr, following the digits before. */
  method ReadDigits(val: string, ptr: nat, m: nat, t: nat, ghost before: string)
    returns (ok: bool, next: nat, mantissa: nat, zeros: nat)
    requires ptr <= |val| && t + (|val| - ptr) <= INT32_MAX
    requires AllDigits(before) && m <= UPPER_BOUND && Mantissa(Value(before), m, t)
    ensures AllDigits(before + TakeDigits(val[ptr..]))
    ensures !ok ==> Overflows(before + TakeDigits(val[ptr..]))
    ensures ok ==> next == ptr + |TakeDigits(val[ptr..])| && zeros <= t + (next - ptr) && mantissa <= UPPER_BOUND
    ensures ok ==> Mantissa(Value(before + TakeDigits(val[ptr..])), mantissa, zeros)
    ensures ok && mantissa == 0 ==> m == 0 && zeros == t + (next - ptr)
    ensures ok && mantissa == 0 && next > ptr ==> val[ptr] == '0'
  {
    hide Mantissa, Overflows, Value, Pow10, TakeDigits;
    next, mantissa, zeros := ptr, m, t;
    assert before + val[ptr..ptr] == before;
    while next < |val| && IsDigit(val[next])
      invariant ptr <= next <= |val| && AllDigits(val[ptr..next])
      invariant mantissa <= UPPER_BOUND && zeros <= t + (next - ptr)
      invariant Mantissa(Value(before + val[ptr..next]), mantissa, zeros)
      invariant mantissa == 0 ==> m == 0 && zeros == t + (next - ptr)
      invariant mantissa == 0 && next > ptr ==> val[ptr] == '0'
    {
      ghost var digits := before + val[ptr..next];
      assert val[ptr..next + 1] == val[ptr..next] + [val[next]];
      assert before + val[ptr..next + 1] == digits + [val[next]];
      NextDigit(digits, val[next]);
      ok, mantissa, zeros := ProcessMantissaDigit(val[next], mantissa, zeros, Value(digits));
      if !ok {
        OverflowNow(digits + [val[next]]);
        DigitsAhead(val, ptr, next + 1);
        assert digits + [val[next]] + TakeDigits(val[next + 1..]) == before + TakeDigits(val[ptr..]);
        OverflowExtends(digits + [val[next]], TakeDigits(val[next + 1..]));
        return;
      }
      next := next + 1;
    }
    DigitsEnd(val, ptr, next);
    ok := true;
  }

  lemma DigitsAhead(val: string, ptr: nat, next: nat)
    requires ptr <= next <= |val| && AllDigits(val[ptr..next])
    ensures TakeDigits(val[ptr..]) == val[ptr..next] + TakeDigits(val[next..])
  {
    assert val[ptr..] == val[ptr..next] + val[next..];
    TakeDigitsMore(val[ptr..next], val[next..]);
  }

  lemma DigitsEnd(val: string, ptr: nat, next: nat)
    requires ptr <= next <= |val| && AllDigits(val[ptr..next]) && (next < |val| ==> !IsDigit(val[next]))
    ensures TakeDigits(val[ptr..]) == val[ptr..next]
  {
    DigitsAhead(val, ptr, next);
    assert TakeDigits(val[next..]) == "";
  }

  method ReadWhole(val: string, ptr: nat) returns (ok: bool, next: nat, mantissa: nat, zeros: nat)
    requires ptr <= |val| <= INT32_MAX
    ensures !ok && Whole(val[ptr..]).Some? ==>
      AllDigits(Whole(val[ptr..]).value.0) && Overflows(Whole(val[ptr..]).value.0)
    ensures ok ==> ptr <= next <= |val| && Whole(val[ptr..]) == Some((val[ptr..next], val[next..]))
    ensures ok ==> AllDigits(val[ptr..next]) && zeros <= next - ptr && mantissa <= UPPER_BOUND
    ensures ok ==> Mantissa(Value(val[ptr..next]), mantissa, zeros) && (mantissa == 0 ==> zeros == 0)
  {
    hide Whole, Mantissa, Overflows, Value, TakeDigits;
    WholeCases(val, ptr);
    next, mantissa, zeros := ptr, 0, 0;
    if ptr == |val| {
      ok := false;
    } else if val[ptr] == '0' {
      next := next + 1;
      ok := true;
    } else if IsDigit(val[ptr]) {
      ok, next, mantissa, zeros := ReadDigits(val, ptr, 0, 0, "");
      assert "" + TakeDigits(val[ptr..]) == TakeDigits(val[ptr..]);
    } else {
      ok := false;
    }
  }

  lemma WholeCases(val: string, ptr: nat)
    requires ptr <= |val|
    ensures Mantissa(Value(""), 0, 0)
    ensures ptr == |val| || !IsDigit(val[ptr]) ==> Whole(val[ptr..]).None?
    ensures ptr < |val| && val[ptr] == '0' ==>
      && Whole(val[ptr..]) == Some((val[ptr..ptr + 1], val[ptr + 1..]))
      && AllDigits(val[ptr..ptr + 1]) && Mantissa(Value(val[ptr..ptr + 1]), 0, 0)
    ensures ptr < |val| && IsDigit(val[ptr]) && val[ptr] != '0' ==>
      var digits := TakeDigits(val[ptr..]);
      && digits != "" && ptr + |digits| <= |val| && digits == val[ptr..ptr + |digits|]
      && Whole(val[ptr..]) == Some((digits, val[ptr + |digits|..]))
  {
    if ptr < |val| {
      assert val[ptr..][0] == val[ptr] && val[ptr..][1..] == val[ptr + 1..];
      if val[ptr] == '0' {
        assert val[ptr..ptr + 1] == "0" == val[ptr..][..1] && Value("0") == 0;
      } else if IsDigit(val[ptr]) {
        var digits := TakeDigits(val[ptr..]);
        assert val[ptr..][|digits|..] == val[ptr + |digits|..];
      }
    }
  }

  method ReadFraction(val: string, ptr: nat, m: nat, t: nat, ghost whole: string)
    returns (ok: bool, next: nat, mantissa: nat, zeros: nat, pointOfs: nat)
    requires ptr <= |val| && t + (|val| - ptr) <= INT32_MAX
    requires AllDigits(whole) && m <= UPPER_BOUND && Mantissa(Value(whole), m, t) && (m == 0 ==> t == 0)
    ensures !ok && Fraction(val[ptr..]).Some? ==>
      AllDigits(whole + Fraction(val[ptr..]).value.0) && Overflows(whole + Fraction(val[ptr..]).value.0)
    ensures ok ==> ptr + pointOfs <= next <= |val| && Fraction(val[ptr..]).Some? && zeros <= t + (next - ptr) && mantissa <= UPPER_BOUND
    ensures ok ==> var (frac, rest) := Fraction(val[ptr..]).value;
      && rest == val[next..] && |frac| == pointOfs && AllDigits(whole + frac)
      && Mantissa(Value(whole + frac), mantissa, zeros) && (mantissa == 0 ==> zeros == pointOfs)
  {
    hide Fraction, Mantissa, Overflows, Value, TakeDigits, Pow10;
    FractionCases(val, ptr);
    next, mantissa, zeros, pointOfs := ptr, m, t, 0;
    if ptr < |val| && val[ptr] == '.' {
      if ptr + 1 < |val| && IsDigit(val[ptr + 1]) {
        ok, next, mantissa, zeros := ReadDigits(val, ptr + 1, m, t, whole);
        pointOfs := if ok then next - (ptr + 1) else 0;
      } else {
        ok := false;
      }
    } else {
      assert whole + "" == whole;
      ok := true;
    }
  }

  lemma FractionCases(val: string, ptr: nat)
    requires ptr <= |val|
    ensures ptr == |val| || val[ptr] != '.' ==> Fraction(val[ptr..]) == Some(("", val[ptr..]))
    ensures ptr < |val| && val[ptr] == '.' ==>
      var digits := TakeDigits(val[ptr + 1..]);
      && (ptr + 1 < |val| && IsDigit(val[ptr + 1]) <==> digits != "")
      && ptr + 1 + |digits| <= |val|
      && Fraction(val[ptr..]) == if digits == "" then None else Some((digits, val[ptr + 1 + |digits|..]))
  {
    if ptr < |val| && val[ptr] == '.' {
      assert val[ptr..][1..] == val[ptr + 1..];
      var digits := TakeDigits(val[ptr + 1..]);
      assert val[ptr..][1 + |digits|..] == val[ptr + 1 + |digits|..];
    }
  }

  method ReadExponent(val: string, ptr: nat) returns (ok: bool, next: nat, negative: bool, exponent: nat)
    requires ptr <= |val|
    ensures !ok && Exponent(val[ptr..]).Some? ==>
      AllDigits(Exponent(val[ptr..]).value.1) && Value(Exponent(val[ptr..]).value.1) > UPPER_BOUND
    ensures ok ==> ptr <= next <= |val| && Exponent(val[ptr..]).Some? && exponent <= UPPER_BOUND
    ensures ok ==> var (mark, digits, rest) := Exponent(val[ptr..]).value;
      rest == val[next..] && AllDigits(digits) && exponent == Value(digits) && (negative <==> |mark| == 2 && mark[1] == '-')
  {
    hide Exponent, Value, TakeDigits;
    ExponentCases(val, ptr);
    next, negative, exponent := ptr, false, 0;
    if ptr < |val| && (val[ptr] == 'e' || val[ptr] == 'E') {
      next := ptr + 1;
      if next < |val| && val[next] == '+' {
        next := next + 1;
      } else if next < |val| && val[next] == '-' {
        negative := true;
        next := next + 1;
      }
      if next < |val| && IsDigit(val[next]) {
        ok, next, exponent := ReadExponentDigits(val, next);
      } else {
        ok := false;
      }
    } else {
      NoDigits();
      ok := true;
    }
  }

  lemma ExponentCases(val: string, ptr: nat)
    requires ptr <= |val|
    ensures ptr == |val| || (val[ptr] != 'e' && val[ptr] != 'E') ==> Exponent(val[ptr..]) == Some(("", "", val[ptr..]))
    ensures ptr < |val| && (val[ptr] == 'e' || val[ptr] == 'E') ==>
      var first := ptr + if ptr + 1 < |val| && (val[ptr + 1] == '+' || val[ptr + 1] == '-') then 2 else 1;
      var digits := TakeDigits(val[first..]);
      && (first < |val| && IsDigit(val[first]) <==> digits != "")
      && first + |digits| <= |val|
      && Exponent(val[ptr..]) == if digits == "" then None else Some((val[ptr..first], digits, val[first + |digits|..]))
  {
    if ptr < |val| && (val[ptr] == 'e' || val[ptr] == 'E') {
      var m := if ptr + 1 < |val| && (val[ptr + 1] == '+' || val[ptr + 1] == '-') then 2 else 1;
      assert |val[ptr..]| > 1 ==> val[ptr..][1] == val[ptr + 1];
      assert val[ptr..][m..] == val[ptr + m..] && val[ptr..][..m] == val[ptr..ptr + m];
      var digits := TakeDigits(val[ptr + m..]);
      assert val[ptr..][m + |digits|..] == val[ptr + m + |digits|..];
    }
  }

  method ReadExponentDigits(val: string, ptr: nat) returns (ok: bool, next: nat, exponent: nat)
    requires ptr <= |val|
    ensures ok <==> Value(TakeDigits(val[ptr..])) <= UPPER_BOUND
    ensures ok ==> next == ptr + |TakeDigits(val[ptr..])| && exponent == Value(TakeDigits(val[ptr..]))
  {
    hide Value, Pow10, TakeDigits;
    next, exponent := ptr, 0;
    NoDigits();
    assert val[ptr..ptr] == "";
    while next < |val| && IsDigit(val[next])
      invariant ptr <= next <= |val| && AllDigits(val[ptr..next])
      invariant exponent == Value(val[ptr..next]) && exponent <= UPPER_BOUND
    {
      NextDigit(val[ptr..next], val[next]);
      assert val[ptr..next + 1] == val[ptr..next] + [val[next]];
      if exponent > UPPER_BOUND / 10 {
        DigitsAhead(val, ptr, next + 1);
        ValueAtLeast(val[ptr..next + 1], TakeDigits(val[next + 1..]));
        return false, next, exponent;
      }
      exponent := exponent * 10 + Digit(val[next]);
      next := next + 1;
    }
    DigitsEnd(val, ptr, next);
    ok := true;
  }

  lemma NoDigits()
    ensures Value("") == 0
  {
  }

  lemma ValueAtLeast(a: string, b: string)
    requires AllDigits(a) && AllDigits(b)
    ensures AllDigits(a + b) && Value(a + b) >= Value(a)
  {
    ValueConcat(a, b);
    MulAtLeast(Value(a), Pow10(|b|));
  }

  // ---------- ParseFixedPoint ----------

  function Signed(negative: bool, n: nat): int {
    if negative then 0 - n else n
  }

  function Size(amount: int): nat {
    if amount < 0 then -amount else amount
  }

  /** What reading a number leaves in the variables. */
  ghost predicate Read(n: Number, negative: bool, m: nat, t: nat, exponent: int, pointOfs: nat) {
    && AllDigits(n.whole) && AllDigits(n.frac) && AllDigits(n.exponent)
    && negative == n.negative && pointOfs == |n.frac|
    && Mantissa(Digits(n), m, t) && m <= UPPER_BOUND && (m == 0 ==> t == pointOfs)
    && exponent == Signed(NegativeExponent(n), Value(n.exponent)) && Value(n.exponent) <= UPPER_BOUND
  }

  /** The digits or the exponent are over 18 digits. */
  ghost predicate TooLong(n: Number) {
    && AllDigits(n.whole) && AllDigits(n.frac) && AllDigits(n.exponent)
    && (Overflows(n.whole + n.frac) || Value(n.exponent) > UPPER_BOUND)
  }

  /** The reading half. */
  method ReadNumber(val: string)
    returns (ok: bool, negative: bool, mantissa: nat, zeros: nat, exponent: int, pointOfs: nat)
    requires |val| <= INT32_MAX
    ensures ok ==> Parse(val).Some? && Read(Parse(val).value, negative, mantissa, zeros, exponent, pointOfs)
    ensures ok ==> zeros <= |val| && pointOfs <= |val|
    ensures !ok && Parse(val).Some? ==> TooLong(Parse(val).value)
  {
    hide Sign, Whole, Fraction, Exponent, Mantissa, Overflows, Value, ValidNumber;
    var ptr := 0;
    exponent, pointOfs := 0, 0;
    SignCases(val);
    DigitsOfParsed(val);
    if ptr < |val| && val[ptr] == '-' {
      negative := true;
      ptr := ptr + 1;
    } else {
      negative := false;
    }
    assert Sign(val) == (negative, val[ptr..]);
    var next: nat;
    ok, next, mantissa, zeros := ReadWhole(val, ptr);
    if !ok {
      WholeTooLong(val);
      return;
    }
    ghost var whole := val[ptr..next];
    ptr := next;
    ok, next, mantissa, zeros, pointOfs := ReadFraction(val, ptr, mantissa, zeros, whole);
    if !ok {
      return;
    }
    ptr := next;
    var down: bool, e: nat;
    ok, next, down, e := ReadExponent(val, ptr);
    if !ok {
      return;
    }
    exponent := Signed(down, e);
    ok := next == |val|;
  }

  lemma DigitsOfParsed(val: string)
    ensures Parse(val).Some? ==>
      var n := Parse(val).value; AllDigits(n.whole) && AllDigits(n.frac) && AllDigits(n.exponent)
  {
    ParsedIsValid(val);
  }

  lemma WholeTooLong(val: string)
    requires var whole := Whole(Sign(val).1); whole.Some? ==> AllDigits(whole.value.0) && Overflows(whole.value.0)
    ensures Parse(val).Some? ==> TooLong(Parse(val).value)
  {
    hide Sign, Whole, Fraction, Exponent, Overflows, Value;
    DigitsOfParsed(val);
    if Parse(val).Some? {
      OverflowExtends(Parse(val).value.whole, Parse(val).value.frac);
    }
  }

  lemma SignCases(val: string)
    ensures Sign(val) == if |val| > 0 && val[0] == '-' then (true, val[1..]) else (false, val[0..])
  {
  }

  /**
   * The numbers that are accepted, for digits scaled by a power of ten. Zero is special: it is
   * accepted as long as the exponent, without the fraction's digits, is from 0 to 17.
   */
  ghost predicate Fits(digits: nat, scale: int, fracDigits: nat) {
    if digits == 0 then 0 <= scale + fracDigits < 18
    else exists amount: nat :: amount <= UPPER_BOUND && Represents(amount, digits, scale)
  }

  lemma ZeroRepresents(scale: int)
    ensures Represents(0, 0, scale)
  {
  }

  lemma ZeroDigits(digits: nat, m: nat, t: nat)
    requires Mantissa(digits, m, t)
    ensures digits == 0 <==> m == 0
  {
    MulAtLeast(m, Pow10(t));
  }

  /** The power of ten of the number's own exponent, with the decimals. */
  function OwnScale(n: Number, decimals: int): int
    requires AllDigits(n.exponent)
  {
    Signed(NegativeExponent(n), Value(n.exponent)) + decimals
  }

  /** It is accepted exactly when its scaled value is an integer that fits, unless it is zero with another exponent. */
  lemma ExactIff(n: Number, decimals: int)
    requires ValidNumber(n)
    ensures var digits, scale := Digits(n), Scale(n, decimals);
      (Fits(digits, scale, |n.frac|) <==> exists amount: nat :: amount <= UPPER_BOUND && Represents(amount, digits, scale))
        <==> digits != 0 || 0 <= OwnScale(n, decimals) < 18
  {
    hide Represents, Value;
    ZeroRepresents(Scale(n, decimals));
  }

  /** A zero that is refused. */
  lemma ZeroRefused()
    ensures Parse("0e30").Some? && ValidNumber(Parse("0e30").value)
    ensures var n := Parse("0e30").value; Digits(n) == 0 && !Fits(Digits(n), Scale(n, 0), |n.frac|)
  {
    var n := Number(false, "0", "", "e", "30");
    ValidIsParsed(n);
    assert Text(n) == "0e30";
    assert "0" + "" == "0" && "30"[..1] == "3" && "3"[..0] == "" && "0"[..0] == "";
    assert Value("30") == 30 && Value("0") == 0;
  }

  /** What the finishing half decides, from what reading left. */
  lemma FitsIff(digits: nat, m: nat, t: nat, scale: int, fracDigits: nat)
    requires Mantissa(digits, m, t) && (m == 0 ==> t == fracDigits)
    ensures Fits(digits, scale, fracDigits) <==> 0 <= scale + t < 18 && Grown(m, scale + t) <= UPPER_BOUND
    ensures scale + t >= 0 ==> Represents(Grown(m, scale + t), digits, scale)
  {
    hide Pow10, Represents, Mantissa;
    ZeroDigits(digits, m, t);
    ZeroRepresents(scale);
    if m > 0 {
      if scale + t >= 0 {
        RepresentsIff(m * Pow10(scale + t), digits, m, t, scale);
        if scale + t >= 18 { TooLarge(m, scale + t); }
      }
      forall amount: nat | Represents(amount, digits, scale)
        ensures scale + t >= 0 && amount == m * Pow10(scale + t)
      {
        RepresentsIff(amount, digits, m, t, scale);
      }
    }
  }

  /** Numbers refused while reading are not accepted ones. */
  lemma TooLongRefused(n: Number, decimals: int)
    requires ValidNumber(n) && TooLong(n) && |Text(n)| <= INT32_MAX && -INT32_MAX - 1 <= decimals <= INT32_MAX
    ensures !Fits(Digits(n), Scale(n, decimals), |n.frac|)
  {
    hide Pow10, Represents, Mantissa, Value, Overflows;
    var digits, scale := Digits(n), Scale(n, decimals);
    if Overflows(n.whole + n.frac) {
      OverflowNotZero(n.whole + n.frac);
      forall amount: nat | Represents(amount, digits, scale)
        ensures amount > UPPER_BOUND
      {
        OverflowRejected(n.whole + n.frac, amount, scale);
      }
    } else if digits > 0 {
      var m, t := Strip(digits);
      FewZeros(n.whole + n.frac, m, t);
      FitsIff(digits, m, t, scale, |n.frac|);
    }
  }

  lemma OverflowNotZero(digits: string)
    requires AllDigits(digits) && Overflows(digits)
    ensures Value(digits) > 0
  {
    var i :| 0 <= i <= |digits| && OverflowAt(digits, i);
    assert digits == digits[..i] + digits[i..];
    ValueAtLeast(digits[..i], digits[i..]);
  }

  /** A number has fewer trailing zeros than digits. */
  lemma FewZeros(digits: string, m: nat, t: nat)
    requires AllDigits(digits) && m > 0 && Mantissa(Value(digits), m, t)
    ensures t < |digits|
  {
    assert "" + digits == digits;
    ValueConcat("", digits);
    MulMono(1, m, Pow10(t));
    if t >= |digits| { Pow10Mono(|digits|, t); }
  }

  /**
   * Parsing is exact: text that is not a number is refused, a number is accepted exactly when it
   * fits, and what is returned is the number times 10^decimals.
   */
  method ParseFixedPoint(val: string, decimals: int) returns (ok: bool, amount: int)
    requires |val| <= INT32_MAX && -INT32_MAX - 1 <= decimals <= INT32_MAX
    ensures match Parse(val)
      case None => !ok
      case Some(n) =>
        && ValidNumber(n)
        && (ok <==> Fits(Digits(n), Scale(n, decimals), |n.frac|))
        && (ok ==> amount == Signed(n.negative, Size(amount)) && Size(amount) <= UPPER_BOUND)
        && (ok ==> Represents(Size(amount), Digits(n), Scale(n, decimals)))
  {
    hide Sign, Whole, Fraction, Exponent, Represents, Mantissa, Value, Overflows, Pow10, Parse, Fits, TooLong, ValidNumber, Text, Grown;
    ParsedIsValid(val);
    var negative, mantissa, zeros, exponent, pointOfs;
    amount := 0;
    ok, negative, mantissa, zeros, exponent, pointOfs := ReadNumber(val);
    if !ok {
      if Parse(val).Some? { TooLongRefused(Parse(val).value, decimals); }
      return;
    }
    ghost var n := Parse(val).value;
    exponent := exponent - pointOfs + zeros;
    assert -INT64_MAX <= exponent <= INT64_MAX;
    exponent := exponent + decimals;
    assert -INT64_MAX <= exponent <= INT64_MAX;
    assert exponent == Scale(n, decimals) + zeros;
    FitsIff(Digits(n), mantissa, zeros, Scale(n, decimals), |n.frac|);
    amount := mantissa;
    if negative {
      amount := -amount;
    }
    if exponent < 0 || exponent >= 18 {
      return false, amount;
    }
    PowerStep(mantissa, 0);
    for i := 0 to exponent
      invariant amount == Signed(negative, Grown(mantissa, i)) && Grown(mantissa, i) <= UPPER_BOUND
    {
      PowerStep(mantissa, i);
      PowerMono(mantissa, i + 1, exponent);
      if amount > UPPER_BOUND / 10 || amount < -(UPPER_BOUND / 10) {
        return false, amount;
      }
      amount := amount * 10;
      assert -INT64_MAX <= amount <= INT64_MAX;
    }
    ok := !(amount > UPPER_BOUND || amount < -UPPER_BOUND);
  }

  // ---------- printing and parsing ----------

  /** The last digit in decimal, as a text of one character. */
  function LastDigit(n: nat): (s: string)
    ensures |s| == 1 && IsDigit(s[0]) && Digit(s[0]) == n % 10
    ensures s[0] == '0' <==> n % 10 == 0
  {
    DigitChar(n % 10);
    ["0123456789"[n % 10]]
  }

  /** The decimal text of a number, without leading zeros. */
  function Decimal(n: nat): (s: string)
    ensures s != ""
  {
    (if n >= 10 then Decimal(n / 10) else "") + LastDigit(n)
  }

  /** The k last digits of a number. */
  function Places(n: nat, k: nat): (s: string)
    ensures |s| == k
  {
    if k == 0 then "" else Places(n / 10, k - 1) + LastDigit(n)
  }

  lemma {:induction false} DecimalIs(n: nat)
    ensures AllDigits(Decimal(n)) && Value(Decimal(n)) == n && (Decimal(n)[0] == '0' ==> n == 0 && |Decimal(n)| == 1)
  {
    hide Value;
    var last := LastDigit(n);
    if n >= 10 {
      DecimalIs(n / 10);
      NextDigit(Decimal(n / 10), last[0]);
      assert Decimal(n) == Decimal(n / 10) + [last[0]];
      assert Decimal(n)[0] == Decimal(n / 10)[0];
    } else {
      NoDigits();
      NextDigit("", last[0]);
      assert Decimal(n) == "" + [last[0]];
    }
  }

  lemma {:induction false} PlacesAre(n: nat, k: nat)
    requires n < Pow10(k)
    ensures AllDigits(Places(n, k)) && Value(Places(n, k)) == n
  {
    hide Value;
    if k == 0 {
      NoDigits();
    } else {
      var last := LastDigit(n);
      PlacesAre(n / 10, k - 1);
      NextDigit(Places(n / 10, k - 1), last[0]);
      assert Places(n, k) == Places(n / 10, k - 1) + [last[0]];
    }
  }

  /** How the exponent is written: with e or E, and with a plus sign or not. */
  datatype Style = Style(upper: bool, plus: bool)

  function ExponentMark(e: int, style: Style): string {
    (if style.upper then "E" else "e") + (if e < 0 then "-" else if style.plus then "+" else "")
  }

  /** A number with k digits after the point and the exponent e, in decimal. */
  function Print(negative: bool, whole: nat, frac: nat, k: nat, e: int, style: Style): string {
    (if negative then "-" else "") + (Decimal(whole)
      + ((if k > 0 then "." + Places(frac, k) else "")
      + (if e == 0 then "" else ExponentMark(e, style) + Decimal(if e < 0 then -e else e))))
  }

  function Printed(negative: bool, whole: nat, frac: nat, k: nat, e: int, style: Style): Number {
    Number(negative, Decimal(whole), Places(frac, k), if e == 0 then "" else ExponentMark(e, style),
           if e == 0 then "" else Decimal(if e < 0 then -e else e))
  }

  lemma PrintedIs(negative: bool, whole: nat, frac: nat, k: nat, e: int, style: Style, decimals: int)
    requires frac < Pow10(k)
    ensures var n := Printed(negative, whole, frac, k, e, style);
      && n.negative == negative && ValidNumber(n) && Parse(Print(negative, whole, frac, k, e, style)) == Some(n)
      && Digits(n) == whole * Pow10(k) + frac && Scale(n, decimals) == e - k + decimals && |n.frac| == k
  {
    hide Value, Pow10, Decimal, Places, Parse;
    var n := Printed(negative, whole, frac, k, e, style);
    DecimalIs(whole);
    PlacesAre(frac, k);
    DecimalIs(if e < 0 then -e else e);
    NoDigits();
    ValueConcat(n.whole, n.frac);
    assert e != 0 ==> IsMark(n.mark) && (|n.mark| == 2 && n.mark[1] == '-' <==> e < 0);
    ValidIsParsed(n);
    assert FracText(n.frac) == if k > 0 then "." + Places(frac, k) else "";
    assert Text(n) == Print(negative, whole, frac, k, e, style) by { assert e == 0 ==> n.mark + n.exponent == ""; }
  }

  /**
    Every decimal text is parsed to its value: (whole + frac / 10^k) 10^(e + decimals), exactly when that is an integer
    below 10^18. For zero, e + decimals has to be from 0 to 17 instead.
   */
  method PrintThenParse(negative: bool, whole: nat, frac: nat, k: nat, e: int, style: Style, decimals: int)
    returns (ok: bool, amount: int)
    requires frac < Pow10(k) && |Print(negative, whole, frac, k, e, style)| <= INT32_MAX && -INT32_MAX - 1 <= decimals <= INT32_MAX
    ensures var digits, scale := whole * Pow10(k) + frac, e - k + decimals;
      && (digits == 0 ==> (ok <==> 0 <= e + decimals < 18) && (ok ==> amount == 0))
      && (digits != 0 && scale >= 0 ==>
            && (ok <==> digits * Pow10(scale) <= 999_999_999_999_999_999)
            && (ok ==> amount == (if negative then -1 else 1) * (digits * Pow10(scale))))
      && (digits != 0 && scale < 0 ==>
            && (ok <==> digits % Pow10(-scale) == 0 && digits / Pow10(-scale) <= 999_999_999_999_999_999)
            && (ok ==> amount == (if negative then -1 else 1) * (digits / Pow10(-scale))))
  {
    hide *;
    var text := Print(negative, whole, frac, k, e, style);
    PrintedIs(negative, whole, frac, k, e, style, decimals);
    ok, amount := ParseFixedPoint(text, decimals);
    ParsedValue(Printed(negative, whole, frac, k, e, style), whole * Pow10(k) + frac, e - k + decimals, k, ok, amount);
  }

  lemma ParsedValue(n: Number, digits: nat, scale: int, k: nat, ok: bool, amount: int)
    requires ok <==> Fits(digits, scale, k)
    requires ok ==> amount == Signed(n.negative, Size(amount)) && Size(amount) <= UPPER_BOUND
    requires ok ==> Represents(Size(amount), digits, scale)
    ensures digits == 0 ==> (ok <==> 0 <= scale + k < 18) && (ok ==> amount == 0)
    ensures digits != 0 && scale >= 0 ==>
              && (ok <==> digits * Pow10(scale) <= 999_999_999_999_999_999)
              && (ok ==> amount == (if n.negative then -1 else 1) * (digits * Pow10(scale)))
    ensures digits != 0 && scale < 0 ==>
              && (ok <==> digits % Pow10(-scale) == 0 && digits / Pow10(-scale) <= 999_999_999_999_999_999)
              && (ok ==> amount == (if n.negative then -1 else 1) * (digits / Pow10(-scale)))
  {
    hide Pow10;
    if digits == 0 && ok { ZeroOnly(Size(amount), scale); }
    if digits != 0 && scale >= 0 { assert Represents(digits * Pow10(scale), digits, scale); }
    if digits != 0 && scale < 0 {
      var p := Pow10(-scale);
      if digits % p == 0 {
        assert digits == p * (digits / p) + digits % p;
        assert (digits / p) * p == p * (digits / p);
        assert Represents(digits / p, digits, scale);
      }
      forall a: nat | Represents(a, digits, scale) ensures digits % p == 0 && digits / p == a {
        assert a * p == p * a;
        DivUnique(digits, p, a, 0);
      }
    }
  }

  lemma ZeroOnly(amount: nat, scale: int)
    requires Represents(amount, 0, scale)
    ensures amount == 0
  {
    if scale < 0 { MulAtLeast(amount, Pow10(-scale)); }
  }

  /**
    Texts that are not numbers: those that do not begin with a digit or a minus sign, do not end with a digit, or have
    another digit after a leading zero.
   */
  lemma Malformed(s: string)
    requires s == "" || (!IsDigit(s[0]) && s[0] != '-') || !IsDigit(s[|s| - 1]) || (|s| > 1 && s[0] == '0' && IsDigit(s[1]))
    ensures Parse(s) == None
  {
    hide Parse;
    ParsedIsValid(s);
    if Parse(s).Some? {
      var n := Parse(s).value;
      TextEnds(n);
      assert false;
    }
  }

  lemma TextEnds(n: Number)
    requires ValidNumber(n)
    ensures var s := Text(n);
      && s != "" && (IsDigit(s[0]) || s[0] == '-') && IsDigit(s[|s| - 1])
      && !(|s| > 1 && s[0] == '0' && IsDigit(s[1]))
  {
    TailEnds(n);
    var tail := FracText(n.frac) + (n.mark + n.exponent);
    hide FracText;
    Join(n.whole, tail);
    if n.negative { Join("-", n.whole + tail); } else { assert Text(n) == n.whole + tail; }
  }

  lemma Join(a: string, b: string)
    ensures b != "" ==> (a + b)[|a + b| - 1] == b[|b| - 1]
    ensures b == "" ==> a + b == a
  {
  }

  lemma TailEnds(n: Number)
    requires ValidNumber(n)
    ensures var tail := FracText(n.frac) + (n.mark + n.exponent);
      tail != "" ==> !IsDigit(tail[0]) && IsDigit(tail[|tail| - 1])
  {
    Join(n.mark, n.exponent);
    Join(FracText(n.frac), n.mark + n.exponent);
    Join(".", n.frac);
  }
}
