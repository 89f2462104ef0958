/** Numbers, as functions on texts. */
module JsonNumbers {
  // parse_number, on exact reals, and the integer branch of print_number.

  import opened CText

  const INT_MAX := 2147483647
  const INT_MIN := -2147483648
  const DBL_EPSILON := 1.0 / 4503599627370496.0

  /** n * 10 + digit, over a run of digits. */
  function Accumulate(n: real, ds: string): real
    requires forall i | 0 <= i < |ds| :: IsDigit(ds[i])
    decreases ds
  {
    if ds == [] then n else Accumulate(n * 10.0 + DigitValue(ds[0]) as real, ds[1..])
  }

  function AccumulateInt(n: nat, ds: string): nat
    requires forall i | 0 <= i < |ds| :: IsDigit(ds[i])
    decreases ds
  {
    if ds == [] then n else AccumulateInt(n * 10 + DigitValue(ds[0]), ds[1..])
  }

  function Pow10(e: int): real
    decreases if e < 0 then -e else e
  {
    if e == 0 then 1.0 else if e > 0 then Pow10(e - 1) * 10.0 else Pow10(e + 1) / 10.0
  }

  /** The conversion (int)n: truncation towards zero. */
  function Truncate(n: real): int {
    if n >= 0.0 then n.Floor else -(-n).Floor
  }

  /** The integer of the same sign that is next to the number on the side of zero. */
  lemma TruncateIs(n: real)
    ensures var i := Truncate(n) as real;
      if n >= 0.0 then 0.0 <= i <= n < i + 1.0 else i - 1.0 < n <= i <= 0.0
  {}

  /** The parts of a number: what each stage of parse_number leaves of the text. */
  function AfterSign(s: string): string {
    if Peek(s) == '-' then s[1..] else s
  }

  function AfterZero(s: string): string {
    if Peek(s) == '0' then s[1..] else s
  }

  /** The digits of the integer part: none unless the first of them is not zero. */
  function IntegerDigits(s: string): (k: nat)
    ensures k <= |s| && forall i | 0 <= i < k :: IsDigit(s[i])
  {
    if '1' <= Peek(s) <= '9' then DigitRun(s) else 0
  }

  /** The digits of the fraction, behind a point that has one. */
  function FractionDigits(s: string): (k: nat)
    ensures k < |s| || k == 0
    ensures 0 < k ==> s[0] == '.' && forall i | 1 <= i < 1 + k :: IsDigit(s[i])
  {
    if Peek(s) == '.' && |s| > 1 && IsDigit(s[1]) then DigitRun(s[1..]) else 0
  }

  function AfterFraction(s: string): string {
    if FractionDigits(s) == 0 then s else s[1 + FractionDigits(s)..]
  }

  /** What a sign in front of the exponent leaves. */
  function AfterExponentSign(s: string): string {
    if Peek(s) == '+' || Peek(s) == '-' then s[1..] else s
  }

  /** The exponent and the text behind it. */
  function Exponent(s: string): (r: (int, string))
    ensures |r.1| <= |s|
  {
    if Peek(s) == 'e' || Peek(s) == 'E' then
      var u := AfterExponentSign(s[1..]);
      var value: int := AccumulateInt(0, u[..DigitRun(u)]);
      (if Peek(s[1..]) == '-' then -value else value, u[DigitRun(u)..])
    else
      (0, s)
  }

  function Scaled(n: real, k: int): real {
    n * Pow10(k)
  }

  /** parse_number behind the sign. */
  function ParseMagnitude(s: string): (real, string) {
    var s1 := AfterZero(s);
    var k := IntegerDigits(s1);
    var n1 := Accumulate(0.0, s1[..k]);
    var s2 := s1[k..];
    var f := FractionDigits(s2);
    var n2 := if f == 0 then n1 else Accumulate(n1, s2[1..1 + f]);
    var (exponent, rest) := Exponent(AfterFraction(s2));
    (Scaled(n2, exponent - f), rest)
  }

  /** parse_number: the value of the number at the front, and the text behind it. */
  function ParseNumber(s: string): (real, string) {
    var (magnitude, rest) := ParseMagnitude(AfterSign(s));
    (if Peek(s) == '-' then -magnitude else magnitude, rest)
  }

  /** A magnitude is read off at least one character when it starts with a digit. */
  lemma MagnitudeAdvances(s: string)
    ensures |ParseMagnitude(s).1| <= |s| && (IsDigit(Peek(s)) ==> |ParseMagnitude(s).1| < |s|)
  {
    hide Exponent, Accumulate, Pow10;
    var s1 := AfterZero(s);
    var s2 := s1[IntegerDigits(s1)..];
    assert |AfterFraction(s2)| <= |s2| <= |s1| <= |s|;
    if IsDigit(Peek(s)) {
      assert |s2| < |s|;
    }
  }

  /** A number is read off at least one character when it starts like one. */
  lemma ParseNumberAdvances(s: string)
    requires Peek(s) == '-' || IsDigit(Peek(s))
    ensures |ParseNumber(s).1| < |s|
  {
    hide ParseMagnitude;
    MagnitudeAdvances(AfterSign(s));
  }

  /** The decimal digits of a natural number. */
  function Decimal(n: nat): (ds: string)
    ensures 0 < |ds| && forall i | 0 <= i < |ds| :: IsDigit(ds[i])
    ensures 0 < n ==> ds[0] != '0'
  {
    if n < 10 then [DigitChar(n)] else Decimal(n / 10) + [DigitChar(n % 10)]
  }

  /** The conversion %d. */
  function IntText(i: int): (t: string)
    ensures 0 < |t| && (t[0] == '-' || IsDigit(t[0])) && IsText(t)
  {
    if i < 0 then ['-'] + Decimal(-i) else Decimal(i)
  }

  lemma {:induction false} AccumulateAppend(n: real, a: string, b: string)
    requires forall i | 0 <= i < |a| :: IsDigit(a[i])
    requires forall i | 0 <= i < |b| :: IsDigit(b[i])
    ensures Accumulate(n, a + b) == Accumulate(Accumulate(n, a), b)
    decreases a
  {
    if a == [] {
      assert a + b == b;
    } else {
      assert (a + b)[1..] == a[1..] + b;
      AccumulateAppend(n * 10.0 + DigitValue(a[0]) as real, a[1..], b);
    }
  }

  lemma {:induction false} AccumulateIntAppend(n: nat, a: string, b: string)
    requires forall i | 0 <= i < |a| :: IsDigit(a[i])
    requires forall i | 0 <= i < |b| :: IsDigit(b[i])
    ensures AccumulateInt(n, a + b) == AccumulateInt(AccumulateInt(n, a), b)
    decreases a
  {
    if a == [] {
      assert a + b == b;
    } else {
      assert (a + b)[1..] == a[1..] + b;
      AccumulateIntAppend(n * 10 + DigitValue(a[0]), a[1..], b);
    }
  }

  lemma {:induction false} AccumulateDecimal(n: nat)
    ensures Accumulate(0.0, Decimal(n)) == n as real
  {
    if n >= 10 {
      AccumulateDecimal(n / 10);
      AccumulateAppend(0.0, Decimal(n / 10), [DigitChar(n % 10)]);
    }
  }

  /** What must not follow a printed number for it to be read back alone. */
  predicate NumberEnds(rest: string) {
    && !IsDigit(Peek(rest)) && Peek(rest) != 'e' && Peek(rest) != 'E'
    && !(Peek(rest) == '.' && |rest| > 1 && IsDigit(rest[1]))
  }

  lemma ParseDecimal(n: nat, rest: string)
    requires NumberEnds(rest)
    ensures ParseMagnitude(Decimal(n) + rest) == (n as real, rest)
  {
    var ds := Decimal(n);
    if n == 0 {
      assert AfterZero(ds + rest) == rest;
    } else {
      DigitRunOf(ds, rest);
      AccumulateDecimal(n);
      assert (ds + rest)[..|ds|] == ds && (ds + rest)[|ds|..] == rest;
    }
  }

  lemma AfterSignOf(i: int, rest: string)
    ensures var s := IntText(i) + rest; (Peek(s) == '-') == (i < 0)
    ensures AfterSign(IntText(i) + rest) == Decimal(if i < 0 then -i else i) + rest
  {}

  /** parse_number reads back the number that %d printed, and stops right behind it. */
  lemma ParseIntText(i: int, rest: string)
    requires NumberEnds(rest)
    ensures ParseNumber(IntText(i) + rest) == (i as real, rest)
  {
    hide ParseMagnitude, NumberEnds, AfterSign, Decimal, IntText;
    ParseDecimal(if i < 0 then -i else i, rest);
    AfterSignOf(i, rest);
  }
}
