/** The numbers that cJSON reads: their texts are made of parts, with the values that these stand for. */
module JsonNumerals {
  import opened CText
  import opened JsonNumbers

  /** A sign, a zero, digits that do not start with zero, the digits of a fraction, an exponent; each may be missing. */
  datatype Numeral = Numeral(minus: bool, zero: bool, whole: string, fraction: string, power: Exponential)

  datatype Exponential = NoExponential | Exponential(letter: char, sign: string, digits: string)

  ghost predicate AreDigits(ds: string) {
    forall i | 0 <= i < |ds| :: '0' <= ds[i] <= '9'
  }

  ghost predicate IsNumeral(n: Numeral) {
    && AreDigits(n.whole) && AreDigits(n.fraction) && (n.whole != "" ==> n.whole[0] != '0')
    && match n.power
       case NoExponential => true
       case Exponential(letter, sign, digits) =>
         (letter == 'e' || letter == 'E') && (sign == "" || sign == "+" || sign == "-") && AreDigits(digits)
  }

  /** It starts with a sign or a digit, as a number does that parse_value is to see. */
  predicate StartsAsNumber(n: Numeral) {
    n.minus || n.zero || n.whole != ""
  }

  function PowerText(p: Exponential): string {
    match p
    case NoExponential => ""
    case Exponential(letter, sign, digits) => [letter] + (sign + digits)
  }

  function FractionText(fraction: string): string {
    if fraction == "" then "" else "." + fraction
  }

  function NumeralText(n: Numeral): string {
    (if n.minus then "-" else "")
    + ((if n.zero then "0" else "") + (n.whole + (FractionText(n.fraction) + PowerText(n.power))))
  }

  /** The number that decimal digits stand for, by position. */
  ghost function NatOf(ds: string): int {
    if ds == "" then 0 else NatOf(ds[..|ds| - 1]) * 10 + (ds[|ds| - 1] as int - '0' as int)
  }

  ghost function TenTo(k: nat): (r: real)
    ensures r > 0.0
  {
    if k == 0 then 1.0 else 10.0 * TenTo(k - 1)
  }

  ghost function PowerValue(p: Exponential): int {
    match p
    case NoExponential => 0
    case Exponential(_, sign, digits) => if sign == "-" then -NatOf(digits) else NatOf(digits)
  }

  /** The decimal point moved e places to the right, or -e to the left. */
  ghost function Shifted(m: real, e: int): real {
    if e >= 0 then m * TenTo(e) else m / TenTo(-e)
  }

  /** The digits of both parts, with the point moved. */
  ghost function NumeralValue(n: Numeral): real {
    var x := Shifted(NatOf(n.whole + n.fraction) as real, PowerValue(n.power) - |n.fraction|);
    if n.minus then -x else x
  }

  ghost predicate StartsWithDigit(s: string) {
    s != "" && '0' <= s[0] <= '9'
  }

  /** Nothing of what follows belongs to the number. */
  ghost predicate NumeralEnds(n: Numeral, rest: string) {
    match n.power
    case Exponential(_, sign, digits) =>
      !StartsWithDigit(rest) && (sign == "" && digits == "" && rest != "" ==> rest[0] != '+' && rest[0] != '-')
    case NoExponential =>
      && (rest != "" ==> rest[0] != 'e' && rest[0] != 'E')
      && (!StartsAsNumber(n) && n.fraction == "" && rest != "" ==> rest[0] != '-')
      && (if n.fraction != "" then !StartsWithDigit(rest)
          else
            && !(rest != "" && rest[0] == '.' && StartsWithDigit(rest[1..]))
            && (StartsWithDigit(rest) ==> n.whole == "" && n.zero && rest[0] == '0'))
  }

  lemma {:induction false} AccumulateIs(ds: string)
    requires AreDigits(ds)
    ensures Accumulate(0.0, ds) == NatOf(ds) as real
    ensures AccumulateInt(0, ds) == NatOf(ds)
  {
    if ds != "" {
      var init, last := ds[..|ds| - 1], [ds[|ds| - 1]];
      AccumulateIs(init);
      assert init + last == ds && last[1..] == [];
      AccumulateAppend(0.0, init, last);
      AccumulateIntAppend(0, init, last);
    }
  }

  lemma {:induction false} Pow10Is(k: nat)
    ensures Pow10(k) == TenTo(k) && Pow10(0 - k) == 1.0 / TenTo(k)
  {
    if k > 0 {
      Pow10Is(k - 1);
      InverseTimesTen(TenTo(k - 1));
    }
  }

  lemma InverseTimesTen(x: real)
    requires x > 0.0
    ensures 1.0 / x / 10.0 == 1.0 / (10.0 * x)
  {
    var y := 1.0 / x;
    assert y * x == 1.0;
    assert (y / 10.0) * (10.0 * x) == 1.0;
  }

  lemma ScaledIs(m: real, e: int)
    ensures Scaled(m, e) == Shifted(m, e)
  {
    if e >= 0 {
      Pow10Is(e);
    } else {
      Pow10Is(-e);
      var x := TenTo(-e);
      assert m * (1.0 / x) == m / x;
    }
  }

  // ---- reading numbers ----

  lemma SignRead(minus: bool, u: string)
    requires !minus ==> Peek(u) != '-'
    ensures var s := (if minus then "-" else "") + u; AfterSign(s) == u && (Peek(s) == '-') == minus
  {
    assert "" + u == u && ("-" + u)[1..] == u;
  }

  lemma ZeroRead(zero: bool, u: string)
    requires !zero ==> Peek(u) != '0'
    ensures AfterZero((if zero then "0" else "") + u) == u
  {
    assert "" + u == u && ("0" + u)[1..] == u;
  }

  lemma WholeRead(whole: string, u: string)
    requires AreDigits(whole)
    requires if whole == "" then !('1' <= Peek(u) <= '9') else whole[0] != '0' && !StartsWithDigit(u)
    ensures IntegerDigits(whole + u) == |whole|
    ensures (whole + u)[..|whole|] == whole && (whole + u)[|whole|..] == u
  {
    if whole == "" {
      assert whole + u == u;
    } else {
      DigitRunOf(whole, u);
    }
  }

  lemma FractionRead(fraction: string, u: string)
    requires AreDigits(fraction)
    requires if fraction == "" then !(u != "" && u[0] == '.' && StartsWithDigit(u[1..])) else !StartsWithDigit(u)
    ensures var s := FractionText(fraction) + u;
      && FractionDigits(s) == |fraction| && AfterFraction(s) == u
      && (fraction != "" ==> |s| > |fraction| && s[1..1 + |fraction|] == fraction)
  {
    var s := FractionText(fraction) + u;
    if fraction == "" {
      assert s == u;
      assert |u| > 1 ==> u[1..][0] == u[1];
    } else {
      assert s[1..] == fraction + u && s[1] == fraction[0];
      DigitRunOf(fraction, u);
      assert s[1 + |fraction|..] == u;
    }
  }

  lemma PowerRead(letter: char, sign: string, digits: string, rest: string)
    requires (letter == 'e' || letter == 'E') && (sign == "" || sign == "+" || sign == "-") && AreDigits(digits)
    requires !StartsWithDigit(rest) && (sign == "" && digits == "" && rest != "" ==> rest[0] != '+' && rest[0] != '-')
    ensures var p := Exponential(letter, sign, digits); Exponent(PowerText(p) + rest) == (PowerValue(p), rest)
  {
    var u := digits + rest;
    PowerDigitsRead(digits, rest);
    PowerSignRead(letter, sign, u);
    hide *;
    PowerTextIs(letter, sign, digits, rest);
    ExponentIs([letter] + (sign + u), u, digits, rest, sign == "-");
  }

  lemma PowerTextIs(letter: char, sign: string, digits: string, rest: string)
    requires AreDigits(digits)
    ensures var p := Exponential(letter, sign, digits);
      && PowerText(p) + rest == [letter] + (sign + (digits + rest))
      && PowerValue(p) == if sign == "-" then -NatOf(digits) else NatOf(digits)
  {}

  lemma ExponentIs(s: string, u: string, digits: string, rest: string, negative: bool)
    requires Peek(s) == 'e' || Peek(s) == 'E'
    requires AfterExponentSign(s[1..]) == u && (Peek(s[1..]) == '-' <==> negative)
    requires DigitRun(u) == |digits| <= |u| && u[..|digits|] == digits && u[|digits|..] == rest && AreDigits(digits)
    ensures Exponent(s) == (if negative then -(AccumulateInt(0, digits) as int) else AccumulateInt(0, digits), rest)
  {
    hide AfterExponentSign, DigitRun, AccumulateInt;
  }

  lemma NoPowerRead(rest: string)
    requires rest != "" ==> rest[0] != 'e' && rest[0] != 'E'
    ensures Exponent(PowerText(NoExponential) + rest) == (0, rest)
  {
    assert "" + rest == rest;
  }

  lemma PowerSignRead(letter: char, sign: string, u: string)
    requires sign == "" || sign == "+" || sign == "-"
    requires sign == "" ==> Peek(u) != '+' && Peek(u) != '-'
    ensures var s := [letter] + (sign + u);
      Peek(s) == letter && AfterExponentSign(s[1..]) == u && (Peek(s[1..]) == '-' <==> sign == "-")
  {
    var s := [letter] + (sign + u);
    assert s[1..] == sign + u;
    assert sign == "" ==> sign + u == u;
    assert sign != "" ==> (sign + u)[0] == sign[0] && (sign + u)[1..] == u;
  }

  lemma PowerDigitsRead(digits: string, rest: string)
    requires AreDigits(digits) && !StartsWithDigit(rest)
    ensures var u := digits + rest;
      DigitRun(u) == |digits| && u[..|digits|] == digits && u[|digits|..] == rest
    ensures AccumulateInt(0, digits) == NatOf(digits)
    ensures digits != "" ==> Peek(digits + rest) != '+' && Peek(digits + rest) != '-'
    ensures digits == "" ==> digits + rest == rest
  {
    DigitRunOf(digits, rest);
    AccumulateIs(digits);
  }

  lemma PowerStart(p: Exponential, rest: string)
    ensures var u := PowerText(p) + rest; Peek(u) == if p.Exponential? then p.letter else Peek(rest)
    ensures p.NoExponential? ==> PowerText(p) + rest == rest
  {}

  lemma {:induction false} ReassociateNumeral(n: Numeral, rest: string)
    ensures NumeralText(n) + rest
         == (if n.minus then "-" else "")
            + ((if n.zero then "0" else "")
               + (n.whole + (FractionText(n.fraction) + (PowerText(n.power) + rest))))
  {
    var a, b := if n.minus then "-" else "", if n.zero then "0" else "";
    var c, d, e := n.whole, FractionText(n.fraction), PowerText(n.power);
    assert a + (b + (c + (d + e))) + rest == a + (b + (c + (d + (e + rest))));
  }

  /** What a numeral stands for without its sign. */
  ghost function MagnitudeValue(n: Numeral): real {
    NumeralValue(n.(minus := false, zero := true))
  }

  lemma DigitsTogether(whole: string, fraction: string)
    requires AreDigits(whole) && AreDigits(fraction)
    ensures Accumulate(Accumulate(0.0, whole), fraction) == NatOf(whole + fraction) as real
    ensures Accumulate(0.0, whole) == NatOf(whole) as real && whole + "" == whole
  {
    AccumulateAppend(0.0, whole, fraction);
    AccumulateIs(whole + fraction);
    AccumulateIs(whole);
  }

  lemma ExponentRead(n: Numeral, rest: string)
    requires IsNumeral(n) && NumeralEnds(n, rest)
    ensures Exponent(PowerText(n.power) + rest) == (PowerValue(n.power), rest)
  {
    hide Exponent, PowerText;
    match n.power
    case NoExponential => NoPowerRead(rest);
    case Exponential(letter, sign, digits) => PowerRead(letter, sign, digits, rest);
  }

  /** What follows the digits does not belong to them. */
  lemma PartsEnd(n: Numeral, rest: string)
    requires IsNumeral(n) && NumeralEnds(n, rest)
    ensures var e := PowerText(n.power) + rest;
      && (if n.fraction == "" then !(e != "" && e[0] == '.' && StartsWithDigit(e[1..])) else !StartsWithDigit(e))
    ensures var d := FractionText(n.fraction) + (PowerText(n.power) + rest);
      if n.whole == "" then !('1' <= Peek(d) <= '9') else n.whole[0] != '0' && !StartsWithDigit(d)
    ensures var c := n.whole + (FractionText(n.fraction) + (PowerText(n.power) + rest));
      !n.zero ==> Peek(c) != '0'
  {
    PowerStart(n.power, rest);
    FractionStart(n.fraction, PowerText(n.power) + rest);
    hide PowerText, FractionText;
  }

  /** parse_number behind the sign, stage by stage. */
  lemma Stages(b: string, c: string, whole: string, d: string, fraction: string, e: string, power: int, rest: string)
    requires AfterZero(b) == c && IntegerDigits(c) == |whole| <= |c| && c[..|whole|] == whole && c[|whole|..] == d
    requires FractionDigits(d) == |fraction| && AfterFraction(d) == e && Exponent(e) == (power, rest)
    requires fraction != "" ==> |fraction| < |d| && d[1..1 + |fraction|] == fraction
    requires AreDigits(whole) && AreDigits(fraction)
    ensures ParseMagnitude(b) == (Scaled(Accumulate(Accumulate(0.0, whole), fraction), power - |fraction|), rest)
  {
    hide AfterZero, IntegerDigits, FractionDigits, AfterFraction, Exponent, Scaled;
  }

  lemma MagnitudeIs(n: Numeral)
    requires IsNumeral(n)
    ensures MagnitudeValue(n)
         == Scaled(Accumulate(Accumulate(0.0, n.whole), n.fraction), PowerValue(n.power) - |n.fraction|)
    ensures NumeralValue(n) == if n.minus then -MagnitudeValue(n) else MagnitudeValue(n)
  {
    DigitsTogether(n.whole, n.fraction);
    ScaledIs(NatOf(n.whole + n.fraction) as real, PowerValue(n.power) - |n.fraction|);
    hide NatOf, Shifted, Scaled, Accumulate, PowerValue;
  }

  lemma NumeralParts(n: Numeral)
    requires IsNumeral(n)
    ensures AreDigits(n.whole) && AreDigits(n.fraction)
  {}

  lemma MagnitudeRead(n: Numeral, rest: string)
    requires IsNumeral(n) && NumeralEnds(n, rest)
    ensures var b := (if n.zero then "0" else "")
        + (n.whole + (FractionText(n.fraction) + (PowerText(n.power) + rest)));
      ParseMagnitude(b) == (MagnitudeValue(n), rest)
  {
    hide *;
    NumeralParts(n);
    PartsEnd(n, rest);
    ExponentRead(n, rest);
    var e := PowerText(n.power) + rest;
    var d := FractionText(n.fraction) + e;
    FractionRead(n.fraction, e);
    WholeRead(n.whole, d);
    ZeroRead(n.zero, n.whole + d);
    MagnitudeIs(n);
    Stages((if n.zero then "0" else "") + (n.whole + d), n.whole + d, n.whole, d, n.fraction, e, PowerValue(n.power),
           rest);
  }

  lemma ParseNumberIs(s: string, b: string, minus: bool, x: real, rest: string)
    requires AfterSign(s) == b && (Peek(s) == '-' <==> minus) && ParseMagnitude(b) == (x, rest)
    ensures ParseNumber(s) == (if minus then -x else x, rest)
  {
    hide AfterSign, ParseMagnitude;
  }

  /** parse_number reads the number that a numeral stands for, and stops right behind it. */
  lemma NumeralRead(n: Numeral, rest: string)
    requires IsNumeral(n) && NumeralEnds(n, rest)
    ensures ParseNumber(NumeralText(n) + rest) == (NumeralValue(n), rest)
  {
    hide *;
    MagnitudeRead(n, rest);
    MagnitudeStart(n, rest);
    ReassociateNumeral(n, rest);
    MagnitudeIs(n);
    var b := (if n.zero then "0" else "") + (n.whole + (FractionText(n.fraction) + (PowerText(n.power) + rest)));
    SignRead(n.minus, b);
    ParseNumberIs(NumeralText(n) + rest, b, n.minus, MagnitudeValue(n), rest);
  }

  lemma MagnitudeStart(n: Numeral, rest: string)
    requires IsNumeral(n) && NumeralEnds(n, rest)
    ensures !n.minus ==>
      Peek((if n.zero then "0" else "") + (n.whole + (FractionText(n.fraction) + (PowerText(n.power) + rest)))) != '-'
  {
    FractionStart(n.fraction, PowerText(n.power) + rest);
    PowerStart(n.power, rest);
    hide PowerText, FractionText;
  }

  lemma FractionStart(fraction: string, u: string)
    ensures var s := FractionText(fraction) + u; if fraction == "" then s == u else Peek(s) == '.'
  {}

  lemma NumeralStart(n: Numeral, rest: string)
    requires IsNumeral(n) && StartsAsNumber(n)
    ensures var s := NumeralText(n) + rest; s != [] && (s[0] == '-' || IsDigit(s[0]))
  {
    var t := NumeralText(n);
    assert n.minus ==> t[0] == '-';
    assert !n.minus && n.zero ==> t[0] == '0';
    assert !n.minus && !n.zero ==> t[0] == n.whole[0];
  }

  lemma DigitsFound(s: string) returns (ds: string, rest: string)
    ensures s == ds + rest && AreDigits(ds) && !StartsWithDigit(rest)
    ensures StartsWithDigit(s) ==> ds != "" && ds[0] == s[0]
  {
    ds, rest := s[..DigitRun(s)], s[DigitRun(s)..];
  }

  lemma PowerSignFound(u: string) returns (sign: string, v: string)
    ensures u == sign + v && (sign == "" || sign == "+" || sign == "-")
    ensures sign == "" && v != "" ==> v[0] != '+' && v[0] != '-'
  {
    sign := if u != "" && (u[0] == '+' || u[0] == '-') then u[..1] else "";
    v := u[|sign|..];
  }

  lemma PowerFound(s: string) returns (p: Exponential, rest: string)
    ensures s == PowerText(p) + rest && IsNumeral(Numeral(false, false, "", "", p))
    ensures match p
      case NoExponential => rest != "" ==> rest[0] != 'e' && rest[0] != 'E'
      case Exponential(_, sign, digits) =>
        !StartsWithDigit(rest) && (sign == "" && digits == "" && rest != "" ==> rest[0] != '+' && rest[0] != '-')
  {
    if s != "" && (s[0] == 'e' || s[0] == 'E') {
      var sign, v := PowerSignFound(s[1..]);
      var digits;
      digits, rest := DigitsFound(v);
      p := Exponential(s[0], sign, digits);
      assert s == [s[0]] + s[1..];
      PowerTextIs(s[0], sign, digits, rest);
      assert digits == "" ==> v == rest;
    } else {
      p, rest := NoExponential, s;
      assert s == "" + rest;
    }
  }

  lemma FractionFound(s: string) returns (fraction: string, rest: string)
    ensures s == FractionText(fraction) + rest && AreDigits(fraction)
    ensures if fraction != "" then !StartsWithDigit(rest)
      else rest == s && !(rest != "" && rest[0] == '.' && StartsWithDigit(rest[1..]))
  {
    if s != "" && s[0] == '.' && StartsWithDigit(s[1..]) {
      fraction, rest := DigitsFound(s[1..]);
      assert s == "." + s[1..] && "." + (fraction + rest) == "." + fraction + rest;
    } else {
      fraction, rest := "", s;
      assert s == "" + s;
    }
  }

  lemma WholeFound(s: string) returns (whole: string, rest: string)
    ensures s == whole + rest && AreDigits(whole) && (whole != "" ==> whole[0] != '0')
    ensures if whole == "" then StartsWithDigit(s) ==> s[0] == '0' else !StartsWithDigit(rest)
  {
    if StartsWithDigit(s) && s[0] != '0' {
      whole, rest := DigitsFound(s);
    } else {
      whole, rest := "", s;
      assert s == "" + s;
    }
  }

  lemma PrefixFound(s: string) returns (minus: bool, zero: bool, c: string)
    ensures s == (if minus then "-" else "") + ((if zero then "0" else "") + c)
    ensures !zero ==> !(c != "" && c[0] == '0')
    ensures !minus && !zero ==> c == s && Peek(s) != '-'
  {
    minus := s != "" && s[0] == '-';
    var b := if minus then s[1..] else s;
    zero := b != "" && b[0] == '0';
    c := if zero then b[1..] else b;
    assert b == (if zero then "0" else "") + c;
    assert s == (if minus then "-" else "") + b;
  }

  /** Every text starts with a numeral, if only an empty one. */
  lemma NumeralFound(s: string) returns (n: Numeral, rest: string)
    ensures IsNumeral(n) && NumeralEnds(n, rest) && s == NumeralText(n) + rest
    ensures Peek(s) == '-' || IsDigit(Peek(s)) ==> StartsAsNumber(n)
  {
    hide *;
    var minus, zero, c := PrefixFound(s);
    var whole, d := WholeFound(c);
    var fraction, e := FractionFound(d);
    var power;
    power, rest := PowerFound(e);
    n := Numeral(minus, zero, whole, fraction, power);
    ReassociateNumeral(n, rest);
    NumeralMade(n, s, c, d, e, rest);
    NumeralClosed(n, s, d, e, rest);
  }

  lemma NumeralMade(n: Numeral, s: string, c: string, d: string, e: string, rest: string)
    requires IsNumeral(Numeral(false, false, "", "", n.power)) && AreDigits(n.whole) && AreDigits(n.fraction)
    requires n.whole != "" ==> n.whole[0] != '0'
    requires c == n.whole + d && (!n.zero ==> !(c != "" && c[0] == '0'))
    requires !n.minus && !n.zero ==> c == s && Peek(s) != '-'
    requires n.whole == "" ==> StartsWithDigit(c) ==> c[0] == '0'
    ensures IsNumeral(n)
    ensures Peek(s) == '-' || IsDigit(Peek(s)) ==> StartsAsNumber(n)
    ensures !StartsAsNumber(n) ==> s == d
    ensures n.whole == "" ==> StartsWithDigit(d) ==> n.zero && d[0] == '0'
  {
    assert n.whole == "" ==> c == d;
  }

  lemma NumeralClosed(n: Numeral, s: string, d: string, e: string, rest: string)
    requires !StartsAsNumber(n) ==> s == d && Peek(s) != '-'
    requires e == PowerText(n.power) + rest && d == FractionText(n.fraction) + e
    requires match n.power
      case NoExponential => rest != "" ==> rest[0] != 'e' && rest[0] != 'E'
      case Exponential(_, sign, digits) =>
        !StartsWithDigit(rest) && (sign == "" && digits == "" && rest != "" ==> rest[0] != '+' && rest[0] != '-')
    requires if n.fraction != "" then !StartsWithDigit(e)
      else !(d != "" && d[0] == '.' && StartsWithDigit(d[1..]))
    requires if n.whole == "" then StartsWithDigit(d) ==> n.zero && d[0] == '0' else !StartsWithDigit(d)
    ensures NumeralEnds(n, rest)
  {
    PowerStart(n.power, rest);
    FractionStart(n.fraction, e);
    hide PowerText, FractionText;
  }
}
