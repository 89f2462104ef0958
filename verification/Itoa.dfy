/** my_itoa and str2int of common.c. */
module Itoa {
  // The digits of a number in any radix from 2 to 36, and the number that a text starts with.

  import opened CText
  import opened JsonNumbers
  import opened Nodes
  import JsonNumerals
  import JsonReader
  import JsonRoundTrip

  const TABLE := "0123456789ABCDEFGHIJKLMNOPQRSTUVWXYZ"

  /** num / radix, which is less than num unless that is 0. */
  function Quotient(num: nat, radix: nat): (q: nat)
    requires 2 <= radix
    ensures 0 < num ==> q < num
    ensures q == 0 <==> num < radix
  {
    num / radix
  }

  /** num % radix. */
  function Remainder(num: nat, radix: nat): (r: nat)
    requires 2 <= radix
    ensures r < radix && (num < radix ==> r == num)
  {
    num % radix
  }

  lemma DivMod(num: nat, radix: nat)
    requires 2 <= radix
    ensures Quotient(num, radix) * radix + Remainder(num, radix) == num
  {}

  /** The digits of a natural number, the first one first. */
  function Digits(n: nat, radix: nat): (ds: string)
    requires 2 <= radix <= 36
    ensures |ds| > 0
  {
    if n < radix then [TABLE[n]] else Digits(Quotient(n, radix), radix) + [TABLE[Remainder(n, radix)]]
  }

  function Text(num: int, radix: nat): string
    requires 2 <= radix <= 36
  {
    if num < 0 then ['-'] + Digits(-num, radix) else Digits(num, radix)
  }

  // ---- what the digits mean ----

  /** The value of a digit of the table. */
  function DigitOf(c: char): (d: int) {
    if '0' <= c <= '9' then c as int - '0' as int
    else if 'A' <= c <= 'Z' then c as int - 'A' as int + 10
    else -1
  }

  /** The number that digits stand for, by position. */
  function Positional(ds: string, radix: nat): int {
    if ds == [] then 0 else Positional(ds[..|ds| - 1], radix) * radix + DigitOf(ds[|ds| - 1])
  }

  lemma TableDigits(d: nat)
    requires d < 36
    ensures DigitOf(TABLE[d]) == d && TABLE[d] != '\0'
  {}

  lemma PositionalAppend(ds: string, c: char, radix: nat)
    ensures Positional(ds + [c], radix) == Positional(ds, radix) * radix + DigitOf(c)
  {
    assert (ds + [c])[..|ds|] == ds;
  }

  /** The digits stand for the number; each is below the radix, and the first is no zero unless the number is. */
  lemma {:induction false} DigitsMean(n: nat, radix: nat)
    requires 2 <= radix <= 36
    ensures Positional(Digits(n, radix), radix) == n
    ensures forall i | 0 <= i < |Digits(n, radix)| :: 0 <= DigitOf(Digits(n, radix)[i]) < radix
    ensures 0 < n ==> DigitOf(Digits(n, radix)[0]) > 0
  {
    hide Positional, DigitOf, Quotient, Remainder;
    if n < radix {
      TableDigits(n);
      PositionalNothing(radix);
      PositionalAppend([], TABLE[n], radix);
      assert [] + [TABLE[n]] == [TABLE[n]];
    } else {
      DivMod(n, radix);
      DigitsMean(Quotient(n, radix), radix);
      TableDigits(Remainder(n, radix));
      PositionalAppend(Digits(Quotient(n, radix), radix), TABLE[Remainder(n, radix)], radix);
    }
  }

  /** The text of a number: a minus sign in front of the digits of a negative one, and nothing else. */
  lemma TextMeans(num: int, radix: nat)
    requires 2 <= radix <= 36
    ensures var t := Text(num, radix); t[0] == '-' <==> num < 0
    ensures var ds := if num < 0 then Text(num, radix)[1..] else Text(num, radix);
      && |ds| > 0 && Positional(ds, radix) == (if num < 0 then -num else num)
      && (forall i | 0 <= i < |ds| :: 0 <= DigitOf(ds[i]) < radix)
      && (num != 0 ==> DigitOf(ds[0]) > 0) && (num == 0 ==> |ds| == 1)
  {
    hide Digits, Positional;
    DigitsMean(if num < 0 then -num else num, radix);
    if num == 0 {
      ZeroDigits(radix);
    }
  }

  lemma PositionalNothing(radix: nat)
    ensures Positional([], radix) * radix == 0
  {}

  /** At radix 10 the text is that of %d. */
  lemma {:induction false} DigitsAtTen(n: nat)
    ensures Digits(n, 10) == Decimal(n)
  {
    assert forall d: nat | d < 10 :: TABLE[d] == DigitChar(d);
    if n >= 10 {
      DigitsAtTen(n / 10);
    }
  }

  // ---- my_itoa ----

  function Reversed(s: string): (r: string)
    ensures |r| == |s|
  {
    if s == [] then [] else Reversed(s[1..]) + [s[0]]
  }

  lemma {:induction false} ReversedAppend(s: string, c: char)
    ensures Reversed(s + [c]) == [c] + Reversed(s)
  {
    if s != [] {
      assert (s + [c])[1..] == s[1..] + [c];
      ReversedAppend(s[1..], c);
    } else {
      assert [c][1..] == [] && [] + [c] == [c] + [];
    }
  }

  lemma {:induction false} ReversedAt(s: string, k: nat)
    requires k < |s|
    ensures Reversed(s)[k] == s[|s| - 1 - k]
  {
    if k < |s| - 1 {
      ReversedAt(s[1..], k);
    }
  }

  /** The digits that the first loop has still to write. */
  function ToCome(num: nat, radix: nat): string
    requires 2 <= radix <= 36
  {
    if num == 0 then "" else Digits(num, radix)
  }

  lemma AheadNothing()
    ensures Reversed([]) == []
  {}

  lemma AheadStep(num: nat, radix: nat, done: string)
    requires 2 <= radix <= 36 && 0 < num
    ensures |ToCome(num, radix)| == |ToCome(Quotient(num, radix), radix)| + 1
    ensures ToCome(num, radix) + Reversed(done)
         == ToCome(Quotient(num, radix), radix) + Reversed(done + [TABLE[Remainder(num, radix)]])
  {
    hide Reversed, Quotient, Remainder;
    ReversedAppend(done, TABLE[Remainder(num, radix)]);
    var a, c := ToCome(Quotient(num, radix), radix), [TABLE[Remainder(num, radix)]];
    assert ToCome(num, radix) == a + c;
    assert a + c + Reversed(done) == a + (c + Reversed(done));
  }

  /** The first loop: the digits are written from the last to the first. */
  method WriteDigits(str: array<char>, start: nat, number: nat, radix: nat) returns (ptr: nat)
    requires 2 <= radix <= 36 && 0 < number && start + |Digits(number, radix)| < str.Length
    modifies str
    ensures ptr == start + |Digits(number, radix)| && str[..start] == old(str[..start])
    ensures Reversed(str[start..ptr]) == Digits(number, radix)
  {
    hide Digits, Quotient, Remainder, Reversed;
    AheadNothing();
    var num: nat := number;
    ptr := start;
    assert str[start..start] == [] && Digits(number, radix) + [] == Digits(number, radix);
    while num != 0
      invariant start <= ptr && ptr + |ToCome(num, radix)| < str.Length && str[..start] == old(str[..start])
      invariant ToCome(num, radix) + Reversed(str[start..ptr]) == Digits(number, radix)
      decreases num
    {
      AheadStep(num, radix, str[start..ptr]);
      ghost var before := str[start..ptr];
      str[ptr] := TABLE[Remainder(num, radix)];
      ptr := ptr + 1;
      assert str[start..ptr] == before + [TABLE[Remainder(num, radix)]];
      num := Quotient(num, radix);
    }
    assert [] + Reversed(str[start..ptr]) == Reversed(str[start..ptr]);
  }

  lemma ReversedSlice(was: string, now: string, from: nat, to: nat)
    requires from <= to <= |was| == |now|
    requires forall k | from <= k < to :: now[k] == was[from + to - 1 - k]
    ensures now[from..to] == Reversed(was[from..to])
  {
    forall k | 0 <= k < to - from
      ensures now[from..to][k] == Reversed(was[from..to])[k]
    {
      ReversedAt(was[from..to], k);
      assert now[from + k] == was[to - 1 - k];
    }
  }

  /** The second loop: the digits are reversed in place. */
  method ReverseInPlace(str: array<char>, from: nat, to: nat)
    requires from < to <= str.Length
    modifies str
    ensures str[from..to] == Reversed(old(str[from..to]))
    ensures forall k | 0 <= k < from || to <= k < str.Length :: str[k] == old(str[k])
  {
    hide Reversed;
    ghost var was := str[..];
    var start, ptr := from, to - 1;
    while start < ptr
      invariant from <= start <= ptr + 1 && ptr < to && start + ptr == from + to - 1
      invariant forall k | from <= k < start :: str[k] == was[from + to - 1 - k]
      invariant forall k | ptr < k < to :: str[k] == was[from + to - 1 - k]
      invariant forall k | start <= k <= ptr :: str[k] == was[k]
      invariant forall k | 0 <= k < from || to <= k < str.Length :: str[k] == was[k]
      decreases ptr - start
    {
      var temp := str[start];
      str[start] := str[ptr];
      str[ptr] := temp;
      start := start + 1;
      ptr := ptr - 1;
    }
    ReversedSlice(was, str[..], from, to);
    assert str[from..to] == str[..][from..to] && was[from..to] == old(str[from..to]);
  }

  /** my_itoa. */
  method MyItoa(num: int, str: array<char>, radix: nat)
    requires INT_MIN < num <= INT_MAX && 2 <= radix <= 36 && |Text(num, radix)| < str.Length
    modifies str
    ensures str[..|Text(num, radix)|] == Text(num, radix) && str[|Text(num, radix)|] == '\0'
  {
    hide Digits, Reversed;
    if num == 0 {
      ZeroDigits(radix);
      str[0] := '0';
      str[1] := '\0';
      assert str[..1] == ['0'];
      return;
    }
    var start, n: nat := 0, if num < 0 then -num else num;
    if num < 0 {
      str[0] := '-';
      start := 1;
    }
    var ptr := WriteDigits(str, start, n, radix);
    str[ptr] := '\0';
    ReverseInPlace(str, start, ptr);
    assert str[..ptr] == str[..start] + str[start..ptr];
  }

  lemma ZeroDigits(radix: nat)
    requires 2 <= radix <= 36
    ensures Digits(0, radix) == "0"
  {}

  // ---- str2int ----

  /** str2int. The text starts with some numeral, if only an empty one. */
  method Str2Int(pStr: array<char>, ghost s: string)
      returns (i: int, ghost n: JsonNumerals.Numeral, ghost rest: string)
    requires Holds(pStr, s)
    ensures i == Truncate(ParseNumber(s).0)
    ensures JsonNumerals.IsNumeral(n) && JsonNumerals.NumeralEnds(n, rest) && s == JsonNumerals.NumeralText(n) + rest
    ensures i == Truncate(JsonNumerals.NumeralValue(n))
  {
    var jValue := new Node();
    assert s[0..] == s;
    var end := JsonReader.ParseNumber(jValue, pStr, 0, s);
    i := jValue.valueint;
    n, rest := JsonNumerals.NumeralFound(s);
    JsonNumerals.NumeralRead(n, rest);
  }

  /** At radix 10, str2int restores the number whose text my_itoa wrote. */
  lemma ItoaRoundTrip(num: int)
    ensures IsText(Text(num, 10)) && Truncate(ParseNumber(Text(num, 10)).0) == num
  {
    DigitsAtTen(if num < 0 then -num else num);
    assert Text(num, 10) == IntText(num) && IntText(num) + [] == IntText(num);
    ParseIntText(num, []);
    JsonRoundTrip.TruncateInt(num);
  }
}
