/** Minifying a text, then reading it. */
module JsonMinifyParse {
  import opened CText
  import opened JsonNumbers
  import opened JsonStrings
  import opened Json
  import opened JsonMinify
  import opened JsonComments
  import opened JsonRoundTrip
  import JsonGrammar

  // ---- white space ----

  lemma {:induction false} MinifySkip(s: string)
    requires Minify(s).Some?
    ensures Minify(Skip(s)).Some? && Skip(Minify(s).value) == Skip(Minify(Skip(s)).value)
  {
    if s != [] && s[0] <= ' ' {
      MinifySkip(s[1..]);
      if !IsBlank(s[0]) {
        assert (s[..1] + Minify(s[1..]).value)[1..] == Minify(s[1..]).value;
      }
    }
  }

  // ---- numbers ----

  predicate IsNumberChar(c: char) {
    IsDigit(c) || c == '-' || c == '+' || c == '.' || c == 'e' || c == 'E'
  }

  ghost predicate IsNumberText(t: string) {
    forall i | 0 <= i < |t| :: IsNumberChar(t[i])
  }

  lemma {:induction false} DigitRunLocal(t: string, r: string)
    requires !IsDigit(Peek(r))
    ensures DigitRun(t + r) == DigitRun(t)
  {
    if t == [] {
      assert t + r == r;
    } else {
      assert (t + r)[1..] == t[1..] + r;
      DigitRunLocal(t[1..], r);
    }
  }

  lemma DropLocal(t: string, r: string, k: nat)
    requires k <= |t|
    ensures (t + r)[..k] == t[..k] && (t + r)[k..] == t[k..] + r
  {}

  lemma ExponentSignLocal(t: string, r: string)
    requires IsNumberText(t) && !IsNumberChar(Peek(r))
    ensures AfterExponentSign(t + r) == AfterExponentSign(t) + r && IsNumberText(AfterExponentSign(t))
    ensures (Peek(t + r) == '-') == (Peek(t) == '-')
  {
    if t == [] {
      assert t + r == r;
    } else {
      DropLocal(t, r, 1);
    }
  }

  lemma ExponentLocal(t: string, r: string)
    requires IsNumberText(t) && !IsNumberChar(Peek(r))
    ensures Exponent(t + r) == (Exponent(t).0, Exponent(t).1 + r) && IsNumberText(Exponent(t).1)
  {
    hide AfterExponentSign;
    if t == [] {
      assert t + r == r;
    } else {
      DropLocal(t, r, 1);
      ExponentSignLocal(t[1..], r);
      var u := AfterExponentSign(t[1..]);
      DigitRunLocal(u, r);
      DropLocal(u, r, DigitRun(u));
    }
  }

  lemma FractionLocal(t: string, r: string)
    requires IsNumberText(t) && !IsNumberChar(Peek(r))
    ensures FractionDigits(t + r) == FractionDigits(t) && AfterFraction(t + r) == AfterFraction(t) + r
    ensures var f := FractionDigits(t); 0 < f ==> (t + r)[1..1 + f] == t[1..1 + f]
    ensures IsNumberText(AfterFraction(t))
  {
    var s := t + r;
    if t == [] {
      assert s == r;
    } else {
      assert s[1..] == t[1..] + r;
      DigitRunLocal(t[1..], r);
      if |t| == 1 {
        assert t[1..] + r == r;
      }
      var f := FractionDigits(t);
      assert FractionDigits(s) == f;
      assert s[1 + f..] == t[1 + f..] + r && s[1..1 + f] == t[1..1 + f];
    }
  }

  lemma StartLocal(t: string, r: string)
    requires IsNumberText(t) && !IsNumberChar(Peek(r))
    ensures AfterSign(t + r) == AfterSign(t) + r && (Peek(t + r) == '-') == (Peek(t) == '-')
    ensures AfterZero(t + r) == AfterZero(t) + r
    ensures IntegerDigits(t + r) == IntegerDigits(t)
    ensures IsNumberText(AfterSign(t)) && IsNumberText(AfterZero(t))
  {
    if t == [] {
      assert t + r == r;
    } else {
      assert (t + r)[1..] == t[1..] + r;
    }
    DigitRunLocal(t, r);
  }

  lemma MagnitudeLocal(t: string, r: string)
    requires IsNumberText(t) && !IsNumberChar(Peek(r))
    ensures ParseMagnitude(t + r) == (ParseMagnitude(t).0, ParseMagnitude(t).1 + r) && IsNumberText(ParseMagnitude(t).1)
  {
    hide AfterZero, IntegerDigits, FractionDigits, AfterFraction, Exponent, IsNumberText, IsNumberChar, Scaled;
    StartLocal(t, r);
    var t1 := AfterZero(t);
    StartLocal(t1, r);
    var k := IntegerDigits(t1);
    DropLocal(t1, r, k);
    var t2 := t1[k..];
    FractionLocal(t2, r);
    ExponentLocal(AfterFraction(t2), r);
  }

  /** How a number is read depends only on the characters of numbers at the front. */
  lemma NumberLocal(t: string, r: string)
    requires IsNumberText(t) && !IsNumberChar(Peek(r))
    ensures ParseNumber(t + r) == (ParseNumber(t).0, ParseNumber(t).1 + r) && IsNumberText(ParseNumber(t).1)
  {
    hide ParseMagnitude, AfterSign;
    StartLocal(t, r);
    MagnitudeLocal(AfterSign(t), r);
  }

  function NumberRun(s: string): (k: nat)
    ensures k <= |s| && (forall i | 0 <= i < k :: IsNumberChar(s[i])) && (k < |s| ==> !IsNumberChar(s[k]))
  {
    if s != [] && IsNumberChar(s[0]) then 1 + NumberRun(s[1..]) else 0
  }

  /** What may stand behind a value: white space, and then the end, a comma or a closing bracket. */
  predicate Delimited(rest: string) {
    var c := Peek(Skip(rest));
    c == '\0' || c == ',' || c == ']' || c == '}'
  }

  lemma DelimitedEndsNumber(rest: string)
    requires Delimited(rest)
    ensures !IsNumberChar(Peek(rest))
  {}

  lemma NumberTextHead(t: string, r: string)
    requires IsNumberText(t) && !IsNumberChar(Peek(t + r))
    ensures t == []
  {}

  lemma MinifyNumber(s: string)
    requires Minify(s).Some? && Delimited(ParseNumber(s).1)
    ensures var (n, rest) := ParseNumber(s);
      && Minify(rest).Some? && Minify(s).Some?
      && (!IsNumberChar(Peek(Minify(rest).value)) ==> ParseNumber(Minify(s).value) == (n, Minify(rest).value))
  {
    hide ParseNumber, Minify, Delimited;
    var (n, rest) := ParseNumber(s);
    DelimitedEndsNumber(rest);
    var k := NumberRun(s);
    var t := s[..k];
    assert s == t + s[k..];
    NumberLocal(t, s[k..]);
    var left := ParseNumber(t).1;
    assert rest == left + s[k..];
    NumberTextHead(left, s[k..]);
    MinifyPlain(t, s[k..]);
    assert rest == s[k..];
    BehindSome(t, Minify(rest));
    var r := Minify(rest).value;
    if !IsNumberChar(Peek(r)) {
      NumberLocal(t, r);
      assert [] + r == r;
    }
  }

  lemma BehindSome(a: string, r: Option<string>)
    ensures Behind(a, r).Some? <==> r.Some?
    ensures r.Some? ==> Behind(a, r).value == a + r.value
  {}

  // ---- literals ----

  lemma LiteralSpanOfFour(s: string)
    requires FourInside(s) && LiteralSpan(s).Some?
    ensures LiteralSpan(s[4..]).Some? && LiteralSpan(s).value == 4 + LiteralSpan(s[4..]).value
  {
    assert s[1..][1..] == s[2..] && s[2..][1..] == s[3..] && s[3..][1..] == s[4..];
    assert LiteralSpan(s[1..]).Some? && LiteralSpan(s).value == 1 + LiteralSpan(s[1..]).value;
    assert LiteralSpan(s[2..]).Some? && LiteralSpan(s[1..]).value == 1 + LiteralSpan(s[2..]).value;
    assert LiteralSpan(s[3..]).Some? && LiteralSpan(s[2..]).value == 1 + LiteralSpan(s[3..]).value;
  }

  /** An escape lies within its literal. */
  lemma SpanBehindEscape(s: string)
    requires LiteralSpan(s).Some? && Peek(s) == '\\' && 0 < ReadEscape(s).1
    ensures var n := ReadEscape(s).1;
      n <= |s| && LiteralSpan(s[n..]).Some? && LiteralSpan(s).value == n + LiteralSpan(s[n..]).value
  {
    hide ReadEscape, FourInside;
    var n := ReadEscape(s).1;
    if n > 2 {
      LiteralSpanOfFour(s[2..]);
      assert s[2..][4..] == s[6..];
      if n == 12 {
        assert s[6..][2..] == s[8..] && s[8..][4..] == s[12..];
        LiteralSpanOfFour(s[8..]);
      }
    }
  }

  /** The literal at the front, closing quote included, with r behind it. */
  function Swap(s: string, r: string): string
    requires LiteralSpan(s).Some?
  {
    s[..LiteralSpan(s).value + 1] + r
  }

  lemma SwapDrop(s: string, n: nat, r: string)
    requires LiteralSpan(s).Some? && n <= |s| && LiteralSpan(s[n..]).Some?
    requires LiteralSpan(s).value == n + LiteralSpan(s[n..]).value
    ensures |Swap(s, r)| > n && Swap(s, r)[n..] == Swap(s[n..], r) && Swap(s, r)[..n] == s[..n]
    ensures s[n..][LiteralSpan(s[n..]).value + 1..] == s[LiteralSpan(s).value + 1..]
  {
    hide LiteralSpan;
  }

  lemma FourAgree(s: string, t: string, n: nat)
    requires n + 4 <= |s| && n + 4 <= |t| && s[n..n + 4] == t[n..n + 4]
    ensures FourInside(s[n..]) == FourInside(t[n..]) && Hex4(s[n..]) == Hex4(t[n..])
  {
    forall i | 0 <= i < 4 ensures s[n..][i] == t[n..][i] {
      assert s[n..][i] == s[n..n + 4][i] && t[n..][i] == t[n..n + 4][i];
    }
  }

  /** Two texts that agree on an escape and on the two characters behind it, if there are any, have the same escape. */
  lemma ReadEscapeAgrees(s: string, t: string)
    requires Peek(s) == '\\' && 0 < ReadEscape(s).1
    requires var n := ReadEscape(s).1;
      && n < |s| && n < |t| && s[..n + 1] == t[..n + 1]
      && (n == 6 && s[6] == '\\' ==> 8 <= |s| && 8 <= |t| && s[7] == t[7])
    ensures ReadEscape(t) == ReadEscape(s)
  {
    hide FourInside, Hex4, Utf8, SurrogatePair;
    var n := ReadEscape(s).1;
    assert forall i | 0 <= i <= n :: s[i] == s[..n + 1][i] && t[i] == t[..n + 1][i];
    if 6 <= n {
      FourAgree(s, t, 2);
      if n == 12 {
        FourAgree(s, t, 8);
      }
    }
  }

  lemma SwapAgrees(s: string, n: nat, r: string)
    requires LiteralSpan(s).Some? && n < |s| && LiteralSpan(s[n..]).Some?
    requires LiteralSpan(s).value == n + LiteralSpan(s[n..]).value
    ensures n < |Swap(s, r)| && s[..n + 1] == Swap(s, r)[..n + 1]
    ensures s[n] == '\\' ==> n + 2 <= |s| && n + 2 <= |Swap(s, r)| && s[n + 1] == Swap(s, r)[n + 1]
  {}

  lemma ReadEscapeLocal(s: string, r: string)
    requires LiteralSpan(s).Some? && Peek(s) == '\\' && 0 < ReadEscape(s).1
    ensures Peek(Swap(s, r)) == '\\' && ReadEscape(Swap(s, r)) == ReadEscape(s)
  {
    hide ReadEscape, LiteralSpan, Swap;
    SpanBehindEscape(s);
    var n := ReadEscape(s).1;
    SwapAgrees(s, n, r);
    assert s[0] == s[..n + 1][0];
    ReadEscapeAgrees(s, Swap(s, r));
  }

  /** How a closed literal is read does not depend on what follows it. */
  lemma {:induction false} UnescapeLocal(s: string, r: string)
    requires LiteralSpan(s).Some? && Unescape(s).Accepted?
    ensures Unescape(s).rest == s[LiteralSpan(s).value + 1..]
    ensures Unescape(Swap(s, r)) == Accepted(Unescape(s).value, r)
    decreases |s|
  {
    hide ReadEscape;
    if s[0] == '\"' {
      assert Swap(s, r)[1..] == r;
    } else if s[0] != '\\' {
      SwapDrop(s, 1, r);
      UnescapeLocal(s[1..], r);
    } else {
      hide LiteralSpan, Swap;
      var n := ReadEscape(s).1;
      SpanBehindEscape(s);
      SwapDrop(s, n, r);
      ReadEscapeLocal(s, r);
      UnescapeLocal(s[n..], r);
    }
  }

  lemma MinifyParseString(s: string)
    requires ParseString(s).Accepted? && Minify(s).Some?
    ensures var rest := ParseString(s).rest;
      Minify(rest).Some? && ParseString(Minify(s).value) == Accepted(ParseString(s).value, Minify(rest).value)
      && Peek(Minify(s).value) == '\"'
  {
    hide Unescape, LiteralSpan;
    var k := LiteralSpan(s[1..]).value;
    UnescapeLocal(s[1..], []);
    assert s[1..][k + 1..] == s[k + 2..];
    var r := Minify(s[k + 2..]).value;
    UnescapeLocal(s[1..], r);
    assert (s[..k + 2] + r)[1..] == Swap(s[1..], r) by {
      assert Swap(s[1..], r) == s[1..][..k + 1] + r;
    }
  }

  // ---- values ----

  lemma MinifyOne(s: string)
    requires s != [] && IsPlain(s[0]) && Minify(s).Some?
    ensures Minify(s[1..]).Some? && Minify(s).value == [s[0]] + Minify(s[1..]).value
  {
    assert s == [s[0]] + s[1..];
    MinifyPlain([s[0]], s[1..]);
  }

  /** White space in front, then a character that is neither white space nor anything special to the minifier. */
  lemma MinifySkipOne(s: string)
    requires Minify(s).Some? && Skip(s) != [] && IsPlain(Skip(s)[0])
    ensures var t := Skip(s);
      && Minify(t[1..]).Some?
      && Skip(Minify(s).value) == [t[0]] + Minify(t[1..]).value
  {
    hide Minify;
    MinifySkip(s);
    MinifyOne(Skip(s));
    SkipNothing([Skip(s)[0]] + Minify(Skip(s)[1..]).value);
  }

  lemma MinifyDelimited(rest: string)
    requires Delimited(rest) && Minify(rest).Some?
    ensures !IsNumberChar(Peek(Minify(rest).value))
  {
    hide Minify;
    var m := Minify(rest).value;
    if Skip(rest) == [] {
      MinifySkip(rest);
      MinifyNothing();
    } else {
      MinifySkipOne(rest);
    }
    if m != [] && m[0] > ' ' {
      SkipNothing(m);
    }
  }

  lemma AcceptedStart(s: string)
    requires ParseValue(s).Accepted?
    ensures Peek(s) > ' ' && Peek(s) != ']' && Peek(s) != '}'
  {
    hide ParseArray, ParseObject, ParseString, ParseNumber;
  }

  lemma ParseNumberFirst(s: string)
    requires Peek(s) == '-' || IsDigit(Peek(s))
    ensures var (n, rest) := ParseNumber(s); ParseValue(s) == Accepted(Number(Truncate(n), n), rest)
  {
    hide ParseNumber;
  }

  lemma MinifyWord(word: string, s: string)
    requires (word == "null" || word == "false" || word == "true") && word <= s && Minify(s).Some?
    ensures Minify(s[|word|..]).Some?
    ensures ParseValue(Minify(s).value)
         == Accepted(ParseValue(s).value, Minify(s[|word|..]).value) && ParseValue(s).Accepted?
    ensures ParseValue(s).rest == s[|word|..]
  {
    hide Minify, ParseValue;
    assert s == word + s[|word|..];
    MinifyPlain(word, s[|word|..]);
    ParseWord(word, s[|word|..]);
    ParseWord(word, Minify(s[|word|..]).value);
  }

  /** The parse of a text and of its minified form, side by side. */
  ghost predicate KeepsValue(s: string) {
    Minify(s).Some? && ParseValue(s).Accepted? ==>
      var rest := ParseValue(s).rest;
      (ParseValue(s).value.Number? ==> Delimited(rest)) ==>
        && Minify(rest).Some?
        && ParseValue(Minify(s).value) == Accepted(ParseValue(s).value, Minify(rest).value)
  }

  ghost predicate KeepsArray(s: string) {
    Peek(s) == '[' && Minify(s).Some? && ParseArray(s).Accepted? ==>
      var rest := ParseArray(s).rest;
      && Minify(rest).Some? && Peek(Minify(s).value) == '['
      && ParseArray(Minify(s).value) == Accepted(ParseArray(s).value, Minify(rest).value)
  }

  ghost predicate KeepsObject(s: string) {
    Peek(s) == '{' && Minify(s).Some? && ParseObject(s).Accepted? ==>
      var rest := ParseObject(s).rest;
      && Minify(rest).Some? && Peek(Minify(s).value) == '{'
      && ParseObject(Minify(s).value) == Accepted(ParseObject(s).value, Minify(rest).value)
  }

  ghost predicate KeepsItems(s: string) {
    Minify(s).Some? && ParseItems(s).Accepted? ==>
      var rest := ParseItems(s).rest;
      && Minify(rest).Some?
      && ParseItems(Minify(s).value) == Accepted(ParseItems(s).value, Minify(rest).value)
  }

  ghost predicate KeepsMembers(s: string) {
    Minify(s).Some? && ParseMembers(s).Accepted? ==>
      var rest := ParseMembers(s).rest;
      && Minify(rest).Some?
      && ParseMembers(Minify(s).value) == Accepted(ParseMembers(s).value, Minify(rest).value)
  }

  lemma {:induction false} MinifyKeepsValue(s: string)
    ensures KeepsValue(s)
    decreases |s|, 1
  {
    hide Minify, ParseString, ParseArray, ParseObject, ParseNumber, Delimited;
    if Minify(s).Some? && ParseValue(s).Accepted? {
      if StartsWith(s, "null") {
        MinifyWord("null", s);
      } else if StartsWith(s, "false") {
        MinifyWord("false", s);
      } else if StartsWith(s, "true") {
        MinifyWord("true", s);
      } else if Peek(s) == '\"' {
        MinifyParseString(s);
        ParseByOpening(Minify(s).value);
      } else if Peek(s) == '-' || IsDigit(Peek(s)) {
        ParseNumberFirst(s);
        if Delimited(ParseNumber(s).1) {
          MinifyNumber(s);
          MinifyDelimited(ParseNumber(s).1);
          MinifyOne(s);
          ParseNumberFirst(Minify(s).value);
        }
      } else if Peek(s) == '[' {
        MinifyKeepsArray(s);
        ParseByOpening(Minify(s).value);
      } else {
        MinifyKeepsObject(s);
        ParseByOpening(Minify(s).value);
      }
    }
  }

  lemma {:induction false} MinifyKeepsArray(s: string)
    ensures KeepsArray(s)
    decreases |s|, 0
  {
    hide Minify, ParseValue, ParseItems, Skip;
    if Peek(s) == '[' && Minify(s).Some? && ParseArray(s).Accepted? {
      MinifyOne(s);
      var t := Skip(s[1..]);
      var m := Minify(s[1..]).value;
      assert Minify(s).value[1..] == m;
      if Peek(t) == ']' {
        MinifySkipOne(s[1..]);
      } else {
        MinifySkip(s[1..]);
        MinifyKeepsItems(t);
        ItemsAcceptedStart(Minify(t).value);
        SkipTwice(m);
        LoopsSkip(Skip(m), Minify(t).value);
      }
    }
  }

  lemma ItemsAcceptedStart(s: string)
    requires ParseItems(s).Accepted?
    ensures Peek(Skip(s)) != ']'
  {
    hide ParseValue;
    AcceptedStart(Skip(s));
  }

  lemma MembersAcceptedStart(s: string)
    requires ParseMembers(s).Accepted?
    ensures Peek(Skip(s)) != '}'
  {
    hide ParseValue;
  }

  lemma {:induction false} MinifyKeepsObject(s: string)
    ensures KeepsObject(s)
    decreases |s|, 0
  {
    hide Minify, ParseValue, ParseMembers, Skip;
    if Peek(s) == '{' && Minify(s).Some? && ParseObject(s).Accepted? {
      MinifyOne(s);
      var t := Skip(s[1..]);
      var m := Minify(s[1..]).value;
      assert Minify(s).value[1..] == m;
      if Peek(t) == '}' {
        MinifySkipOne(s[1..]);
      } else {
        MinifySkip(s[1..]);
        MinifyKeepsMembers(t);
        MembersAcceptedStart(Minify(t).value);
        SkipTwice(m);
        LoopsSkip(Skip(m), Minify(t).value);
      }
    }
  }

  /** A value with white space in front, in a text and in its minified form. */
  lemma {:induction false} MinifyKeepsSpacedValue(s: string)
    requires Minify(s).Some? && ParseValue(Skip(s)).Accepted? && Delimited(ParseValue(Skip(s)).rest)
    ensures var rest := ParseValue(Skip(s)).rest;
      && Minify(rest).Some?
      && ParseValue(Skip(Minify(s).value)) == Accepted(ParseValue(Skip(s)).value, Minify(rest).value)
    decreases |s|, 2
  {
    hide Minify, ParseValue, Skip, Delimited;
    MinifySkip(s);
    MinifyKeepsValue(Skip(s));
    AcceptedStart(Minify(Skip(s)).value);
    SkipNothing(Minify(Skip(s)).value);
  }

  lemma {:induction false} MinifyKeepsItems(s: string)
    ensures KeepsItems(s)
    decreases |s|, 3
  {
    hide Minify, ParseValue, Skip;
    if Minify(s).Some? && ParseItems(s).Accepted? {
      var rest := ParseValue(Skip(s)).rest;
      MinifyKeepsSpacedValue(s);
      MinifySkipOne(rest);
      var t := Skip(rest);
      assert Skip(Minify(rest).value)[1..] == Minify(t[1..]).value;
      if Peek(t) == ',' {
        MinifyKeepsItems(t[1..]);
      }
    }
  }

  lemma {:induction false} MinifyKeepsMembers(s: string)
    ensures KeepsMembers(s)
    decreases |s|, 3
  {
    hide Minify, ParseValue, ParseString, Skip;
    if Minify(s).Some? && ParseMembers(s).Accepted? {
      MinifySkip(s);
      MinifyParseString(Skip(s));
      SkipNothing(Minify(Skip(s)).value);
      var named := ParseString(Skip(s)).rest;
      MinifySkipOne(named);
      var colon := Skip(named);
      assert Skip(Minify(named).value)[1..] == Minify(colon[1..]).value;
      MinifyKeepsSpacedValue(colon[1..]);
      var rest := ParseValue(Skip(colon[1..])).rest;
      MinifySkipOne(rest);
      var t := Skip(rest);
      assert Skip(Minify(rest).value)[1..] == Minify(t[1..]).value;
      if Peek(t) == ',' {
        MinifyKeepsMembers(t[1..]);
      }
    }
  }

  /** A document that is read once its comments are out is read as the same value, and as completely, once it is
      minified, if no comment starts with slash, star, slash. */
  lemma MinifyKeepsDocument(s: string, t: string)
    requires NoEarlyClose(s) && Decomment(s) == Some(t) && ParseWithOpts(t, true).Accepted?
    ensures Minify(s).Some? && ParseWithOpts(Minify(s).value, true) == ParseWithOpts(t, true)
  {
    hide Minify, Decomment, ParseValue, NoEarlyClose;
    MinifyDecomment(s);
    var rest := ParseValue(Skip(t)).rest;
    MinifyKeepsSpacedValue(t);
    MinifySkip(rest);
    MinifyNothing();
  }

  /** In the terms of the grammar: a text that means v once its comments are out, wherever it has white space, means v
      once it is minified. */
  lemma MinifyKeepsMeaning(s: string, t: string, v: Json, after: string)
    requires NoEarlyClose(s) && Decomment(s) == Some(t)
    requires JsonGrammar.Leads(t, v, after) && JsonGrammar.AreBlanks(after)
    ensures Minify(s).Some? && ParseWithOpts(Minify(s).value, true) == Accepted(v, [])
    ensures exists after' :: JsonGrammar.AreBlanks(after') && JsonGrammar.Leads(Minify(s).value, v, after')
  {
    hide Minify, Decomment, ParseWithOpts, NoEarlyClose, JsonGrammar.Leads, JsonGrammar.AreBlanks;
    JsonGrammar.DocumentAccepted(t, v, []);
    MinifyKeepsDocument(s, t);
    JsonGrammar.DocumentAccepted(Minify(s).value, v, []);
  }

  /** The other way round it is not so: without its white space a text may become a document that it was not. */
  lemma MinifyJoins()
    ensures var s := "1 2";
      && ParseWithOpts(s, true).Rejected? && Minify(s) == Some("12")
      && ParseWithOpts("12", true) == Accepted(Number(12, 12.0), [])
  {
    hide Minify, ParseNumber;
    JoinedMinified();
    ParseIntText(1, " 2");
    ParseIntText(12, []);
    assert IntText(1) == "1" && "1" + " 2" == "1 2" && Skip("1 2") == "1 2" && " 2"[1..] == "2" && Skip(" 2") == "2";
    assert IntText(12) == "12" && "12" + [] == "12" && Skip("12") == "12" by {
      assert Decimal(12) == Decimal(1) + ['2'];
    }
    TruncateInt(12);
  }

  lemma JoinedMinified()
    ensures Minify("1 2") == Some("12")
  {
    MinifyPlain("1", " 2");
    MinifyBlanks(" ", "2");
    MinifyPlain("2", "");
    MinifyNothing();
    assert "1" + " 2" == "1 2" && " " + "2" == " 2" && "2" + "" == "2" && "1" + "2" == "12";
  }

  /** With such a comment the document may be lost: what the code leaves of the comment is no JSON. */
  lemma EarlyCloseLosesDocument()
    ensures var s := "/*/ */1";
      && !NoEarlyClose(s) && Decomment(s) == Some(" 1") && ParseWithOpts(" 1", true) == Accepted(Number(1, 1.0), [])
      && Minify(s).Some? && ParseWithOpts(Minify(s).value, true).Rejected?
  {
    hide NoEarlyClose, Decomment, Minify, ParseNumber;
    EarlyCloseMinified();
    OneIsRead();
    assert Skip("*/1") == "*/1";
  }

  lemma OneIsRead()
    ensures ParseWithOpts(" 1", true) == Accepted(Number(1, 1.0), [])
  {
    hide ParseNumber;
    ParseIntText(1, []);
    assert IntText(1) == "1" && "1" + [] == "1" && " 1"[1..] == "1" && Skip(" 1") == "1";
    assert Truncate(1.0) == 1;
  }
}
