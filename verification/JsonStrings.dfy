/** String literals, as functions on texts. */
module JsonStrings {
  // parse_string with parse_hex4, and print_string_ptr.

  import opened CText

  // ---- hexadecimal ----

  predicate IsHex(c: char) {
    IsDigit(c) || 'A' <= c <= 'F' || 'a' <= c <= 'f'
  }

  function HexValue(c: char): (v: nat)
    requires IsHex(c)
    ensures v < 16
  {
    if IsDigit(c) then DigitValue(c)
    else if 'A' <= c <= 'F' then c as int - 'A' as int + 10
    else c as int - 'a' as int + 10
  }

  /** The digits that %x prints. */
  function HexChar(d: nat): (c: char)
    requires d < 16
    ensures IsHex(c) && HexValue(c) == d
  {
    if d < 10 then DigitChar(d) else 'a' + (d - 10) as char
  }

  /** parse_hex4: the value of four hexadecimal digits, and 0 when one of them is something else. */
  function Hex4(s: string): (v: nat)
    ensures v < 0x1_0000
  {
    if 4 <= |s| && IsHex(s[0]) && IsHex(s[1]) && IsHex(s[2]) && IsHex(s[3]) then
      ((HexValue(s[0]) * 16 + HexValue(s[1])) * 16 + HexValue(s[2])) * 16 + HexValue(s[3])
    else 0
  }

  // ---- UTF-8, RFC 3629 ----

  /** The bytes that parse_string writes for a code point; firstByteMark gives the length in the first byte. Or-ing with
      0x80 and masking with 0xBF keeps the low six bits, and shifting by 6 divides by 64. */
  function Utf8(uc: nat): (r: string)
    requires 0 < uc < 0x11_0000
    ensures 1 <= |r| <= 4 && forall i | 0 <= i < |r| :: '\0' < r[i] < 256 as char
  {
    if uc < 0x80 then [uc as char]
    else if uc < 0x800 then [(0xC0 + uc / 64) as char, Continuation(uc)]
    else if uc < 0x1_0000 then [(0xE0 + uc / 64 / 64) as char, Continuation(uc / 64), Continuation(uc)]
    else [(0xF0 + uc / 64 / 64 / 64) as char, Continuation(uc / 64 / 64), Continuation(uc / 64), Continuation(uc)]
  }

  function Continuation(uc: nat): (c: char)
    ensures 0x80 <= c as int < 0xC0
  {
    (0x80 + uc % 64) as char
  }

  predicate IsSurrogate(uc: int) {
    0xD800 <= uc <= 0xDFFF
  }

  /** A decoder by the table of section 3 of RFC 3629: the code point at the front, 0 when there is none, and the number
      of bytes that it takes. Overlong forms and surrogates are not accepted. */
  function Utf8Decode(s: string): (nat, nat) {
    if s == [] then (0, 0)
    else
      var a := s[0] as int;
      if a < 0x80 then (a, 1)
      else if 0xC2 <= a < 0xE0 && Trails(s, 1) then ((a - 0xC0) * 64 + Low(s, 1), 2)
      else if 0xE0 <= a < 0xF0 && Trails(s, 2) then
        var uc := (a - 0xE0) * 4096 + Low(s, 1) * 64 + Low(s, 2);
        if 0x800 <= uc && !IsSurrogate(uc) then (uc, 3) else (0, 0)
      else if 0xF0 <= a < 0xF5 && Trails(s, 3) then
        var uc := (a - 0xF0) * 262144 + Low(s, 1) * 4096 + Low(s, 2) * 64 + Low(s, 3);
        if 0x1_0000 <= uc < 0x11_0000 then (uc, 4) else (0, 0)
      else (0, 0)
  }

  predicate Trails(s: string, n: nat) {
    n < |s| && forall i | 1 <= i <= n :: 0x80 <= s[i] as int < 0xC0
  }

  function Low(s: string, i: nat): nat
    requires i < |s| && 0x80 <= s[i] as int
  {
    s[i] as int - 0x80
  }

  /** What is written for a scalar value decodes to it, whatever follows. */
  lemma Utf8Decodes(uc: nat, rest: string)
    requires 0 < uc < 0x11_0000 && !IsSurrogate(uc)
    ensures Utf8Decode(Utf8(uc) + rest) == (uc, |Utf8(uc)|)
  {
    var r := Utf8(uc);
    var s := r + rest;
    assert s[0] == r[0];
    if uc >= 0x80 {
      assert s[1] == r[1] && 0x80 <= s[1] as int < 0xC0;
      if uc >= 0x800 {
        assert s[2] == r[2] && 0x80 <= s[2] as int < 0xC0;
        if uc >= 0x1_0000 {
          assert s[3] == r[3] && 0x80 <= s[3] as int < 0xC0;
        }
      }
    }
  }

  // ---- parse_string ----

  function Prepend(a: string, r: Parsed<string>): Parsed<string> {
    match r
    case Accepted(value, rest) => Accepted(a + value, rest)
    case Rejected => Rejected
    case Truncated => Truncated
  }

  /** The four characters that \u steps over, whatever they are, lie within the literal. */
  predicate FourInside(s: string) {
    4 <= |s| && forall i | 0 <= i < 4 :: s[i] != '\"' && s[i] != '\\'
  }

  /** The character that an escape other than \u stands for. */
  function Escaped(c: char): char {
    match c
    case 'b' => '\U{08}'
    case 'f' => '\U{0C}'
    case 'n' => '\n'
    case 'r' => '\r'
    case 't' => '\t'
    case _ => c
  }

  /** The code point of two surrogates: ten bits from each. */
  function SurrogatePair(uc: nat, uc2: nat): (r: nat)
    ensures 0x1_0000 <= r < 0x11_0000
  {
    0x1_0000 + uc % 1024 * 1024 + uc2 % 1024
  }

  /** One escape at the front: the bytes that it stands for, none when it is an invalid \u escape, and the number of
      characters that it takes, 0 when the literal ends inside it. */
  function ReadEscape(s: string): (r: (string, nat))
    requires Peek(s) == '\\'
    ensures r.1 <= |s| && (r.1 == 0 || r.1 == 2 || r.1 == 6 || r.1 == 12)
    ensures 6 <= r.1 ==> FourInside(s[2..])
    ensures r.1 == 12 ==> s[6] == '\\' && FourInside(s[8..])
    ensures |r.0| <= if r.1 == 2 then 1 else if r.1 == 6 then 3 else 4
  {
    if |s| < 2 then ([], 0)
    else if s[1] != 'u' then ([Escaped(s[1])], 2)
    else if !FourInside(s[2..]) then ([], 0)
    else
      var uc := Hex4(s[2..]);
      if 0xDC00 <= uc <= 0xDFFF || uc == 0 then ([], 6)
      else if 0xD800 <= uc <= 0xDBFF then
        if |s| < 8 || s[6] != '\\' || s[7] != 'u' then ([], 6)
        else if !FourInside(s[8..]) then ([], 0)
        else
          var uc2 := Hex4(s[8..]);
          if uc2 < 0xDC00 || 0xDFFF < uc2 then ([], 12)
          else (Utf8(SurrogatePair(uc, uc2)), 12)
      else (Utf8(uc), 6)
  }

  /** The second pass of parse_string, from behind the opening quote on: the text of the literal, and what lies behind
      the closing quote. A literal that the end of the text cuts short outside an escape is accepted. */
  function Unescape(s: string): (r: Parsed<string>)
    ensures r.Accepted? ==> |r.rest| <= |s|
    ensures !r.Rejected?
  {
    if s == [] then Accepted([], [])
    else if s[0] == '\"' then Accepted([], s[1..])
    else if s[0] != '\\' then Prepend(s[..1], Unescape(s[1..]))
    else
      var (text, n) := ReadEscape(s);
      if n == 0 then Truncated else Prepend(text, Unescape(s[n..]))
  }

  /** The first pass of parse_string: the number of characters that the buffer is made for, escapes counted as one. */
  function LiteralLength(s: string): nat {
    if s == [] || s[0] == '\"' then 0
    else if s[0] == '\\' then if |s| < 2 then 1 else 1 + LiteralLength(s[2..])
    else 1 + LiteralLength(s[1..])
  }

  /** parse_string. */
  function ParseString(s: string): (r: Parsed<string>)
    ensures r.Accepted? ==> |r.rest| < |s|
  {
    if Peek(s) != '\"' then Rejected else Unescape(s[1..])
  }

  lemma LiteralLengthOfFour(s: string)
    requires FourInside(s)
    ensures LiteralLength(s) == 4 + LiteralLength(s[4..])
  {
    assert LiteralLength(s) == 1 + LiteralLength(s[1..]);
    assert s[1..][1..] == s[2..] && LiteralLength(s[1..]) == 1 + LiteralLength(s[2..]);
    assert s[2..][1..] == s[3..] && LiteralLength(s[2..]) == 1 + LiteralLength(s[3..]);
    assert s[3..][1..] == s[4..] && LiteralLength(s[3..]) == 1 + LiteralLength(s[4..]);
  }

  /** The first pass stays in the text: no backslash ends it. */
  ghost predicate Whole(s: string) {
    if s == [] || s[0] == '\"' then true
    else if s[0] == '\\' then |s| >= 2 && Whole(s[2..])
    else Whole(s[1..])
  }

  lemma WholeOfFour(s: string)
    requires FourInside(s)
    ensures Whole(s) == Whole(s[4..])
  {
    assert Whole(s) == Whole(s[1..]);
    assert s[1..][1..] == s[2..] && Whole(s[1..]) == Whole(s[2..]);
    assert s[2..][1..] == s[3..] && Whole(s[2..]) == Whole(s[3..]);
    assert s[3..][1..] == s[4..] && Whole(s[3..]) == Whole(s[4..]);
  }

  /** An escape stands for no more bytes than the first pass counted for it. */
  lemma EscapeShrinks(s: string)
    requires Peek(s) == '\\' && ReadEscape(s).1 > 0
    ensures |ReadEscape(s).0| + LiteralLength(s[ReadEscape(s).1..]) <= LiteralLength(s)
    ensures Whole(s) == Whole(s[ReadEscape(s).1..])
  {
    var (text, n) := ReadEscape(s);
    if n >= 6 {
      LiteralLengthOfFour(s[2..]);
      WholeOfFour(s[2..]);
      assert s[2..][4..] == s[6..];
      if n == 12 {
        LiteralLengthOfFour(s[8..]);
        WholeOfFour(s[8..]);
        assert s[6..][2..] == s[8..] && s[8..][4..] == s[12..];
      }
    }
  }

  /** The second pass never writes more than the first pass counted, and the first pass stays in the text. */
  lemma {:induction false} UnescapeFits(s: string)
    ensures Unescape(s).Accepted? ==> |Unescape(s).value| <= LiteralLength(s) && Whole(s)
    decreases |s|
  {
    hide ReadEscape;
    if s == [] || s[0] == '\"' {
    } else if s[0] != '\\' {
      UnescapeFits(s[1..]);
    } else {
      var (text, n) := ReadEscape(s);
      if n > 0 {
        EscapeShrinks(s);
        UnescapeFits(s[n..]);
      }
    }
  }

  /** The bytes that an escape of a text stands for are text. */
  lemma EscapeIsText(s: string)
    requires IsText(s) && Peek(s) == '\\'
    ensures IsText(ReadEscape(s).0)
  {
    hide Hex4, Utf8, SurrogatePair;
  }

  /** e is a \u escape of the code point uc: four hexadecimal digits, or a surrogate pair of them. */
  ghost predicate IsUnicodeEscape(e: string, uc: nat) {
    if uc < 0x1_0000 then |e| == 6 && IsHexEscape(e, uc)
    else
      && |e| == 12
      && IsHexEscape(e[..6], 0xD800 + (uc - 0x1_0000) / 1024)
      && IsHexEscape(e[6..], 0xDC00 + (uc - 0x1_0000) % 1024)
  }

  ghost predicate IsHexEscape(e: string, v: nat) {
    && |e| == 6 && e[0] == '\\' && e[1] == 'u'
    && (forall i | 2 <= i < 6 :: IsHex(e[i]))
    && Hex4(e[2..]) == v
  }

  lemma HexEscapeAt(s: string, e: string, v: nat)
    requires IsHexEscape(e, v) && e <= s
    ensures FourInside(s[2..]) && Hex4(s[2..]) == v
  {
    assert s[2..][0] == e[2] && s[2..][1] == e[3] && s[2..][2] == e[4] && s[2..][3] == e[5];
  }

  lemma SurrogatePairOf(v: nat)
    requires v < 0x10_0000
    ensures SurrogatePair(0xD800 + v / 1024, 0xDC00 + v % 1024) == 0x1_0000 + v
  {}

  /** An escaped scalar value other than zero is read as its UTF-8 form. */
  lemma UnescapeUnicode(e: string, uc: nat, rest: string)
    requires 0 < uc < 0x11_0000 && !IsSurrogate(uc) && IsUnicodeEscape(e, uc)
    ensures Unescape(e + rest) == Prepend(Utf8(uc), Unescape(rest))
  {
    hide Utf8, Hex4, FourInside, SurrogatePair;
    var s := e + rest;
    if uc < 0x1_0000 {
      HexEscapeAt(s, e, uc);
      assert s[6..] == rest;
      assert ReadEscape(s) == (Utf8(uc), 6);
    } else {
      var v := uc - 0x1_0000;
      HexEscapeAt(s, e[..6], 0xD800 + v / 1024);
      assert e[6..] <= s[6..] && s[6..][2..] == s[8..] && s[12..] == rest;
      HexEscapeAt(s[6..], e[6..], 0xDC00 + v % 1024);
      assert s[6] == e[6..][0] && s[7] == e[6..][1];
      SurrogatePairOf(v);
      assert ReadEscape(s) == (Utf8(uc), 12);
    }
  }

  function Concat(ss: seq<string>): string {
    if ss == [] then [] else ss[0] + Concat(ss[1..])
  }

  /** A literal made of escaped scalar values other than zero is read as the UTF-8 text of those values. */
  lemma {:induction false} UnescapeUnicodes(es: seq<string>, ucs: seq<nat>, rest: string)
    requires |es| == |ucs|
    requires forall i | 0 <= i < |ucs| ::
      0 < ucs[i] < 0x11_0000 && !IsSurrogate(ucs[i]) && IsUnicodeEscape(es[i], ucs[i])
    ensures Unescape(Concat(es) + (['\"'] + rest))
         == Accepted(Concat(seq(|ucs|, i requires 0 <= i < |ucs| => Utf8(ucs[i]))), rest)
    decreases |es|
  {
    hide IsUnicodeEscape, Utf8;
    var tail := ['\"'] + rest;
    var us := seq(|ucs|, i requires 0 <= i < |ucs| => Utf8(ucs[i]));
    if es == [] {
      assert Concat(es) + tail == tail;
    } else {
      assert Concat(es) + tail == es[0] + (Concat(es[1..]) + tail);
      UnescapeUnicode(es[0], ucs[0], Concat(es[1..]) + tail);
      UnescapeUnicodes(es[1..], ucs[1..], rest);
      assert us[1..] == seq(|ucs[1..]|, i requires 0 <= i < |ucs[1..]| => Utf8(ucs[1..][i]));
    }
  }

  // ---- print_string_ptr ----

  /** One character of a printed literal. */
  function EscapeChar(c: char): (e: string)
    requires c < 256 as char
    ensures 1 <= |e| <= 6
  {
    if c > 31 as char && c != '\"' && c != '\\' then [c]
    else match c
      case '\\' => ['\\', '\\']
      case '\"' => ['\\', '\"']
      case '\U{08}' => ['\\', 'b']
      case '\U{0C}' => ['\\', 'f']
      case '\n' => ['\\', 'n']
      case '\r' => ['\\', 'r']
      case '\t' => ['\\', 't']
      case _ => ['\\', 'u', '0', '0', HexChar(c as int / 16), HexChar(c as int % 16)]
  }

  function Escape(s: string): string
    requires IsText(s)
  {
    if s == [] then [] else EscapeChar(s[0]) + Escape(s[1..])
  }

  /** print_string_ptr. */
  function PrintString(s: string): string
    requires IsText(s)
  {
    ['\"'] + Escape(s) + ['\"']
  }

  /** The counting pass of print_string_ptr: one for each character, one more for a short escape, five more for another
      control character. */
  function PrintedLength(s: string): nat
    requires IsText(s)
  {
    if s == [] then 0
    else
      (if s[0] in "\"\\\U{08}\U{0C}\n\r\t" then 2 else if s[0] < 32 as char then 6 else 1) + PrintedLength(s[1..])
  }

  /** The writing pass writes exactly what the counting pass counted. */
  lemma {:induction false} EscapeFits(s: string)
    requires IsText(s)
    ensures |Escape(s)| == PrintedLength(s)
  {
    if s != [] {
      EscapeFits(s[1..]);
    }
  }

  lemma ReadEscapeOfChar(c: char, rest: string)
    requires '\0' < c < 256 as char && Peek(EscapeChar(c)) == '\\'
    ensures Peek(EscapeChar(c) + rest) == '\\' && ReadEscape(EscapeChar(c) + rest) == ([c], |EscapeChar(c)|)
  {
    var e := EscapeChar(c);
    var s := e + rest;
    assert s[0] == e[0] && s[1] == e[1];
    if |e| == 6 {
      assert s[2..][0] == '0' && s[2..][1] == '0' && s[2..][2] == e[4] && s[2..][3] == e[5];
      assert c as int / 16 < 2;
      assert FourInside(s[2..]) && Hex4(s[2..]) == c as int;
      assert Utf8(c as int) == [c];
    }
  }

  lemma UnescapeOne(c: char, rest: string)
    requires '\0' < c < 256 as char
    ensures Unescape(EscapeChar(c) + rest) == Prepend([c], Unescape(rest))
  {
    hide ReadEscape;
    var e := EscapeChar(c);
    assert (e + rest)[|e|..] == rest;
    if e[0] == '\\' {
      ReadEscapeOfChar(c, rest);
    } else {
      assert (e + rest)[..1] == [c];
    }
  }

  /** parse_string reads back what print_string_ptr printed, and stops right behind the closing quote. */
  lemma {:induction false} UnescapeEscape(s: string, rest: string)
    requires IsText(s)
    ensures Unescape(Escape(s) + (['\"'] + rest)) == Accepted(s, rest)
  {
    var tail := ['\"'] + rest;
    if s == [] {
      assert Escape(s) + tail == tail;
    } else {
      assert Escape(s) + tail == EscapeChar(s[0]) + (Escape(s[1..]) + tail);
      UnescapeOne(s[0], Escape(s[1..]) + tail);
      UnescapeEscape(s[1..], rest);
      assert [s[0]] + s[1..] == s;
    }
  }

  lemma ParsePrintString(s: string, rest: string)
    requires IsText(s)
    ensures ParseString(PrintString(s) + rest) == Accepted(s, rest)
  {
    hide Unescape, Escape;
    UnescapeEscape(s, rest);
    var body := Escape(s);
    assert ['\"'] + body + ['\"'] + rest == ['\"'] + (body + (['\"'] + rest));
    assert (PrintString(s) + rest)[1..] == body + (['\"'] + rest);
  }
}
