/** The leaf parsers of cJSON on a buffer. */
module JsonReader {
  // skip, parse_number and parse_string. Cursors are positions in the buffer, and none goes behind the terminator.

  import opened CText
  import opened JsonNumbers
  import opened JsonStrings
  import opened Nodes

  /** skip. */
  method SkipBlanks(text: array<char>, p: nat, ghost s: string) returns (q: nat)
    requires Holds(text, s) && p <= |s|
    ensures p <= q <= |s| && s[q..] == Skip(s[p..])
  {
    hide Holds;
    q := p;
    At(text, s, q);
    while text[q] != '\0' && text[q] <= ' '
      invariant p <= q <= |s| < text.Length && Skip(s[q..]) == Skip(s[p..]) && text[q] == Peek(s[q..])
      decreases |s| - q
    {
      At(text, s, q);
      q := q + 1;
      At(text, s, q);
    }
    At(text, s, q);
  }

  // ---- numbers ----

  /** One digit more of a run of digits. */
  lemma DigitStep(s: string, p: nat, q: nat, n: real)
    requires p <= q < |s| && IsDigit(s[q]) && forall i | p <= i < q :: IsDigit(s[i])
    ensures Accumulate(n, s[p..q + 1]) == Accumulate(n, s[p..q]) * 10.0 + DigitValue(s[q]) as real
    ensures AccumulateInt(0, s[p..q + 1]) == AccumulateInt(0, s[p..q]) * 10 + DigitValue(s[q])
    ensures DigitRun(s[q..]) == 1 + DigitRun(s[q + 1..])
  {
    AccumulateAppend(n, s[p..q], [s[q]]);
    AccumulateIntAppend(0, s[p..q], [s[q]]);
    assert s[p..q] + [s[q]] == s[p..q + 1] && s[q..][1..] == s[q + 1..] && [s[q]][1..] == [];
  }

  /** A loop of parse_number over a run of digits. */
  method ReadDigitRun(text: array<char>, p: nat, ghost s: string, n: real) returns (q: nat, r: real)
    requires Holds(text, s) && p <= |s|
    ensures p <= q <= |s| && q - p == DigitRun(s[p..]) && r == Accumulate(n, s[p..q])
  {
    NoDigits(s, p, n);
    hide Holds, Accumulate, DigitRun, AccumulateInt;
    q, r := p, n;
    At(text, s, q);
    while IsDigit(text[q])
      invariant p <= q <= |s| < text.Length && text[q] == Peek(s[q..]) && (text[q] == '\0' <==> q == |s|)
      invariant q - p + DigitRun(s[q..]) == DigitRun(s[p..])
      invariant forall i | p <= i < q :: IsDigit(s[i])
      invariant r == Accumulate(n, s[p..q])
      decreases |s| - q
    {
      DigitStep(s, p, q, n);
      r := r * 10.0 + DigitValue(text[q]) as real;
      q := q + 1;
      At(text, s, q);
    }
    NoMoreDigits(s, q);
  }

  lemma NoDigits(s: string, p: nat, n: real)
    requires p <= |s|
    ensures Accumulate(n, s[p..p]) == n && AccumulateInt(0, s[p..p]) == 0
  {}

  lemma NoMoreDigits(s: string, q: nat)
    requires q <= |s| && !IsDigit(Peek(s[q..]))
    ensures DigitRun(s[q..]) == 0
  {}

  /** The digits of the exponent. */
  method ExponentDigits(text: array<char>, p: nat, ghost s: string) returns (q: nat, subscale: nat)
    requires Holds(text, s) && p <= |s|
    ensures p <= q <= |s| && q - p == DigitRun(s[p..]) && subscale == AccumulateInt(0, s[p..q])
  {
    hide Holds, Accumulate, DigitRun, AccumulateInt;
    NoDigits(s, p, 0.0);
    q, subscale := p, 0;
    At(text, s, q);
    while IsDigit(text[q])
      invariant p <= q <= |s| < text.Length && text[q] == Peek(s[q..]) && (text[q] == '\0' <==> q == |s|)
      invariant q - p + DigitRun(s[q..]) == DigitRun(s[p..])
      invariant forall i | p <= i < q :: IsDigit(s[i])
      invariant subscale == AccumulateInt(0, s[p..q])
      decreases |s| - q
    {
      DigitStep(s, p, q, 0.0);
      subscale := subscale * 10 + DigitValue(text[q]);
      q := q + 1;
      At(text, s, q);
    }
    NoMoreDigits(s, q);
  }

  /** The exponent of parse_number: subscale * signsubscale. */
  method ReadExponent(text: array<char>, p: nat, ghost s: string) returns (q: nat, subscale: int, signsubscale: int)
    requires Holds(text, s) && p <= |s|
    ensures signsubscale == 1 || signsubscale == -1
    ensures p <= q <= |s| && Exponent(s[p..]) == (if signsubscale == 1 then subscale else -subscale, s[q..])
  {
    hide Holds, DigitRun, AccumulateInt;
    q, subscale, signsubscale := p, 0, 1;
    At(text, s, q);
    if text[q] == 'e' || text[q] == 'E' {
      q := q + 1;
      At(text, s, q);
      if text[q] == '+' {
        q := q + 1;
      } else if text[q] == '-' {
        signsubscale := -1;
        q := q + 1;
      }
      ghost var u := q;
      assert s[u..] == AfterExponentSign(s[p..][1..]);
      q, subscale := ExponentDigits(text, q, s);
      assert s[u..][..q - u] == s[u..q];
      DropDrop(s, u, q - u);
    }
  }

  /** The digits of parse_number before the point. */
  method ReadInteger(text: array<char>, p: nat, ghost s: string) returns (q: nat, n: real)
    requires Holds(text, s) && p <= |s|
    ensures p <= q <= |s| && q - p == IntegerDigits(s[p..])
    ensures s[q..] == s[p..][q - p..] && n == Accumulate(0.0, s[p..][..q - p])
  {
    hide Holds, DigitRun;
    At(text, s, p);
    q, n := p, 0.0;
    if '1' <= text[q] <= '9' {
      q, n := ReadDigitRun(text, q, s, n);
    }
    assert s[p..q] == s[p..][..q - p];
  }

  /** The digits of parse_number behind the point. */
  method ReadFraction(text: array<char>, p: nat, ghost s: string, n: real) returns (q: nat, r: real, scale: int)
    requires Holds(text, s) && p <= |s|
    ensures p <= q <= |s| && scale + FractionDigits(s[p..]) == 0 && s[q..] == AfterFraction(s[p..])
    ensures r == if scale == 0 then n else Accumulate(n, s[p..][1..1 - scale])
  {
    hide Holds, DigitRun, Accumulate;
    q, r, scale := p, n, 0;
    At(text, s, q);
    if text[q] == '.' {
      At(text, s, q + 1);
      if IsDigit(text[q + 1]) {
        q := q + 1;
        q, r := ReadDigitRun(text, q, s, r);
        scale := p + 1 - q;
        assert s[p + 1..q] == s[p..][1..1 - scale];
        DropDrop(s, p, q - p);
      }
    }
  }

  /** The digits of parse_number before and behind the point. */
  method ReadDigits(text: array<char>, p: nat, ghost s: string) returns (q: nat, n: real, scale: int)
    requires Holds(text, s) && p <= |s|
    ensures p <= q <= |s| && scale <= 0
    ensures ParseMagnitude(s[p..]).0 == n * Pow10(Exponent(s[q..]).0 + scale)
    ensures ParseMagnitude(s[p..]).1 == Exponent(s[q..]).1
  {
    hide Holds, Exponent, Accumulate, DigitRun, Pow10, IntegerDigits, FractionDigits, AfterFraction;
    q, scale := p, 0;
    At(text, s, q);
    if text[q] == '0' {
      q := q + 1;
      At(text, s, q);
    }
    assert s[q..] == AfterZero(s[p..]);
    ghost var q1 := q;
    q, n := ReadInteger(text, q, s);
    ghost var n1 := n;
    ghost var q2 := q;
    q, n, scale := ReadFraction(text, q, s, n);
    assert FractionDigits(s[q2..]) == -scale;
  }

  /** parse_number. */
  method ParseNumber(item: Node, text: array<char>, num: nat, ghost s: string) returns (end: nat)
    requires Holds(text, s) && num <= |s|
    modifies item`kind, item`valueint, item`valuedouble
    ensures item.kind == NUMBER && item.valueint == Truncate(item.valuedouble)
    ensures num <= end <= |s| && JsonNumbers.ParseNumber(s[num..]) == (item.valuedouble, s[end..])
  {
    hide Holds, ParseMagnitude, Exponent, Truncate, Pow10;
    var q, sign := num, 1.0;
    At(text, s, q);
    if text[q] == '-' {
      sign := -1.0;
      q := q + 1;
    }
    assert s[q..] == AfterSign(s[num..]);
    var n, scale, subscale, signsubscale;
    q, n, scale := ReadDigits(text, q, s);
    q, subscale, signsubscale := ReadExponent(text, q, s);
    assert subscale * signsubscale == if signsubscale == 1 then subscale else -subscale;
    ghost var magnitude := n * Pow10(scale + subscale * signsubscale);
    assert magnitude == ParseMagnitude(AfterSign(s[num..])).0;
    n := sign * (n * Pow10(scale + subscale * signsubscale));
    assert n == if sign == 1.0 then magnitude else -magnitude;
    item.valuedouble := n;
    item.valueint := Truncate(n);
    item.kind := NUMBER;
    end := q;
  }

  // ---- strings ----

  /** parse_hex4: it looks at no character behind the first that is not a digit. */
  method ParseHex4(text: array<char>, p: nat, ghost s: string) returns (h: nat)
    requires Holds(text, s) && p <= |s|
    ensures h == Hex4(s[p..])
  {
    At(text, s, p);
    if !IsHex(text[p]) { return 0; }
    h := HexValue(text[p]);
    h := h * 16;
    At(text, s, p + 1);
    if !IsHex(text[p + 1]) { return 0; }
    h := h + HexValue(text[p + 1]);
    h := h * 16;
    At(text, s, p + 2);
    if !IsHex(text[p + 2]) { return 0; }
    h := h + HexValue(text[p + 2]);
    h := h * 16;
    At(text, s, p + 3);
    if !IsHex(text[p + 3]) { return 0; }
    h := h + HexValue(text[p + 3]);
  }

  /** The UTF-8 form of a code point, written from its last byte to its first. */
  method WriteUtf8(out: array<char>, w: nat, code: nat) returns (end: nat)
    requires 0 < code < 0x11_0000 && w + |Utf8(code)| <= out.Length
    modifies out
    ensures end == w + |Utf8(code)| && out[w..end] == Utf8(code) && out[..w] == old(out[..w])
  {
    hide Continuation;
    var uc := code;
    var len := if uc < 0x80 then 1 else if uc < 0x800 then 2 else if uc < 0x1_0000 then 3 else 4;
    var ptr := w + len;
    if len >= 4 {
      ptr := ptr - 1;
      out[ptr] := Continuation(uc);
      uc := uc / 64;
    }
    if len >= 3 {
      ptr := ptr - 1;
      out[ptr] := Continuation(uc);
      uc := uc / 64;
    }
    if len >= 2 {
      ptr := ptr - 1;
      out[ptr] := Continuation(uc);
      uc := uc / 64;
    }
    ptr := ptr - 1;
    var firstByteMark := [0, 0, 0xC0, 0xE0, 0xF0];
    out[ptr] := (firstByteMark[len] + uc) as char;
    end := ptr + len;
  }

  /** The case 'u' of parse_string, from the u on: what it writes, and the last character that it takes. */
  method ReadUnicode(text: array<char>, p: nat, ghost s: string, out: array<char>, w: nat) returns (q: nat, end: nat)
    requires Holds(text, s) && 0 < p < |s| && s[p - 1] == '\\' && s[p] == 'u' && ReadEscape(s[p - 1..]).1 > 0
    requires out != text && w + |ReadEscape(s[p - 1..]).0| <= out.Length
    modifies out
    ensures q == p - 2 + ReadEscape(s[p - 1..]).1 && end == w + |ReadEscape(s[p - 1..]).0|
    ensures out[w..end] == ReadEscape(s[p - 1..]).0 && out[..w] == old(out[..w])
  {
    hide Hex4, Utf8, SurrogatePair, FourInside;
    ghost var e := s[p - 1..];
    assert e[1] == 'u' && e[2..] == s[p + 1..];
    var uc := ParseHex4(text, p + 1, s);
    q, end := p + 4, w;
    if 0xDC00 <= uc <= 0xDFFF || uc == 0 { return; }
    if 0xD800 <= uc <= 0xDBFF {
      At(text, s, q + 1);
      if text[q + 1] != '\\' { return; }
      At(text, s, q + 2);
      if text[q + 2] != 'u' { return; }
      assert e[6] == text[q + 1] && e[7] == text[q + 2] && e[8..] == s[q + 3..];
      var uc2 := ParseHex4(text, q + 3, s);
      q := q + 6;
      if uc2 < 0xDC00 || uc2 > 0xDFFF { return; }
      uc := SurrogatePair(uc, uc2);
    }
    end := WriteUtf8(out, w, uc);
  }

  /** The first pass of parse_string. */
  method CountLiteral(text: array<char>, p: nat, ghost s: string) returns (len: nat)
    requires Holds(text, s) && p <= |s| && Whole(s[p..])
    ensures len == LiteralLength(s[p..])
  {
    hide Holds;
    var ptr := p;
    len := 0;
    At(text, s, ptr);
    while text[ptr] != '\"' && text[ptr] != '\0'
      invariant ptr <= |s| < text.Length && text[ptr] == Peek(s[ptr..]) && (text[ptr] == '\0' <==> ptr == |s|)
      invariant Whole(s[ptr..]) && len + LiteralLength(s[ptr..]) == LiteralLength(s[p..])
      decreases |s| - ptr
    {
      len := len + 1;
      if text[ptr] == '\\' {
        DropDrop(s, ptr, 2);
        ptr := ptr + 1;
      } else {
        DropDrop(s, ptr, 1);
      }
      ptr := ptr + 1;
      At(text, s, ptr);
    }
  }

  lemma PrependTwice(a: string, b: string, r: Parsed<string>)
    ensures Prepend(a, Prepend(b, r)) == Prepend(a + b, r)
  {
    if r.Accepted? {
      assert a + (b + r.value) == a + b + r.value;
    }
  }

  lemma FillStart(s: string, p: nat, out: array<char>)
    requires p <= |s| && Unescape(s[p..]).Accepted? && LiteralLength(s[p..]) < out.Length
    ensures Filling(s, p, p, out, 0)
  {
    assert out[..0] == [] && [] + Unescape(s[p..]).value == Unescape(s[p..]).value;
  }

  lemma FillEnd(s: string, p: nat, q: nat, out: array<char>, w: nat, end: nat)
    requires Filling(s, p, q, out, w) && (q == |s| == end || (q < |s| && s[q] == '\"' && end == q + 1))
    ensures Unescape(s[p..]) == Accepted(out[..w], s[end..])
  {
    assert Unescape(s[q..]) == Accepted([], s[end..]) && out[..w] + [] == out[..w];
  }

  /** What the second pass of parse_string has done when it has come to q in the text and to w in the buffer. */
  ghost predicate Filling(s: string, p: nat, q: nat, out: array<char>, w: nat)
    reads out
  {
    && p <= q <= |s| && w + LiteralLength(s[q..]) < out.Length && IsText(out[..w])
    && Unescape(s[p..]).Accepted? && Unescape(s[p..]) == Prepend(out[..w], Unescape(s[q..]))
  }

  /** One step of it. */
  lemma FillStep(s: string, p: nat, q: nat, before: string, size: nat, text: string, n: nat)
    requires IsText(s) && p <= q < |s| && |before| + LiteralLength(s[q..]) < size && IsText(before)
    requires Unescape(s[p..]).Accepted? && Unescape(s[p..]) == Prepend(before, Unescape(s[q..])) && s[q] != '\"'
    requires (text, n) == if s[q] == '\\' then ReadEscape(s[q..]) else ([s[q]], 1)
    ensures 0 < n && q + n <= |s| && |before + text| + LiteralLength(s[q + n..]) < size && IsText(before + text)
    ensures Unescape(s[p..]) == Prepend(before + text, Unescape(s[q + n..]))
  {
    hide ReadEscape;
    PrependTwice(before, text, Unescape(s[q + n..]));
    DropDrop(s, q, n);
    if s[q] == '\\' {
      EscapeShrinks(s[q..]);
      EscapeIsText(s[q..]);
    } else {
      assert s[q..][..1] == [s[q]];
    }
  }

  /** The switch of parse_string: the escape at q, written at w. */
  method WriteEscape(text: array<char>, q: nat, ghost s: string, out: array<char>, w: nat) returns (next: nat, end: nat)
    requires Holds(text, s) && q < |s| && s[q] == '\\' && ReadEscape(s[q..]).1 > 0
    requires out != text && w + |ReadEscape(s[q..]).0| < out.Length
    modifies out
    ensures next == q + ReadEscape(s[q..]).1 && end == w + |ReadEscape(s[q..]).0|
    ensures out[w..end] == ReadEscape(s[q..]).0 && out[..w] == old(out[..w])
  {
    next := q + 1;
    At(text, s, next);
    assert s[q..][1] == text[next];
    if text[next] == 'u' {
      next, end := ReadUnicode(text, next, s, out, w);
    } else {
      out[w] := Escaped(text[next]);
      end := w + 1;
    }
    next := next + 1;
  }

  /** *ptr2=0 */
  method Terminate(out: array<char>, w: nat)
    requires w < out.Length && IsText(out[..w])
    modifies out
    ensures out[..w] == old(out[..w]) && CString(out) == out[..w]
  {
    out[w] := '\0';
    UpToNulOf(out[..w], out[w + 1..]);
    assert out[..] == out[..w] + (['\0'] + out[w + 1..]);
  }

  /** The second pass of parse_string, into a buffer of the size that the first pass found. */
  method FillLiteral(text: array<char>, p: nat, ghost s: string, out: array<char>) returns (end: nat)
    requires Holds(text, s) && p <= |s| && Unescape(s[p..]).Accepted?
    requires out != text && out.Length == LiteralLength(s[p..]) + 1
    modifies out
    ensures p <= end <= |s| && Unescape(s[p..]) == Accepted(CString(out), s[end..]) && Terminated(out)
  {
    hide Holds, ReadEscape, Unescape, LiteralLength, Prepend, IsText, UpToNul;
    var q: nat, w: nat := p, 0;
    At(text, s, q);
    TextOf(text, s);
    FillStart(s, p, out);
    while text[q] != '\"' && text[q] != '\0'
      invariant Holds(text, s) && Filling(s, p, q, out, w)
      invariant |s| < text.Length && (q < |s| ==> text[q] == s[q]) && (text[q] == '\0' <==> q == |s|)
      decreases |s| - q
    {
      ghost var before := out[..w];
      if text[q] != '\\' {
        FillStep(s, p, q, before, out.Length, [s[q]], 1);
        out[w] := text[q];
        q, w := q + 1, w + 1;
        assert out[..w] == before + [s[q - 1]];
      } else {
        ghost var start, escape := w, ReadEscape(s[q..]).0;
        FillStep(s, p, q, before, out.Length, escape, ReadEscape(s[q..]).1);
        q, w := WriteEscape(text, q, s, out, w);
        assert out[..w] == out[..start] + out[start..w] == before + escape;
      }
      At(text, s, q);
    }
    end := if text[q] == '\"' then q + 1 else q;
    FillEnd(s, p, q, out, w, end);
    Terminate(out, w);
  }

  /** parse_string. It fails when the text does not start with a quote, or when no buffer can be had. */
  method ParseString(mem: Memory, item: Node, text: array<char>, p: nat, ghost s: string) returns (end: Option<nat>)
    requires Holds(text, s) && p <= |s| && !JsonStrings.ParseString(s[p..]).Truncated?
    modifies mem, item`valuestring, item`kind
    ensures mem.failures >= old(mem.failures)
    ensures end.None? <==> JsonStrings.ParseString(s[p..]).Rejected? || mem.failures > old(mem.failures)
    ensures end.None? ==> mem.live == old(mem.live) && item.valuestring == old(item.valuestring)
    ensures end.Some? ==> item.kind == STRING && Terminated(item.valuestring) && fresh(item.valuestring)
    ensures end.Some? ==> mem.live == old(mem.live) + {item.valuestring} && p <= end.value <= |s|
    ensures end.Some? ==> JsonStrings.ParseString(s[p..]) == Accepted(CString(item.valuestring), s[end.value..])
  {
    hide Holds, Unescape;
    At(text, s, p);
    if text[p] != '\"' {
      return None;
    }
    UnescapeFits(s[p + 1..]);
    var len := CountLiteral(text, p + 1, s);
    var out := mem.AllocChars(len + 1);
    if out == null {
      return None;
    }
    var q := FillLiteral(text, p + 1, s, out);
    item.valuestring := out;
    item.kind := STRING;
    end := Some(q);
  }
}
