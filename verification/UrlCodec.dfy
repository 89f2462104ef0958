/** URLEncode of ota.c and httpdecode of common.c. */
module UrlCodec {
  import opened CText
  import opened JsonStrings

  ghost predicate IsBytes(s: string) {
    forall i | 0 <= i < |s| :: s[i] < 256 as char
  }

  // ---- encoding ----

  /** The characters that are copied: the comparisons are strict at the top, so that Z, z and 9 are not among them. */
  predicate IsCopied(c: char) {
    'A' <= c < 'Z' || 'a' <= c < 'z' || '0' <= c < '9' || c == '.' || c == '-' || c == '_' || c == '*'
  }

  /** The digits that %X prints. */
  function UpperHex(d: nat): (c: char)
    requires d < 16
    ensures IsHex(c) && HexValue(c) == d
  {
    if d < 10 then DigitChar(d) else 'A' + (d - 10) as char
  }

  function EncodeChar(c: char): (e: string)
    requires c < 256 as char
    ensures |e| == 1 || |e| == 3
  {
    if IsCopied(c) then [c]
    else if c == ' ' then ['+']
    else ['%', UpperHex(c as int / 16), UpperHex(c as int % 16)]
  }

  function Encode(s: string): string
    requires IsBytes(s)
  {
    if s == [] then [] else EncodeChar(s[0]) + Encode(s[1..])
  }

  const DIGITS := "0123456789ABCDEF"

  /** A percent sign and two digits of a code. */
  ghost predicate IsEscape(e: string, code: nat) {
    exists high: nat, low: nat ::
      high < 16 && low < 16 && e == ['%', DIGITS[high], DIGITS[low]] && code == 16 * high + low
  }

  /** What stands for a character in an encoded text: itself, a plus for a space, or an escape of its code. */
  ghost predicate Encodes(e: string, c: char) {
    if 'A' <= c <= 'Y' || 'a' <= c <= 'y' || '0' <= c <= '8' || c == '.' || c == '-' || c == '_' || c == '*' then
      e == [c]
    else if c == ' ' then e == "+"
    else IsEscape(e, c as int)
  }

  /** t is made of such parts, one for each character of s. */
  ghost predicate IsEncoding(t: string, s: string) {
    exists es: seq<string> :: |es| == |s| && t == Concat(es) && forall i | 0 <= i < |s| :: Encodes(es[i], s[i])
  }

  lemma UpperHexIs(d: nat)
    requires d < 16
    ensures UpperHex(d) == DIGITS[d]
  {}

  lemma EscapeIs(e: string, code: nat)
    requires code < 256
    ensures IsEscape(e, code) <==> e == ['%', UpperHex(code / 16), UpperHex(code % 16)]
  {
    UpperHexIs(code / 16);
    UpperHexIs(code % 16);
    hide UpperHex;
    assert code == 16 * (code / 16) + code % 16;
    if IsEscape(e, code) {
      var high: nat, low: nat :|
        high < 16 && low < 16 && e == ['%', DIGITS[high], DIGITS[low]] && code == 16 * high + low;
      assert high == code / 16 && low == code % 16;
    }
  }

  /** Exactly one text stands for a character. */
  lemma EncodesIs(e: string, c: char)
    requires c < 256 as char
    ensures Encodes(e, c) <==> e == EncodeChar(c)
  {
    EscapeIs(e, c as int);
    hide IsEscape, UpperHex;
  }

  lemma {:induction false} ConcatEncodings(es: seq<string>, s: string)
    requires IsBytes(s) && |es| == |s| && forall i | 0 <= i < |s| :: Encodes(es[i], s[i])
    ensures Concat(es) == Encode(s)
  {
    hide Encodes, EncodeChar;
    if s != [] {
      EncodesIs(es[0], s[0]);
      ConcatEncodings(es[1..], s[1..]);
    }
  }

  /** URLEncode's text is the one text that is made of such parts. */
  lemma {:induction false} EncodeIs(s: string, t: string)
    requires IsBytes(s)
    ensures t == Encode(s) <==> IsEncoding(t, s)
  {
    hide Encodes, EncodeChar, Encode, Concat;
    var es := seq(|s|, i requires 0 <= i < |s| => EncodeChar(s[i]));
    forall i | 0 <= i < |s| ensures Encodes(es[i], s[i]) {
      EncodesIs(es[i], s[i]);
    }
    ConcatEncodings(es, s);
    if IsEncoding(t, s) {
      var ds: seq<string> :| |ds| == |s| && t == Concat(ds) && forall i | 0 <= i < |s| :: Encodes(ds[i], s[i]);
      ConcatEncodings(ds, s);
    }
  }

  /** The characters of an encoded text. */
  ghost predicate IsUrlText(t: string) {
    forall i | 0 <= i < |t| ::
      'A' <= t[i] <= 'Z' || 'a' <= t[i] <= 'z' || '0' <= t[i] <= '9' || t[i] in ".-_*+%"
  }

  lemma {:induction false} EncodedIsUrlText(s: string)
    requires IsBytes(s)
    ensures IsUrlText(Encode(s))
  {
    if s != [] {
      EncodedIsUrlText(s[1..]);
      EncodedCharIsUrlText(s[0]);
      hide EncodeChar;
    }
  }

  lemma EncodedCharIsUrlText(c: char)
    requires c < 256 as char
    ensures IsUrlText(EncodeChar(c))
  {
    if !IsCopied(c) && c != ' ' {
      UpperHexIs(c as int / 16);
      UpperHexIs(c as int % 16);
    }
  }

  lemma {:induction false} EncodeAppend(s: string, c: char)
    requires IsBytes(s) && c < 256 as char
    ensures Encode(s + [c]) == Encode(s) + EncodeChar(c)
  {
    if s == [] {
      assert [c][1..] == [] && EncodeChar(c) + [] == EncodeChar(c);
    } else {
      assert (s + [c])[1..] == s[1..] + [c];
      EncodeAppend(s[1..], c);
    }
  }

  /** The encoded text of a prefix is shorter, unless it is all. */
  lemma {:induction false} EncodeGrows(s: string, i: nat)
    requires IsBytes(s) && i < |s|
    ensures |Encode(s[..i])| + |EncodeChar(s[i])| <= |Encode(s)|
  {
    if i == 0 {
    } else {
      assert s[..i][1..] == s[1..][..i - 1];
      EncodeGrows(s[1..], i - 1);
    }
  }

  /** One character of URLEncode; there may be no room for the three characters of an escape and the terminator. */
  method EncodeNext(ch: char, result: array<char>, j: nat, resultSize: nat) returns (ok: bool, end: nat)
    requires ch < 256 as char && j < resultSize <= result.Length
    modifies result
    ensures ok <==> |EncodeChar(ch)| == 1 || j + 3 < resultSize
    ensures ok ==> end == j + |EncodeChar(ch)| <= resultSize && result[..end] == old(result[..j]) + EncodeChar(ch)
  {
    ok, end := true, j;
    if 'A' <= ch < 'Z' || 'a' <= ch < 'z' || '0' <= ch < '9' {
      result[j] := ch;
      end := j + 1;
    } else if ch == ' ' {
      result[j] := '+';
      end := j + 1;
    } else if ch == '.' || ch == '-' || ch == '_' || ch == '*' {
      result[j] := ch;
      end := j + 1;
    } else if j + 3 < resultSize {
      Put(result, j, ['%', UpperHex(ch as int / 16), UpperHex(ch as int % 16)]);
      end := j + 3;
      assert result[..end] == result[..j] + result[j..end];
    } else {
      ok := false;
    }
  }

  /** The arguments that URLEncode accepts. */
  predicate Usable(str: array?<char>, strSize: int, result: array?<char>, resultSize: int) {
    str != null && result != null && strSize > 0 && resultSize > 0
  }

  /** URLEncode. When the result buffer is longer than the encoded text, that is the result, with its terminator, and
      its length is returned. Otherwise 0 is returned when the next character needs an escape that does not fit, or the
      text is cut off where the buffer is full; as the terminator then stands at resultSize, the buffer must have that
      place. */
  method UrlEncode(str: array?<char>, strSize: int, result: array?<char>, resultSize: int)
      returns (j: nat, ghost k: nat)
    requires str != null && result != null ==> strSize <= str.Length && resultSize <= result.Length && str != result
    requires Usable(str, strSize, result, resultSize) ==> IsBytes(str[..strSize])
    requires Usable(str, strSize, result, resultSize) ==>
      resultSize < result.Length || |Encode(str[..strSize])| < resultSize
    modifies result
    ensures !Usable(str, strSize, result, resultSize) ==> j == 0 && (result != null ==> result[..] == old(result[..]))
    ensures Usable(str, strSize, result, resultSize) && |Encode(str[..strSize])| < resultSize ==>
      j == |Encode(str[..strSize])| && result[..j] == Encode(str[..strSize]) && result[j] == '\0'
    ensures 0 < j ==> Usable(str, strSize, result, resultSize) && k <= strSize && j < result.Length
    ensures 0 < j ==> result[..j] == Encode(str[..k]) && result[j] == '\0' && (k == strSize || j == resultSize)
    ensures 0 < j ==> IsEncoding(result[..j], str[..k]) && IsUrlText(result[..j])
    ensures Usable(str, strSize, result, resultSize) && j == 0 ==>
      k < strSize && |EncodeChar(str[k])| == 3 && |Encode(str[..k])| < resultSize <= |Encode(str[..k])| + 3
  {
    hide Encode, EncodeChar, IsEncoding, IsUrlText;
    j, k := 0, 0;
    if str == null || result == null || strSize <= 0 || resultSize <= 0 {
      return;
    }
    ghost var s := str[..strSize];
    assert s[..0] == [];
    EncodeNothing();
    var i := 0;
    while i < strSize && j < resultSize
      invariant 0 <= i <= strSize && j <= resultSize && str[..strSize] == s && k == i
      invariant i <= j == |Encode(s[..i])| <= |Encode(s)| && result[..j] == Encode(s[..i])
      invariant i == strSize ==> j == |Encode(s)|
      decreases strSize - i
    {
      EncodeGrows(s, i);
      EncodeAppend(s[..i], s[i]);
      assert s[..i + 1] == s[..i] + [s[i]] && s[..strSize] == s;
      var ok;
      ok, j := EncodeNext(str[i], result, j, resultSize);
      if !ok {
        assert s[i] == str[i] && s[..i] == str[..i];
        return 0, i;
      }
      i := i + 1;
      k := i;
    }
    assert s[..strSize] == s && str[..k] == s[..k];
    result[j] := '\0';
    EncodeIs(str[..k], result[..j]);
    EncodedIsUrlText(str[..k]);
  }

  lemma EncodeNothing()
    ensures Encode([]) == []
  {}

  // ---- decoding ----

  /** Two hexadecimal digits follow each percent sign. */
  predicate WellEncoded(s: string) {
    if s == [] then true
    else if s[0] == '%' then |s| >= 3 && IsHex(s[1]) && IsHex(s[2]) && WellEncoded(s[3..])
    else WellEncoded(s[1..])
  }

  function Decode(s: string): (r: string)
    requires WellEncoded(s)
    ensures |r| <= |s|
  {
    if s == [] then []
    else if s[0] == '%' then [(HexValue(s[1]) * 16 + HexValue(s[2])) as char] + Decode(s[3..])
    else if s[0] == '+' then [' '] + Decode(s[1..])
    else [s[0]] + Decode(s[1..])
  }

  /** A hexadecimal digit, in capitals or not, and its value. */
  ghost predicate IsDigitOf(c: char, d: nat) {
    d < 16 && (c == "0123456789ABCDEF"[d] || c == "0123456789abcdef"[d])
  }

  /** What an encoded text has for a character: a percent sign and two digits of its code, a plus for a space, or
      itself. */
  ghost predicate StandsFor(e: string, c: char) {
    if |e| == 3 then
      e[0] == '%' && exists high: nat, low: nat ::
        IsDigitOf(e[1], high) && IsDigitOf(e[2], low) && c as int == 16 * high + low
    else
      |e| == 1 && e != "%" && c == if e == "+" then ' ' else e[0]
  }

  /** The text s is made of such parts, one for each character of t. */
  ghost predicate Decodes(s: string, t: string) {
    exists es: seq<string> ::
      |es| == |t| && s == Concat(es)
      && forall i | 0 <= i < |t| :: StandsFor(es[i], t[i])
  }

  lemma DigitIs(c: char, d: nat)
    ensures IsDigitOf(c, d) <==> IsHex(c) && HexValue(c) == d
  {
    if d < 16 {
      assert "0123456789ABCDEF"[d] == if d < 10 then '0' + d as char else 'A' + (d - 10) as char;
      assert "0123456789abcdef"[d] == if d < 10 then '0' + d as char else 'a' + (d - 10) as char;
    }
  }

  /** One part of an encoded text, and what it is decoded as. */
  lemma PartDecoded(e: string, c: char, rest: string)
    requires StandsFor(e, c) && WellEncoded(rest)
    ensures WellEncoded(e + rest) && Decode(e + rest) == [c] + Decode(rest)
  {
    var s := e + rest;
    assert s[|e|..] == rest && s[0] == e[0];
    if |e| == 3 {
      var high: nat, low: nat :| IsDigitOf(e[1], high) && IsDigitOf(e[2], low) && c as int == 16 * high + low;
      DigitIs(e[1], high);
      DigitIs(e[2], low);
      assert s[1] == e[1] && s[2] == e[2];
    }
  }

  lemma {:induction false} PartsDecoded(es: seq<string>, t: string)
    requires |es| == |t| && forall i | 0 <= i < |t| :: StandsFor(es[i], t[i])
    ensures WellEncoded(Concat(es)) && Decode(Concat(es)) == t
  {
    hide StandsFor;
    if t != [] {
      PartsDecoded(es[1..], t[1..]);
      PartDecoded(es[0], t[0], Concat(es[1..]));
    }
  }

  lemma PartFound(s: string) returns (e: string, c: char)
    requires s != [] && WellEncoded(s)
    ensures StandsFor(e, c) && 0 < |e| <= |s| && s == e + s[|e|..] && WellEncoded(s[|e|..])
    ensures Decode(s) == [c] + Decode(s[|e|..])
  {
    if s[0] == '%' {
      e, c := s[..3], (HexValue(s[1]) * 16 + HexValue(s[2])) as char;
      DigitIs(s[1], HexValue(s[1]));
      DigitIs(s[2], HexValue(s[2]));
    } else {
      e, c := s[..1], if s[0] == '+' then ' ' else s[0];
    }
  }

  lemma {:induction false} PartsFound(s: string) returns (es: seq<string>)
    requires WellEncoded(s)
    ensures |es| == |Decode(s)| && s == Concat(es)
    ensures forall i | 0 <= i < |es| :: StandsFor(es[i], Decode(s)[i])
  {
    hide StandsFor;
    if s == [] {
      es := [];
    } else {
      var e, c := PartFound(s);
      hide WellEncoded, Decode;
      var more := PartsFound(s[|e|..]);
      es := [e] + more;
      assert es[1..] == more;
    }
  }

  /** httpdecode decodes exactly the texts that are made of such parts, to the characters that they stand for. */
  lemma DecodeIs(s: string, t: string)
    ensures WellEncoded(s) && Decode(s) == t <==> Decodes(s, t)
  {
    hide WellEncoded, Decode, StandsFor, Concat;
    if WellEncoded(s) && Decode(s) == t {
      var es := PartsFound(s);
    }
    if Decodes(s, t) {
      var es: seq<string> :| |es| == |t| && s == Concat(es) && forall i | 0 <= i < |t| :: StandsFor(es[i], t[i]);
      PartsDecoded(es, t);
    }
  }

  /** Clearing bit 5, which makes a letter a capital. */
  function ClearBit5(c: char): (r: nat)
    requires c < 256 as char
  {
    if c as int / 32 % 2 == 1 then c as int - 32 else c as int
  }

  /** The value of a digit, in the arithmetic of a byte. */
  method Nibble(c: char) returns (v: nat)
    requires IsHex(c)
    ensures v == HexValue(c)
  {
    if c >= 'A' {
      v := ClearBit5(c) - 'A' as int + 10;
    } else {
      v := c as int - '0' as int;
    }
  }

  /** The text from the reading position on is still there, and the writing position is not ahead of it. */
  ghost predicate Decoding(p: array<char>, s: string, r: nat, w: nat)
    reads p
  {
    && w <= r <= |s| < p.Length && p[|s|] == '\0' && p[r..|s|] == s[r..]
    && WellEncoded(s) && WellEncoded(s[r..]) && Decode(s) == p[..w] + Decode(s[r..])
  }

  lemma DecodeStep(s: string, r: nat)
    requires r < |s| && WellEncoded(s[r..])
    ensures s[r] == '%' ==> r + 3 <= |s| && IsHex(s[r + 1]) && IsHex(s[r + 2]) && WellEncoded(s[r + 3..])
    ensures s[r] == '%' ==>
      Decode(s[r..]) == [(HexValue(s[r + 1]) * 16 + HexValue(s[r + 2])) as char] + Decode(s[r + 3..])
    ensures s[r] != '%' ==> WellEncoded(s[r + 1..])
    ensures s[r] != '%' ==> Decode(s[r..]) == [if s[r] == '+' then ' ' else s[r]] + Decode(s[r + 1..])
  {
    assert s[r..][1..] == s[r + 1..];
    assert |s[r..]| >= 3 ==> s[r..][3..] == s[r + 3..] && s[r..][1] == s[r + 1] && s[r..][2] == s[r + 2];
  }

  /** The two digits behind a percent sign, in the arithmetic of a byte. */
  method DecodeByte(p: array<char>, w: nat, i: nat)
    requires w + i + 2 < p.Length && IsHex(p[w + i + 1]) && IsHex(p[w + i + 2])
    modifies p
    ensures p[w] == (HexValue(old(p[w + i + 1])) * 16 + HexValue(old(p[w + i + 2]))) as char
    ensures forall k | 0 <= k < p.Length && k != w :: p[k] == old(p[k])
  {
    var high := Nibble(p[w + i + 1]);
    p[w] := high as char;
    p[w] := (p[w] as int * 16 % 256) as char;
    var low := Nibble(p[w + i + 2]);
    p[w] := ((p[w] as int + low) % 256) as char;
  }

  /** A write behind the reading position, and a step of both positions. */
  lemma DecodingStep(p: array<char>, s: string, r: nat, next: nat, w: nat, before: string)
    requires w <= r < |s| < p.Length && p[|s|] == '\0' && r < next <= |s|
    requires WellEncoded(s) && WellEncoded(s[r..]) && Decode(s) == before + Decode(s[r..])
    requires WellEncoded(s[next..]) && Decode(s[r..]) == [p[w]] + Decode(s[next..])
    requires |before| == w && p[..w] == before
    requires forall k | r < k < |s| :: p[k] == s[k]
    ensures Decoding(p, s, next, w + 1)
  {
    hide Decode, WellEncoded;
    assert before + ([p[w]] + Decode(s[next..])) == before + [p[w]] + Decode(s[next..]);
    assert p[..w + 1] == before + [p[w]];
    assert p[next..|s|] == s[next..];
  }

  lemma DecodingAt(p: array<char>, s: string, r: nat, w: nat)
    requires Decoding(p, s, r, w)
    ensures forall k | r <= k < |s| :: p[k] == s[k]
  {
    forall k | r <= k < |s|
      ensures p[k] == s[k]
    {
      assert p[r..|s|][k - r] == s[r..][k - r];
    }
  }

  /** What httpdecode writes for the character at r, and how many characters it takes. */
  method DecodeHere(p: array<char>, w: nat, i: nat, ghost s: string) returns (i': nat)
    requires w + i < |s| < p.Length && WellEncoded(s[w + i..]) && forall k | w + i <= k < |s| :: p[k] == s[k]
    modifies p
    ensures i <= i' && w + 1 + i' <= |s| && WellEncoded(s[w + 1 + i'..])
    ensures Decode(s[w + i..]) == [p[w]] + Decode(s[w + 1 + i'..])
    ensures forall k | 0 <= k < p.Length && k != w :: p[k] == old(p[k])
  {
    DecodeStep(s, w + i);
    hide WellEncoded, Decode, HexValue, IsHex;
    i' := i;
    p[w] := p[w + i];
    if p[w] == '%' {
      DecodeByte(p, w, i);
      i' := i + 2;
    } else if p[w + i] == '+' {
      p[w] := ' ';
    }
  }

  /** One pass of httpdecode: the reading position is i ahead of the writing one. */
  method DecodeNext(p: array<char>, w: nat, i: nat, ghost s: string) returns (i': nat)
    requires Decoding(p, s, w + i, w) && w + i < |s|
    modifies p
    ensures i <= i' && Decoding(p, s, w + 1 + i', w + 1)
  {
    hide WellEncoded, Decode;
    ghost var before := p[..w];
    DecodingAt(p, s, w + i, w);
    i' := DecodeHere(p, w, i, s);
    hide Decoding;
    assert p[..w] == before;
    DecodingStep(p, s, w + i, w + 1 + i', w, before);
  }

  lemma DecodingFront(p: array<char>, s: string, r: nat, w: nat)
    requires Decoding(p, s, r, w) && '\0' !in s
    ensures w <= r <= |s| < p.Length && (p[r] == '\0' <==> r == |s|)
    ensures r == |s| ==> Decode(s) == p[..w]
  {
    DecodingAt(p, s, r, w);
    if r == |s| {
      assert s[r..] == [] && p[..w] + [] == p[..w];
    }
  }

  lemma DecodingStart(p: array<char>, s: string)
    requires |s| < p.Length && p[..|s|] == s && p[|s|] == '\0' && WellEncoded(s)
    ensures Decoding(p, s, 0, 0)
  {
    assert p[0..|s|] == p[..|s|] && s[0..] == s && p[..0] == [];
  }

  /** httpdecode with isFind 0, in place. */
  method HttpDecode(p: array<char>, ghost s: string)
    requires |s| < p.Length && p[..|s|] == s && p[|s|] == '\0' && '\0' !in s && WellEncoded(s)
    modifies p
    ensures p[..|Decode(s)|] == Decode(s) && p[|Decode(s)|] == '\0' && Decodes(s, p[..|Decode(s)|])
  {
    hide *;
    var w: nat, i: nat := 0, 0;
    DecodingStart(p, s);
    DecodingFront(p, s, 0, 0);
    while p[w + i] != '\0'
      invariant w + i <= |s| < p.Length && Decoding(p, s, w + i, w) && (p[w + i] == '\0' <==> w + i == |s|)
      decreases |s| - (w + i)
    {
      i := DecodeNext(p, w, i, s);
      w := w + 1;
      DecodingFront(p, s, w + i, w);
    }
    DecodingFront(p, s, w + i, w);
    ghost var t := p[..w];
    DecodeIs(s, t);
    p[w] := '\0';
    assert p[..w] == t;
  }

  // ---- encoding, then decoding ----

  lemma DecodeOne(c: char, rest: string)
    requires c < 256 as char && WellEncoded(rest)
    ensures WellEncoded(EncodeChar(c) + rest) && Decode(EncodeChar(c) + rest) == [c] + Decode(rest)
  {
    var e := EncodeChar(c);
    assert (e + rest)[|e|..] == rest;
    if |e| == 3 {
      assert (e + rest)[1] == e[1] && (e + rest)[2] == e[2];
      assert c as int / 16 * 16 + c as int % 16 == c as int;
    }
  }

  /** Decoding restores every string of bytes; the encoded text has no terminator in it and is at most three times as
      long. */
  lemma {:induction false} UrlRoundTrip(s: string)
    requires IsBytes(s)
    ensures WellEncoded(Encode(s)) && Decode(Encode(s)) == s
    ensures |Encode(s)| <= 3 * |s| && '\0' !in Encode(s)
  {
    if s != [] {
      UrlRoundTrip(s[1..]);
      DecodeOne(s[0], Encode(s[1..]));
      assert s == [s[0]] + s[1..];
    }
  }
}
