/** The string literals that cJSON reads: their texts are made of pieces, with the bytes that these stand for. */
module JsonLiterals {
  import opened CText
  import opened JsonStrings

  /** A character, an escape of one, an escaped code, or two of them of which the first is a high surrogate. */
  datatype Piece = Plain(c: char) | Short(c: char) | Code(digits: string) | Pair(high: string, low: string)

  ghost function HexDigit(c: char): int {
    if '0' <= c <= '9' then c as int - '0' as int
    else if 'A' <= c <= 'F' then c as int - 'A' as int + 10
    else if 'a' <= c <= 'f' then c as int - 'a' as int + 10
    else -1
  }

  /** The four characters behind a \u are not looked at beyond their values, but they lie within the literal. */
  ghost predicate IsCode(digits: string) {
    |digits| == 4 && forall i | 0 <= i < 4 :: digits[i] != '\"' && digits[i] != '\\'
  }

  /** The number that the four stand for, and 0 when one of them is no hexadecimal digit. */
  ghost function CodeOf(digits: string): int
    requires |digits| == 4
  {
    if exists i | 0 <= i < 4 :: HexDigit(digits[i]) < 0 then 0
    else
      4096 * HexDigit(digits[0]) + 256 * HexDigit(digits[1]) + 16 * HexDigit(digits[2]) + HexDigit(digits[3])
  }

  ghost predicate IsHigh(code: int) {
    0xD800 <= code < 0xDC00
  }

  ghost predicate IsLow(code: int) {
    0xDC00 <= code < 0xE000
  }

  ghost predicate IsPiece(p: Piece) {
    match p
    case Plain(c) => c != '\"' && c != '\\'
    case Short(c) => c != 'u'
    case Code(digits) => IsCode(digits)
    case Pair(high, low) => IsCode(high) && IsCode(low) && IsHigh(CodeOf(high))
  }

  /** The pieces of a literal. A high surrogate on its own is not followed by a \u. */
  ghost predicate ArePieces(ps: seq<Piece>) {
    ps != [] ==>
      && IsPiece(ps[0]) && ArePieces(ps[1..])
      && (ps[0].Code? && IsHigh(CodeOf(ps[0].digits)) && |ps| > 1 ==> ps[1].Plain? || ps[1].Short?)
  }

  function PieceText(p: Piece): string {
    match p
    case Plain(c) => [c]
    case Short(c) => ['\\', c]
    case Code(digits) => ['\\', 'u'] + digits
    case Pair(high, low) => ['\\', 'u'] + (high + (['\\', 'u'] + low))
  }

  function PiecesText(ps: seq<Piece>): string {
    if ps == [] then "" else PieceText(ps[0]) + PiecesText(ps[1..])
  }

  /** The character that an escape of one stands for. */
  ghost function ShortOf(c: char): char {
    if c == 'b' then 8 as char
    else if c == 't' then 9 as char
    else if c == 'n' then 10 as char
    else if c == 'f' then 12 as char
    else if c == 'r' then 13 as char
    else c
  }

  /** The bytes that a piece stands for; none for a surrogate without its partner and for the code 0. */
  ghost function PieceBytes(p: Piece): string
    requires IsPiece(p)
  {
    match p
    case Plain(c) => [c]
    case Short(c) => [ShortOf(c)]
    case Code(digits) =>
      var code := CodeOf(digits);
      if code == 0 || IsHigh(code) || IsLow(code) then "" else Utf8(code)
    case Pair(high, low) =>
      if IsLow(CodeOf(low)) then Utf8(0x10000 + (CodeOf(high) - 0xD800) * 0x400 + (CodeOf(low) - 0xDC00)) else ""
  }

  ghost function PiecesBytes(ps: seq<Piece>): string
    requires ArePieces(ps)
  {
    if ps == [] then "" else PieceBytes(ps[0]) + PiecesBytes(ps[1..])
  }

  /** What stands behind the pieces: the closing quote, or the end of the text. */
  ghost predicate Closes(closed: bool, tail: string, rest: string) {
    if closed then tail == ['\"'] + rest else tail == "" && rest == ""
  }

  lemma HexIs(c: char)
    ensures IsHex(c) <==> HexDigit(c) >= 0
    ensures IsHex(c) ==> HexValue(c) == HexDigit(c)
  {}

  lemma CodeIs(digits: string, u: string)
    requires IsCode(digits)
    ensures FourInside(digits + u) && Hex4(digits + u) == CodeOf(digits)
    ensures (digits + u)[4..] == u
  {
    var s := digits + u;
    assert s[0] == digits[0] && s[1] == digits[1] && s[2] == digits[2] && s[3] == digits[3];
    HexIs(s[0]);
    HexIs(s[1]);
    HexIs(s[2]);
    HexIs(s[3]);
    hide IsHex, HexValue, HexDigit;
  }

  lemma FourAreCode(s: string)
    requires FourInside(s)
    ensures IsCode(s[..4]) && s == s[..4] + s[4..]
  {}

  lemma ShortIs(c: char)
    ensures Escaped(c) == ShortOf(c)
  {}

  lemma PairIs(high: int, low: int)
    requires IsHigh(high) && IsLow(low)
    ensures SurrogatePair(high, low) == 0x10000 + (high - 0xD800) * 0x400 + (low - 0xDC00)
  {
    assert high % 1024 == high - 0xD800 && low % 1024 == low - 0xDC00;
  }

  lemma CodeRead(digits: string, u: string)
    requires IsCode(digits)
    requires IsHigh(CodeOf(digits)) ==> !(|u| > 1 && u[0] == '\\' && u[1] == 'u')
    ensures var s := PieceText(Code(digits)) + u;
      Peek(s) == '\\' && ReadEscape(s) == (PieceBytes(Code(digits)), 6) && s[6..] == u
  {
    var s := PieceText(Code(digits)) + u;
    CodeIs(digits, u);
    assert s[2..] == digits + u && s[6..] == u;
    hide Hex4, CodeOf, FourInside, Utf8;
  }

  lemma PairLayout(high: string, low: string, u: string)
    requires |high| == |low| == 4
    ensures var s := PieceText(Pair(high, low)) + u;
      && |s| == 12 + |u| && s[0] == s[6] == '\\' && s[1] == s[7] == 'u'
      && s[2..] == high + s[6..] && s[8..] == low + u && s[12..] == u
  {}

  lemma PairRead(high: string, low: string, u: string)
    requires IsPiece(Pair(high, low))
    ensures var s := PieceText(Pair(high, low)) + u;
      Peek(s) == '\\' && ReadEscape(s) == (PieceBytes(Pair(high, low)), 12) && s[12..] == u
  {
    var s := PieceText(Pair(high, low)) + u;
    PairLayout(high, low, u);
    CodeIs(high, s[6..]);
    CodeIs(low, u);
    if IsLow(CodeOf(low)) {
      PairIs(CodeOf(high), CodeOf(low));
    }
    hide Hex4, CodeOf, FourInside, Utf8, SurrogatePair, PieceText, IsCode;
  }

  /** One piece of a literal. */
  lemma PieceRead(p: Piece, u: string)
    requires IsPiece(p)
    requires p.Code? && IsHigh(CodeOf(p.digits)) ==> !(|u| > 1 && u[0] == '\\' && u[1] == 'u')
    ensures Unescape(PieceText(p) + u) == Prepend(PieceBytes(p), Unescape(u))
  {
    hide ReadEscape, PieceBytes, CodeOf;
    var s := PieceText(p) + u;
    match p
    case Plain(c) =>
      assert s[..1] == [c] && s[1..] == u;
      PlainBytes(c);
    case Short(c) =>
      ShortRead(c, u);
    case Code(digits) => CodeRead(digits, u);
    case Pair(high, low) => PairRead(high, low, u);
  }

  lemma PlainBytes(c: char)
    requires IsPiece(Plain(c))
    ensures PieceBytes(Plain(c)) == [c]
  {}

  lemma ShortRead(c: char, u: string)
    requires c != 'u'
    ensures var s := PieceText(Short(c)) + u;
      Peek(s) == '\\' && ReadEscape(s) == (PieceBytes(Short(c)), 2) && s[2..] == u
  {
    ShortIs(c);
  }

  lemma {:induction false} PiecesRead(ps: seq<Piece>, closed: bool, tail: string, rest: string)
    requires ArePieces(ps) && Closes(closed, tail, rest)
    ensures Unescape(PiecesText(ps) + tail) == Accepted(PiecesBytes(ps), rest)
  {
    hide Unescape, PieceText, PieceBytes, IsPiece, PiecesText, Closes, CodeOf;
    if ps == [] {
      LiteralEnds(closed, tail, rest);
    } else {
      var u := PiecesText(ps[1..]) + tail;
      PiecesSplit(ps, tail);
      PiecesRead(ps[1..], closed, tail, rest);
      PieceBehind(ps, closed, tail, rest);
      PieceRead(ps[0], u);
    }
  }

  lemma LiteralEnds(closed: bool, tail: string, rest: string)
    requires Closes(closed, tail, rest)
    ensures PiecesText([]) + tail == tail && Unescape(tail) == Accepted("", rest)
  {}

  /** Behind a high surrogate on its own comes no \u. */
  lemma PieceBehind(ps: seq<Piece>, closed: bool, tail: string, rest: string)
    requires ps != [] && ArePieces(ps) && Closes(closed, tail, rest)
    ensures var u := PiecesText(ps[1..]) + tail;
      ps[0].Code? && IsHigh(CodeOf(ps[0].digits)) ==> !(|u| > 1 && u[0] == '\\' && u[1] == 'u')
  {
    hide CodeOf;
    if ps[0].Code? && IsHigh(CodeOf(ps[0].digits)) && |ps| > 1 {
      var u := PiecesText(ps[1..]) + tail;
      assert u == PieceText(ps[1]) + (PiecesText(ps[1..][1..]) + tail);
    }
  }

  /** The piece that a literal goes on with. */
  lemma PieceFound(s: string) returns (p: Piece, u: string)
    requires s != [] && s[0] != '\"' && !Unescape(s).Truncated?
    ensures IsPiece(p) && s == PieceText(p) + u && |u| < |s|
    ensures p.Code? && IsHigh(CodeOf(p.digits)) ==> !(|u| > 1 && u[0] == '\\' && u[1] == 'u')
  {
    if s[0] != '\\' {
      p, u := Plain(s[0]), s[1..];
    } else if s[1] != 'u' {
      p, u := Short(s[1]), s[2..];
    } else {
      p, u := CodeFound(s);
    }
  }

  lemma CodeFound(s: string) returns (p: Piece, u: string)
    requires |s| > 1 && s[0] == '\\' && s[1] == 'u' && ReadEscape(s).1 != 0
    ensures IsPiece(p) && s == PieceText(p) + u && |u| < |s|
    ensures p.Code? && IsHigh(CodeOf(p.digits)) ==> !(|u| > 1 && u[0] == '\\' && u[1] == 'u')
  {
    var digits := s[2..6];
    FourAreCode(s[2..]);
    assert s[2..][..4] == digits && s[2..][4..] == s[6..];
    CodeIs(digits, s[6..]);
    SecondCode(s);
    hide Hex4, CodeOf, Utf8, IsCode, FourInside, ReadEscape;
    if IsHigh(CodeOf(digits)) && |s| >= 8 && s[6] == '\\' && s[7] == 'u' {
      p, u := Pair(digits, s[8..12]), s[12..];
      FourAreCode(s[8..]);
      assert s[8..][..4] == s[8..12];
      PairSplit(s);
    } else {
      p, u := Code(digits), s[6..];
      assert s == ['\\', 'u'] + digits + s[6..];
    }
  }

  lemma SecondCode(s: string)
    requires |s| > 1 && s[0] == '\\' && s[1] == 'u' && ReadEscape(s).1 != 0
    ensures FourInside(s[2..])
    ensures 0xD800 <= Hex4(s[2..]) <= 0xDBFF && |s| >= 8 && s[6] == '\\' && s[7] == 'u' ==> FourInside(s[8..])
  {
    hide Hex4, Utf8, FourInside;
  }

  lemma PairSplit(s: string)
    requires |s| >= 12 && s[0] == s[6] == '\\' && s[1] == s[7] == 'u'
    ensures s == PieceText(Pair(s[2..6], s[8..12])) + s[12..]
  {
    assert s == ['\\', 'u'] + (s[2..6] + (['\\', 'u'] + s[8..12])) + s[12..];
  }

  /** Every literal that is read has pieces. */
  lemma {:induction false} PiecesFound(s: string) returns (ps: seq<Piece>, closed: bool, tail: string, rest: string)
    requires Unescape(s).Accepted?
    ensures ArePieces(ps) && Closes(closed, tail, rest) && s == PiecesText(ps) + tail
    decreases |s|
  {
    if s == [] {
      ps, closed, tail, rest := [], false, "", "";
    } else if s[0] == '\"' {
      ps, closed, tail, rest := [], true, s, s[1..];
      assert s == ['\"'] + s[1..] == "" + s;
    } else {
      var p, u := PieceFound(s);
      hide Unescape, PieceText, PieceBytes, CodeOf, IsPiece, ArePieces;
      PieceRead(p, u);
      var more;
      more, closed, tail, rest := PiecesFound(u);
      ps := [p] + more;
      PieceBefore(p, more, u, tail);
    }
  }

  lemma PieceBefore(p: Piece, more: seq<Piece>, u: string, tail: string)
    requires IsPiece(p) && ArePieces(more) && u == PiecesText(more) + tail
    requires p.Code? && IsHigh(CodeOf(p.digits)) ==> !(|u| > 1 && u[0] == '\\' && u[1] == 'u')
    ensures ArePieces([p] + more) && PieceText(p) + u == PiecesText([p] + more) + tail
  {
    hide CodeOf, IsPiece, PieceText, PiecesText;
    PiecesSplit([p] + more, tail);
    assert ([p] + more)[1..] == more;
    if more != [] {
      PiecesSplit(more, tail);
      PieceStart(more[0], PiecesText(more[1..]) + tail);
    }
  }

  lemma PiecesSplit(ps: seq<Piece>, tail: string)
    requires ps != []
    ensures PiecesText(ps) + tail == PieceText(ps[0]) + (PiecesText(ps[1..]) + tail)
  {}

  lemma PieceStart(p: Piece, u: string)
    ensures p.Code? || p.Pair? ==> var s := PieceText(p) + u; |s| > 1 && s[0] == '\\' && s[1] == 'u'
  {}

  // ---- texts that end inside an escape ----

  /** A backslash at the end of the text, or a \u whose four characters do not all lie within the literal. */
  ghost predicate IsCut(tail: string) {
    || tail == ['\\']
    || (tail != "" && tail[0] == '\\' && |tail| > 1 && tail[1] == 'u' && !(|tail| >= 6 && IsCode(tail[2..6])))
  }

  /** Behind some pieces the literal is cut. */
  ghost predicate CutLiteral(s: string) {
    exists ps: seq<Piece>, tail: string :: ArePieces(ps) && IsCut(tail) && s == PiecesText(ps) + tail
  }

  lemma CutRead(tail: string)
    requires IsCut(tail)
    ensures Unescape(tail).Truncated?
  {
    if |tail| > 1 {
      FourAt(tail, 2);
    }
  }

  lemma FourAt(s: string, i: nat)
    requires i <= |s|
    ensures FourInside(s[i..]) <==> |s| >= i + 4 && IsCode(s[i..i + 4])
  {
    if |s| >= i + 4 {
      assert forall k | 0 <= k < 4 :: s[i..][k] == s[i..i + 4][k];
    }
  }

  lemma CutBehindHigh(digits: string, tail: string)
    requires IsCode(digits) && IsHigh(CodeOf(digits)) && IsCut(tail)
    ensures Unescape(PieceText(Code(digits)) + tail).Truncated?
  {
    var s := PieceText(Code(digits)) + tail;
    assert s[2..] == digits + tail && s[6..] == tail && (|tail| > 1 ==> s[8..] == tail[2..] && s[7] == tail[1]);
    CodeIs(digits, tail);
    hide Hex4, CodeOf, Utf8, IsCode, FourInside;
    if |tail| > 1 {
      FourAt(tail, 2);
    } else {
      CutRead(tail);
    }
  }

  lemma {:induction false} CutPiecesRead(ps: seq<Piece>, tail: string)
    requires ArePieces(ps) && IsCut(tail)
    ensures Unescape(PiecesText(ps) + tail).Truncated?
  {
    hide Unescape, PieceText, PieceBytes, IsPiece, PiecesText, CodeOf, IsCut;
    if ps == [] {
      CutRead(tail);
      NoPieces(tail);
    } else {
      var u := PiecesText(ps[1..]) + tail;
      PiecesSplit(ps, tail);
      CutPiecesRead(ps[1..], tail);
      PieceIsCode(ps[0]);
      if ps[0].Code? && IsHigh(CodeOf(ps[0].digits)) && |u| > 1 && u[0] == '\\' && u[1] == 'u' {
        CutBehind(ps, tail);
        CutBehindHigh(ps[0].digits, tail);
      } else {
        PieceRead(ps[0], u);
      }
    }
  }

  lemma NoPieces(tail: string)
    ensures PiecesText([]) + tail == tail
  {}

  lemma PieceIsCode(p: Piece)
    requires IsPiece(p)
    ensures p.Code? ==> IsCode(p.digits)
  {}

  lemma CutBehind(ps: seq<Piece>, tail: string)
    requires ps != [] && ArePieces(ps) && ps[0].Code? && IsHigh(CodeOf(ps[0].digits))
    requires var u := PiecesText(ps[1..]) + tail; |u| > 1 && u[0] == '\\' && u[1] == 'u'
    ensures PiecesText(ps[1..]) + tail == tail
  {
    hide CodeOf;
    if |ps| > 1 {
      PiecesSplit(ps[1..], tail);
    } else {
      NoPieces(tail);
    }
  }

  lemma {:induction false} CutFound(s: string) returns (ps: seq<Piece>, tail: string)
    requires Unescape(s).Truncated?
    ensures ArePieces(ps) && IsCut(tail) && s == PiecesText(ps) + tail
    decreases |s|
  {
    if ReadEscapeIsCut(s) {
      ps, tail := CutHere(s);
    } else {
      var p, u := PieceOf(s);
      hide Unescape, PieceText, PieceBytes, CodeOf, IsPiece, ArePieces;
      PieceRead(p, u);
      var more;
      more, tail := CutFound(u);
      ps := [p] + more;
      PieceBefore(p, more, u, tail);
    }
  }

  ghost predicate ReadEscapeIsCut(s: string) {
    Peek(s) == '\\' && ReadEscape(s).1 == 0
  }

  lemma PieceOf(s: string) returns (p: Piece, u: string)
    requires s != [] && s[0] != '\"' && !ReadEscapeIsCut(s)
    ensures IsPiece(p) && s == PieceText(p) + u && |u| < |s|
    ensures p.Code? && IsHigh(CodeOf(p.digits)) ==> !(|u| > 1 && u[0] == '\\' && u[1] == 'u')
  {
    if s[0] != '\\' {
      p, u := Plain(s[0]), s[1..];
    } else if s[1] != 'u' {
      p, u := Short(s[1]), s[2..];
    } else {
      p, u := CodeFound(s);
    }
  }

  lemma WhereCut(s: string) returns (i: nat)
    requires ReadEscapeIsCut(s)
    ensures i < |s| && s[i] == '\\' && (|s| == i + 1 || (s[i + 1] == 'u' && !FourInside(s[i + 2..])))
    ensures i == 0 || (i == 6 && s[0] == '\\' && s[1] == 'u' && FourInside(s[2..]))
  {
    hide Hex4, Utf8, FourInside;
    i := if |s| > 1 && FourInside(s[2..]) then 6 else 0;
  }

  lemma OneCode(digits: string)
    requires IsCode(digits)
    ensures ArePieces([Code(digits)]) && PiecesText([Code(digits)]) == ['\\', 'u'] + digits
  {
    hide CodeOf;
    assert [Code(digits)][1..] == [] && PieceText(Code(digits)) + "" == ['\\', 'u'] + digits;
  }

  lemma CutHere(s: string) returns (ps: seq<Piece>, tail: string)
    requires ReadEscapeIsCut(s)
    ensures ArePieces(ps) && IsCut(tail) && s == PiecesText(ps) + tail
  {
    var i := WhereCut(s);
    CutTail(s, i);
    hide *;
    tail := s[i..];
    if i == 6 {
      FourAt(s, 2);
      OneCode(s[2..6]);
      ps := [Code(s[2..6])];
      assert s == ['\\', 'u'] + s[2..6] + s[6..];
    } else {
      ps := [];
      NoPieces(s);
      NothingIsPieces();
      assert s[0..] == s;
    }
  }

  lemma NothingIsPieces()
    ensures ArePieces([])
  {}

  lemma CutTail(s: string, i: nat)
    requires i < |s| && s[i] == '\\' && (|s| == i + 1 || (s[i + 1] == 'u' && !FourInside(s[i + 2..])))
    ensures IsCut(s[i..])
  {
    var tail := s[i..];
    if |s| == i + 1 {
      assert tail == ['\\'];
    } else {
      FourAt(s, i + 2);
      assert |s| >= i + 6 ==> tail[2..6] == s[i + 2..i + 6];
    }
  }

  /** A literal is cut inside an escape exactly when parse_string would read past the terminator or the closing quote.
      */
  lemma LiteralCut(s: string)
    ensures Unescape(s).Truncated? <==> CutLiteral(s)
  {
    hide Unescape, ArePieces, IsCut, PiecesText;
    if Unescape(s).Truncated? {
      var ps, tail := CutFound(s);
    }
    if CutLiteral(s) {
      var ps: seq<Piece>, tail: string :| ArePieces(ps) && IsCut(tail) && s == PiecesText(ps) + tail;
      CutPiecesRead(ps, tail);
    }
  }
}
