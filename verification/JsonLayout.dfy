/** How the printers lay a value out. */
module JsonLayout {
  // What they print is the text of one syntax tree, described here by its parts.

  import opened CText
  import opened JsonNumbers
  import opened JsonStrings
  import opened Json
  import opened JsonNumerals
  import opened JsonLiterals
  import opened JsonGrammar
  import JsonRoundTrip

  /** A line feed and n tabs. */
  ghost predicate IsLine(s: string, n: int) {
    |s| == (if n < 0 then 0 else n) + 1 && s[0] == '\n' && forall i | 1 <= i < |s| :: s[i] == '\t'
  }

  /** A decimal integer: no fraction, no exponent, and a zero in front only of nothing. */
  ghost predicate IsTidyNumeral(n: Numeral) {
    n.fraction == "" && n.power.NoExponential? && (n.zero <==> n.whole == "") && (n.zero ==> !n.minus)
  }

  /** Characters from the space on stand for themselves. Of the others five have a short escape, and so do the quote and
      the backslash; the rest are written as codes with lower-case digits. */
  ghost predicate IsTidyPiece(p: Piece) {
    match p
    case Plain(c) => ' ' <= c < 256 as char
    case Short(c) => c in "\"\\bfnrt"
    case Code(digits) =>
      && |digits| == 4 && digits[0] == digits[1] == '0' && (digits[2] == '0' || digits[2] == '1')
      && ('0' <= digits[3] <= '9' || 'a' <= digits[3] <= 'f')
      && CodeOf(digits) !in {0, 8, 9, 10, 12, 13}
    case Pair(_, _) => false
  }

  ghost predicate AreTidyPieces(ps: seq<Piece>) {
    forall p | p in ps :: IsTidyPiece(p)
  }

  /** Without formatting there is no white space. With it a space stands behind each comma of an array; each member of
      an object stands on a line of its own, one level deeper than the object, with a tab behind the colon, and the
      closing brace on a line at the level of the object, one level less when it is empty. */
  ghost predicate IsTidy(d: Doc, depth: nat, fmt: bool)
    decreases d, 0
  {
    match d
    case Word(_) => true
    case Numeric(n) => IsTidyNumeral(n)
    case Literal(pieces, closed) => closed && AreTidyPieces(pieces)
    case ArrayDoc(blank, items) => blank == "" && AreTidyItems(items, depth + 1, fmt, true)
    case ObjectDoc(blank, members) =>
      && (members == [] && fmt ==> IsLine(blank, depth - 1))
      && (members != [] || !fmt ==> blank == "")
      && AreTidyMembers(members, depth + 1, fmt)
  }

  ghost predicate AreTidyItems(items: seq<ItemDoc>, depth: nat, fmt: bool, first: bool) {
    items != [] ==>
      && items[0].before == (if fmt && !first then " " else "") && items[0].after == ""
      && IsTidy(items[0].doc, depth, fmt) && AreTidyItems(items[1..], depth, fmt, false)
  }

  ghost predicate AreTidyMembers(members: seq<MemberDoc>, depth: nat, fmt: bool)
    requires depth > 0
  {
    members != [] ==>
      && members[0].middle == "" && members[0].behind == (if fmt then "\t" else "")
      && (if fmt then IsLine(members[0].before, depth) else members[0].before == "")
      && (if fmt && |members| == 1 then IsLine(members[0].after, depth - 1) else members[0].after == "")
      && AreTidyPieces(members[0].name) && IsTidy(members[0].doc, depth, fmt)
      && AreTidyMembers(members[1..], depth, fmt)
  }

  // ---- what is printed is laid out like this ----

  lemma LineOf(depth: int)
    ensures IsLine("\n" + Tabs(depth), depth) && AreBlanks("\n" + Tabs(depth))
  {
    var s := "\n" + Tabs(depth);
    forall i | 1 <= i < |s| ensures s[i] == '\t' {
      assert s[i] == Tabs(depth)[i - 1];
    }
  }

  /** One character of a printed literal is one piece. */
  lemma PieceOfChar(c: char) returns (p: Piece)
    requires '\0' < c < 256 as char
    ensures IsPiece(p) && IsTidyPiece(p) && EscapeChar(c) == PieceText(p)
    ensures p.Code? ==> !IsHigh(CodeOf(p.digits))
  {
    if c >= ' ' && c != '\"' && c != '\\' {
      p := Plain(c);
    } else if |EscapeChar(c)| == 2 {
      p := Short(EscapeChar(c)[1]);
    } else {
      p := Code(EscapeChar(c)[2..]);
      CodeOfControl(c);
    }
  }

  lemma CodeOfControl(c: char)
    requires '\0' < c < ' ' && |EscapeChar(c)| == 6
    ensures var digits := EscapeChar(c)[2..];
      && EscapeChar(c) == ['\\', 'u'] + digits && IsCode(digits) && CodeOf(digits) == c as int
      && digits[0] == digits[1] == '0' && (digits[2] == '0' || digits[2] == '1')
      && ('0' <= digits[3] <= '9' || 'a' <= digits[3] <= 'f')
      && CodeOf(digits) !in {0, 8, 9, 10, 12, 13}
  {
    var high, low := HexChar(c as int / 16), HexChar(c as int % 16);
    assert c as int / 16 < 2;
    HexIs(high);
    HexIs(low);
    HexIs('0');
    assert EscapeChar(c)[2..] == ['0', '0', high, low];
    assert ['0', '0', high, low][0] == '0' && ['0', '0', high, low][1] == '0';
    assert 16 * (c as int / 16) + c as int % 16 == c as int;
  }

  lemma {:induction false} PiecesOf(s: string) returns (ps: seq<Piece>)
    requires IsText(s)
    ensures ArePieces(ps) && AreTidyPieces(ps) && Escape(s) == PiecesText(ps)
    ensures forall p | p in ps :: p.Code? && IsPiece(p) ==> !IsHigh(CodeOf(p.digits))
  {
    hide EscapeChar, PieceText, CodeOf, IsPiece, IsTidyPiece;
    if s == [] {
      ps := [];
    } else {
      var p := PieceOfChar(s[0]);
      var more := PiecesOf(s[1..]);
      PieceIsCode(p);
      ps := [p] + more;
      assert ps[1..] == more;
    }
  }

  lemma DecimalOfZero(n: nat)
    ensures n == 0 ==> Decimal(n) == "0"
    ensures n > 0 ==> Decimal(n)[0] != '0'
  {}

  lemma NumeralOf(i: int) returns (n: Numeral)
    ensures IsNumeral(n) && StartsAsNumber(n) && IsTidyNumeral(n) && IntText(i) == NumeralText(n)
  {
    var m: nat := if i < 0 then -i else i;
    DecimalOfZero(m);
    hide Decimal;
    n := Numeral(i < 0, m == 0, if m == 0 then "" else Decimal(m), "", NoExponential);
    assert ["-"[0]] + Decimal(m) == "-" + ("" + (Decimal(m) + ("" + "")));
    assert Decimal(m) == "" + ("" + (Decimal(m) + ("" + "")));
    assert "0" == "" + ("0" + ("" + ("" + "")));
  }

  lemma LiteralOf(text: string) returns (ps: seq<Piece>)
    requires IsText(text)
    ensures ArePieces(ps) && AreTidyPieces(ps) && PrintString(text) == DocText(Literal(ps, true))
    ensures PrintString(text) == "\"" + (PiecesText(ps) + "\"")
  {
    hide Escape, PiecesText, ArePieces, AreTidyPieces;
    ps := PiecesOf(text);
    var e := Escape(text);
    assert ['\"'] + e + ['\"'] == "\"" + (e + "\"");
  }

  /** The syntax tree of what is printed. */
  lemma {:induction false} LayoutOf(v: Json, depth: nat, fmt: bool) returns (d: Doc)
    requires Printable(v)
    ensures IsDoc(d) && IsClosed(d) && IsTidy(d, depth, fmt) && PrintValue(v, depth, fmt) == DocText(d)
    decreases v, 0
  {
    hide PrintString, IntText, NumeralText, IsNumeral, IsTidyNumeral, ArePieces, AreTidyPieces, PiecesText, PrintItems,
      PrintMembers, ItemsText, MembersText, AreItems, AreMembers, AreTidyItems, AreTidyMembers, Tabs;
    match v
    case Null => d := Word("null");
    case False => d := Word("false");
    case True => d := Word("true");
    case Number(i, _) =>
      var n := NumeralOf(i);
      d := Numeric(n);
    case String(text) =>
      var ps := LiteralOf(text);
      d := Literal(ps, true);
    case Array(items) => d := ArrayLayout(v, depth, fmt);
    case Object(members) => d := ObjectLayout(v, depth, fmt);
  }

  lemma NoneTidy(depth: nat, fmt: bool)
    ensures AreTidyItems([], depth, fmt, true) && PrintItems([], depth, fmt) == ""
    ensures depth > 0 ==> AreTidyMembers([], depth, fmt)
  {}

  lemma {:induction false} ArrayLayout(v: Json, depth: nat, fmt: bool) returns (d: Doc)
    requires v.Array? && Printable(v)
    ensures IsDoc(d) && IsClosed(d) && IsTidy(d, depth, fmt) && PrintValue(v, depth, fmt) == DocText(d)
    decreases v.items, 2
  {
    hide PrintItems, ItemsText, AreItems, AreTidyItems;
    NothingListed();
    NoneTidy(depth + 1, fmt);
    if v.items == [] {
      d := ArrayDoc("", []);
      assert "[" + "" + "]" == "[" + ("" + "]");
    } else {
      var items := ItemsLayout(v.items, depth + 1, fmt, true);
      d := ArrayDoc("", items);
      assert "" + PrintItems(v.items, depth + 1, fmt) == PrintItems(v.items, depth + 1, fmt);
      assert "[" + ItemsText(items) + "]" == "[" + (ItemsText(items) + "]");
    }
  }

  lemma {:induction false} ItemsLayout(items: seq<Json>, depth: nat, fmt: bool, first: bool) returns (ds: seq<ItemDoc>)
    requires items != [] && PrintableItems(items)
    ensures ds != [] && AreItems(ds) && AreTidyItems(ds, depth, fmt, first)
    ensures ItemsText(ds) == If(fmt && !first, " ") + PrintItems(items, depth, fmt)
    decreases items, 1
  {
    hide PrintValue, DocText, IsDoc, IsTidy;
    var space := If(fmt && !first, " ");
    var d := LayoutOf(items[0], depth, fmt);
    if |items| == 1 {
      ds := [ItemDoc(space, d, "")];
      assert space + (DocText(d) + ("" + "")) == space + (DocText(d) + "");
    } else {
      var more := ItemsLayout(items[1..], depth, fmt, false);
      ds := [ItemDoc(space, d, "")] + more;
      assert ds[1..] == more;
      hide AreItems, AreTidyItems, PrintableItems, If;
      ItemParts(space, DocText(d), If(fmt, " "), PrintItems(items[1..], depth, fmt));
    }
  }

  lemma ItemParts(space: string, d: string, blank: string, rest: string)
    ensures space + (d + ("" + ("," + (blank + rest)))) == space + (d + ("," + blank + rest))
  {}

  lemma {:induction false} ObjectLayout(v: Json, depth: nat, fmt: bool) returns (d: Doc)
    requires v.Object? && Printable(v)
    ensures IsDoc(d) && IsClosed(d) && IsTidy(d, depth, fmt) && PrintValue(v, depth, fmt) == DocText(d)
    decreases v.members, 2
  {
    hide PrintMembers, MembersText, AreMembers, AreTidyMembers, Tabs, IsLine;
    NothingListed();
    NoneTidy(depth + 1, fmt);
    if v.members == [] {
      LineOf(depth - 1);
      var blank := If(fmt, "\n" + Tabs(depth - 1));
      d := ObjectDoc(blank, []);
      assert "{" + blank + "}" == "{" + (blank + "}");
    } else {
      var members := MembersLayout(v.members, depth + 1, fmt);
      d := ObjectDoc("", members);
      var a, b, c := If(fmt, "\n"), PrintMembers(v.members, depth + 1, fmt), If(fmt, Tabs(depth));
      assert "{" + a + b + c + "}" == "{" + ((a + b + c) + "}");
    }
  }

  /** A member between its line and what stands behind it. */
  lemma {:induction false} MemberLayout(m: Member, depth: nat, fmt: bool, last: bool) returns (d: MemberDoc)
    requires depth > 0 && IsText(m.name) && Printable(m.value)
    ensures AreMembers([d]) && AreTidyPieces(d.name) && IsTidy(d.doc, depth, fmt)
    ensures d.middle == "" && d.behind == (if fmt then "\t" else "")
    ensures if fmt then IsLine(d.before, depth) else d.before == ""
    ensures if fmt && last then IsLine(d.after, depth - 1) else d.after == ""
    ensures d.before + (DocText(Literal(d.name, true)) + (":" + (d.behind + DocText(d.doc))))
         == If(fmt, "\n") + PrintMember(m, depth, fmt)
    ensures d.after == If(fmt && last, "\n" + Tabs(depth - 1))
    decreases m, 1
  {
    hide PrintValue, DocText, IsDoc, IsTidy, PrintString, ArePieces, AreTidyPieces, PiecesText, Tabs, IsLine;
    var name := LiteralOf(m.name);
    var value := LayoutOf(m.value, depth, fmt);
    LineOf(depth);
    LineOf(depth - 1);
    var before, after := If(fmt, "\n" + Tabs(depth)), If(fmt && last, "\n" + Tabs(depth - 1));
    d := MemberDoc(before, name, "", If(fmt, "\t"), value, after);
    OneMember(d);
    MemberParts(If(fmt, "\n"), If(fmt, Tabs(depth)), PrintString(m.name), If(fmt, "\t"), DocText(value));
  }

  lemma MemberParts(a: string, b: string, c: string, d: string, e: string)
    ensures a + b + (c + (":" + (d + e))) == a + (b + c + ":" + d + e)
  {}

  lemma {:induction false} MembersLayout(members: seq<Member>, depth: nat, fmt: bool) returns (ds: seq<MemberDoc>)
    requires depth > 0 && members != [] && PrintableMembers(members)
    ensures ds != [] && AreMembers(ds) && AreTidyMembers(ds, depth, fmt)
    ensures MembersText(ds) == If(fmt, "\n") + PrintMembers(members, depth, fmt) + If(fmt, Tabs(depth - 1))
    decreases members, 1
  {
    hide PrintMember, DocText, IsDoc, IsTidy, ArePieces, AreTidyPieces, Tabs, IsLine, MembersText, IsClosed, AreBlanks;
    var d := MemberLayout(members[0], depth, fmt, |members| == 1);
    var one := PrintMember(members[0], depth, fmt);
    if |members| == 1 {
      ds := [d];
      MembersSplit(ds, "");
      FirstMember(d, BehindFirst(ds, ""), If(fmt, "\n") + one);
      LastParts(If(fmt, "\n"), one, If(fmt, Tabs(depth - 1)), fmt);
      assert MembersText(ds) + "" == MembersText(ds);
    } else {
      var more := MembersLayout(members[1..], depth, fmt);
      ds := [d] + more;
      assert ds[1..] == more;
      MembersSplit(ds, "");
      FirstMember(d, BehindFirst(ds, ""), If(fmt, "\n") + one);
      var rest := PrintMembers(members[1..], depth, fmt);
      MoreParts(If(fmt, "\n"), one, rest, If(fmt, Tabs(depth - 1)));
      assert MembersText(ds) + "" == MembersText(ds) && MembersText(more) + "" == MembersText(more);
    }
  }

  lemma FirstMember(d: MemberDoc, tail: string, one: string)
    requires d.middle == "" && d.before + (DocText(Literal(d.name, true)) + (":" + (d.behind + DocText(d.doc)))) == one
    ensures d.before + (DocText(Literal(d.name, true))
              + (d.middle + (":" + (d.behind + (DocText(d.doc) + (d.after + tail))))))
         == one + (d.after + tail)
  {
    hide DocText;
    var a, b, c, e, f := d.before, DocText(Literal(d.name, true)), d.behind, DocText(d.doc), d.after + tail;
    assert a + (b + ("" + (":" + (c + (e + f))))) == a + (b + (":" + (c + e))) + f;
  }

  lemma LastParts(a: string, one: string, tabs: string, fmt: bool)
    requires a == If(fmt, "\n") && (!fmt ==> tabs == "")
    ensures a + one + (If(fmt, "\n" + tabs) + "") == a + (one + If(fmt, "\n")) + tabs
  {}

  lemma MoreParts(a: string, one: string, rest: string, tabs: string)
    ensures a + one + ("" + ("," + (a + rest + tabs))) == a + (one + ("," + a + rest)) + tabs
  {}

  lemma ClosedEnds(d: Doc)
    requires IsClosed(d)
    ensures ValueEnds(d, "")
  {}

  /** What the printers print, at any depth, formatted or not, is the text of a syntax tree that is laid out as
      described and means the value, with the two fields of each number made to agree. */
  lemma PrintedIsTidy(v: Json, depth: nat, fmt: bool) returns (d: Doc)
    requires Printable(v)
    ensures IsDoc(d) && IsTidy(d, depth, fmt) && PrintValue(v, depth, fmt) == DocText(d) && Meaning(d) == Rounded(v)
  {
    hide *;
    d := LayoutOf(v, depth, fmt);
    ClosedEnds(d);
    DocRead(d, "");
    NothingEndsNumber();
    JsonRoundTrip.ParsePrintValue(v, depth, fmt, "");
  }

  lemma NothingEndsNumber()
    ensures NumberEnds("")
  {}
}
