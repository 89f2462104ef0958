/** The JSON that cJSON reads, as a grammar. */
module JsonGrammar {
  // Syntax trees, the texts that they stand for, and the values that they mean. Nothing in them scans a text; that
  // parse_value accepts exactly these texts is what is proved.

  import opened CText
  import opened JsonNumbers
  import opened JsonStrings
  import opened JsonNumerals
  import opened JsonLiterals
  import opened Json
  import JsonRoundTrip

  /** A word, a number, a literal that may end with the text, an array or an object. White space may stand in front of
      and behind every item, name and value; between the brackets of an empty one it is a field of its own. */
  datatype Doc =
    | Word(word: string)
    | Numeric(n: Numeral)
    | Literal(pieces: seq<Piece>, closed: bool)
    | ArrayDoc(blank: string, items: seq<ItemDoc>)
    | ObjectDoc(blank: string, members: seq<MemberDoc>)

  datatype ItemDoc = ItemDoc(before: string, doc: Doc, after: string)

  datatype MemberDoc =
    MemberDoc(before: string, name: seq<Piece>, middle: string, behind: string, doc: Doc, after: string)

  /** Any characters up to the space. */
  ghost predicate AreBlanks(s: string) {
    forall i | 0 <= i < |s| :: s[i] as int <= 32
  }

  ghost predicate IsDoc(d: Doc)
    decreases d, 0
  {
    match d
    case Word(word) => word == "null" || word == "false" || word == "true"
    case Numeric(n) => IsNumeral(n) && StartsAsNumber(n)
    case Literal(pieces, _) => ArePieces(pieces)
    case ArrayDoc(blank, items) => AreBlanks(blank) && AreItems(items)
    case ObjectDoc(blank, members) => AreBlanks(blank) && AreMembers(members)
  }

  ghost predicate AreItems(items: seq<ItemDoc>) {
    items != [] ==>
      && AreBlanks(items[0].before) && IsDoc(items[0].doc) && IsClosed(items[0].doc) && AreBlanks(items[0].after)
      && AreItems(items[1..])
  }

  ghost predicate AreMembers(members: seq<MemberDoc>) {
    members != [] ==>
      && AreBlanks(members[0].before) && ArePieces(members[0].name) && AreBlanks(members[0].middle)
      && AreBlanks(members[0].behind) && IsDoc(members[0].doc) && IsClosed(members[0].doc)
      && AreBlanks(members[0].after) && AreMembers(members[1..])
  }

  ghost predicate IsClosed(d: Doc) {
    d.Literal? ==> d.closed
  }

  /** Nothing of what follows belongs to the value. */
  ghost predicate ValueEnds(d: Doc, rest: string) {
    match d
    case Numeric(n) => NumeralEnds(n, rest)
    case Literal(_, closed) => closed || rest == ""
    case _ => true
  }

  function DocText(d: Doc): string
    decreases d, 0
  {
    match d
    case Word(word) => word
    case Numeric(n) => NumeralText(n)
    case Literal(pieces, closed) => "\"" + (PiecesText(pieces) + if closed then "\"" else "")
    case ArrayDoc(blank, items) => "[" + ((if items == [] then blank else ItemsText(items)) + "]")
    case ObjectDoc(blank, members) => "{" + ((if members == [] then blank else MembersText(members)) + "}")
  }

  function ItemsText(items: seq<ItemDoc>): string
    requires items != []
  {
    items[0].before
    + (DocText(items[0].doc) + (items[0].after + if |items| == 1 then "" else "," + ItemsText(items[1..])))
  }

  function MembersText(members: seq<MemberDoc>): string
    requires members != []
  {
    members[0].before
    + ("\"" + (PiecesText(members[0].name) + ("\"" + (members[0].middle + (":" + (members[0].behind
    + (DocText(members[0].doc)
    + (members[0].after + if |members| == 1 then "" else "," + MembersText(members[1..])))))))))
  }

  ghost function Meaning(d: Doc): Json
    requires IsDoc(d)
    decreases d, 0
  {
    match d
    case Word(word) => if word == "null" then Null else if word == "false" then False else True
    case Numeric(n) => Number(Truncate(NumeralValue(n)), NumeralValue(n))
    case Literal(pieces, _) => String(PiecesBytes(pieces))
    case ArrayDoc(_, items) => Array(Meanings(items))
    case ObjectDoc(_, members) => Object(NamedMeanings(members))
  }

  ghost function Meanings(items: seq<ItemDoc>): seq<Json>
    requires AreItems(items)
  {
    if items == [] then [] else [Meaning(items[0].doc)] + Meanings(items[1..])
  }

  ghost function NamedMeanings(members: seq<MemberDoc>): seq<Member>
    requires AreMembers(members)
  {
    if members == [] then []
    else [Member(PiecesBytes(members[0].name), Meaning(members[0].doc))] + NamedMeanings(members[1..])
  }

  lemma BlanksSkipped(b: string, s: string)
    requires AreBlanks(b) && Peek(s) > ' '
    ensures Skip(b + s) == s
  {
    SkipOver(b, s);
    JsonRoundTrip.SkipNothing(s);
  }

  lemma {:induction false} BlanksFound(s: string) returns (b: string)
    ensures AreBlanks(b) && s == b + Skip(s)
  {
    if s != [] && s[0] <= ' ' {
      var more := BlanksFound(s[1..]);
      b := s[..1] + more;
      assert s == s[..1] + s[1..] == s[..1] + (more + Skip(s[1..]));
    } else {
      b := "";
      assert s == "" + s;
    }
  }

  /** No value starts with white space or with a closing bracket or brace. */
  lemma DocStart(d: Doc, u: string)
    requires IsDoc(d)
    ensures var s := DocText(d) + u; Peek(s) > ' ' && s[0] != ']' && s[0] != '}'
  {
    hide ItemsText, MembersText, NumeralText, PiecesText, IsNumeral, AreItems, AreMembers;
    if d.Numeric? {
      NumeralStart(d.n, u);
    }
  }

  /** What follows an item or a member in its list does not belong to its value. */
  lemma InnerEnds(d: Doc, after: string, tail: string)
    requires IsClosed(d) && AreBlanks(after) && tail != "" && (tail[0] == ',' || tail[0] == ']' || tail[0] == '}')
    ensures ValueEnds(d, after + tail)
  {
    assert (after + tail)[0] == if after == "" then tail[0] else after[0];
  }

  lemma WordRead(word: string, rest: string)
    requires IsDoc(Word(word))
    ensures ParseValue(word + rest) == Accepted(Meaning(Word(word)), rest)
  {
    JsonRoundTrip.ParseWord(word, rest);
  }

  lemma NumberDispatch(s: string)
    requires Peek(s) == '-' || IsDigit(Peek(s))
    ensures var (x, rest) := ParseNumber(s); ParseValue(s) == Accepted(Number(Truncate(x), x), rest)
  {
    hide ParseNumber, Truncate;
  }

  lemma LiteralText(pieces: seq<Piece>, closed: bool, rest: string)
    requires closed || rest == ""
    ensures var tail := if closed then "\"" + rest else "";
      && Closes(closed, tail, rest)
      && DocText(Literal(pieces, closed)) + rest == "\"" + (PiecesText(pieces) + tail)
  {
    hide PiecesText;
  }

  lemma LiteralRead(pieces: seq<Piece>, closed: bool, rest: string)
    requires ArePieces(pieces) && (closed || rest == "")
    ensures ParseString(DocText(Literal(pieces, closed)) + rest) == Accepted(PiecesBytes(pieces), rest)
  {
    hide ArePieces, PiecesText, PiecesBytes, Unescape, DocText;
    var tail := if closed then "\"" + rest else "";
    LiteralText(pieces, closed, rest);
    PiecesRead(pieces, closed, tail, rest);
    assert ("\"" + (PiecesText(pieces) + tail))[1..] == PiecesText(pieces) + tail;
  }

  /** The parser reads the value that a syntax tree means off its text, and stops right behind it. */
  lemma {:induction false} DocRead(d: Doc, rest: string)
    requires IsDoc(d) && ValueEnds(d, rest)
    ensures ParseValue(DocText(d) + rest) == Accepted(Meaning(d), rest)
    decreases d, 0
  {
    hide ParseValue, ParseArray, ParseObject, ParseNumber, ParseString, NumeralText, NumeralValue, PiecesText,
      PiecesBytes, ItemsText, MembersText, Meanings, NamedMeanings, IsNumeral, ArePieces, AreItems, AreMembers,
      NumeralEnds, Truncate;
    JsonRoundTrip.ParseByOpening(DocText(d) + rest);
    match d
    case Word(word) => WordRead(word, rest);
    case Numeric(n) =>
      NumeralRead(n, rest);
      NumeralStart(n, rest);
      NumberDispatch(NumeralText(n) + rest);
    case Literal(pieces, closed) => LiteralRead(pieces, closed, rest);
    case ArrayDoc(blank, items) => ArrayRead(d, rest);
    case ObjectDoc(blank, members) => ObjectRead(d, rest);
  }

  lemma {:induction false} ArrayRead(d: Doc, rest: string)
    requires d.ArrayDoc? && IsDoc(d)
    ensures var s := DocText(d) + rest; Peek(s) == '[' && ParseArray(s) == Accepted(Meaning(d), rest)
    decreases d.items, 2
  {
    hide ParseItems, ItemsText, Skip, AreItems, Meanings;
    var s := DocText(d) + rest;
    var inner := (if d.items == [] then d.blank else ItemsText(d.items)) + ("]" + rest);
    assert s == "[" + inner && s[1..] == inner;
    if d.items == [] {
      BlanksSkipped(d.blank, "]" + rest);
      NoMeanings();
    } else {
      ItemsRead(d.items, rest);
      ItemsBegin(d.items, "]" + rest);
      JsonRoundTrip.SkipTwice(inner);
      JsonRoundTrip.LoopsSkip(Skip(inner), inner);
    }
  }

  lemma NoMeanings()
    ensures Meanings([]) == [] && NamedMeanings([]) == []
  {}

  lemma ItemsBegin(items: seq<ItemDoc>, rest: string)
    requires items != [] && AreItems(items)
    ensures Peek(Skip(ItemsText(items) + rest)) != ']'
  {
    hide DocText, IsDoc, Skip;
    var item := items[0];
    var u := (item.after + if |items| == 1 then "" else "," + ItemsText(items[1..])) + rest;
    assert ItemsText(items) + rest == item.before + (DocText(item.doc) + u);
    DocStart(item.doc, u);
    BlanksSkipped(item.before, DocText(item.doc) + u);
  }

  lemma {:induction false} ItemsRead(items: seq<ItemDoc>, rest: string)
    requires items != [] && AreItems(items)
    ensures ParseItems(ItemsText(items) + ("]" + rest)) == Accepted(Meanings(items), rest)
    decreases items, 1
  {
    hide ParseValue, DocText, IsDoc, Meaning, Skip, ValueEnds, IsClosed;
    var item := items[0];
    var tail := if |items| == 1 then "]" + rest else "," + (ItemsText(items[1..]) + ("]" + rest));
    var u := item.after + tail;
    var s := ItemsText(items) + ("]" + rest);
    assert s == item.before + (DocText(item.doc) + u);
    DocStart(item.doc, u);
    BlanksSkipped(item.before, DocText(item.doc) + u);
    InnerEnds(item.doc, item.after, tail);
    DocRead(item.doc, u);
    BlanksSkipped(item.after, tail);
    if |items| == 1 {
      assert Meanings(items) == [Meaning(item.doc)];
    } else {
      assert tail[1..] == ItemsText(items[1..]) + ("]" + rest);
      ItemsRead(items[1..], rest);
    }
  }

  lemma {:induction false} ObjectRead(d: Doc, rest: string)
    requires d.ObjectDoc? && IsDoc(d)
    ensures var s := DocText(d) + rest; Peek(s) == '{' && ParseObject(s) == Accepted(Meaning(d), rest)
    decreases d.members, 2
  {
    hide ParseMembers, MembersText, Skip, AreMembers, NamedMeanings;
    var s := DocText(d) + rest;
    var inner := (if d.members == [] then d.blank else MembersText(d.members)) + ("}" + rest);
    assert s == "{" + inner && s[1..] == inner;
    if d.members == [] {
      BlanksSkipped(d.blank, "}" + rest);
      NoMeanings();
    } else {
      MembersRead(d.members, rest);
      MembersBegin(d.members, "}" + rest);
      JsonRoundTrip.SkipTwice(inner);
      JsonRoundTrip.LoopsSkip(Skip(inner), inner);
    }
  }

  /** What stands behind the closing quote of the first name, and what is left of the list behind the first value. */
  function BehindFirst(members: seq<MemberDoc>, rest: string): string
    requires members != []
  {
    if |members| == 1 then rest else "," + (MembersText(members[1..]) + rest)
  }

  function BehindName(members: seq<MemberDoc>, rest: string): string
    requires members != []
  {
    var m := members[0];
    m.middle + (":" + (m.behind + (DocText(m.doc) + (m.after + BehindFirst(members, rest)))))
  }

  lemma MembersSplit(members: seq<MemberDoc>, rest: string)
    requires members != []
    ensures var m := members[0];
      MembersText(members) + rest == m.before + (DocText(Literal(m.name, true)) + BehindName(members, rest))
  {
    hide DocText, PiecesText;
    var m := members[0];
    var more := if |members| == 1 then "" else "," + MembersText(members[1..]);
    assert more + rest == BehindFirst(members, rest);
    NameText(m.name);
    var x := m.middle + (":" + (m.behind + (DocText(m.doc) + (m.after + more))));
    FiveParts(m.middle, ":", m.behind, DocText(m.doc), m.after, more, rest);
    QuotedParts(m.before, "\"", PiecesText(m.name), x, rest);
  }

  lemma FiveParts(a: string, b: string, c: string, d: string, e: string, more: string, rest: string)
    ensures a + (b + (c + (d + (e + more)))) + rest == a + (b + (c + (d + (e + (more + rest)))))
  {}

  lemma QuotedParts(a: string, quote: string, name: string, x: string, rest: string)
    ensures a + (quote + (name + (quote + x))) + rest == a + ((quote + (name + quote)) + (x + rest))
  {}

  lemma NameText(name: seq<Piece>)
    ensures DocText(Literal(name, true)) == "\"" + (PiecesText(name) + "\"")
  {}

  lemma MembersBegin(members: seq<MemberDoc>, rest: string)
    requires members != [] && AreMembers(members)
    ensures var m := members[0];
      && Skip(MembersText(members) + rest) == DocText(Literal(m.name, true)) + BehindName(members, rest)
      && Peek(Skip(MembersText(members) + rest)) == '\"'
  {
    hide DocText, Skip, MembersText, BehindName, IsDoc, ArePieces;
    var m := members[0];
    MembersSplit(members, rest);
    NameText(m.name);
    BlanksSkipped(m.before, DocText(Literal(m.name, true)) + BehindName(members, rest));
  }

  lemma {:induction false} MembersRead(members: seq<MemberDoc>, rest: string)
    requires members != [] && AreMembers(members)
    ensures ParseMembers(MembersText(members) + ("}" + rest)) == Accepted(NamedMeanings(members), rest)
    decreases members, 1
  {
    hide ParseValue, ParseString, DocText, IsDoc, ArePieces, PiecesBytes, MembersText, Meaning, Skip, ValueEnds,
      IsClosed;
    var m := members[0];
    var tail := BehindFirst(members, "}" + rest);
    var value := DocText(m.doc) + (m.after + tail);
    var colon := ":" + (m.behind + value);
    MembersBegin(members, "}" + rest);
    LiteralRead(m.name, true, m.middle + colon);
    BlanksSkipped(m.middle, colon);
    assert colon[1..] == m.behind + value;
    DocStart(m.doc, m.after + tail);
    BlanksSkipped(m.behind, value);
    InnerEnds(m.doc, m.after, tail);
    DocRead(m.doc, m.after + tail);
    BlanksSkipped(m.after, tail);
    if |members| == 1 {
      assert NamedMeanings(members) == [Member(PiecesBytes(m.name), Meaning(m.doc))];
    } else {
      assert tail[1..] == MembersText(members[1..]) + ("}" + rest);
      MembersRead(members[1..], rest);
    }
  }

  // ---- finding the syntax tree ----

  lemma WordFound(s: string) returns (d: Doc, rest: string)
    requires StartsWith(s, "null") || StartsWith(s, "false") || StartsWith(s, "true")
    ensures d.Word? && IsDoc(d) && s == DocText(d) + rest
  {
    d := Word(if StartsWith(s, "null") then "null" else if StartsWith(s, "false") then "false" else "true");
    rest := s[|d.word|..];
  }

  lemma LiteralFound(s: string) returns (pieces: seq<Piece>, closed: bool, rest: string)
    requires ParseString(s).Accepted?
    ensures ArePieces(pieces) && (closed || rest == "") && s == DocText(Literal(pieces, closed)) + rest
    ensures ParseString(s) == Accepted(PiecesBytes(pieces), rest)
  {
    hide ArePieces, PiecesText, PiecesBytes, Unescape, DocText;
    var tail;
    pieces, closed, tail, rest := PiecesFound(s[1..]);
    LiteralText(pieces, closed, rest);
    assert s == "\"" + s[1..];
    LiteralRead(pieces, closed, rest);
  }

  lemma DispatchFound(s: string)
    requires ParseValue(s).Accepted?
    ensures StartsWith(s, "null") || StartsWith(s, "false") || StartsWith(s, "true")
         || Peek(s) == '\"' || Peek(s) == '-' || IsDigit(Peek(s)) || Peek(s) == '[' || Peek(s) == '{'
  {
    hide ParseString, ParseNumber, ParseArray, ParseObject;
  }

  /** Every text that the parser accepts starts with the text of a syntax tree. */
  lemma {:induction false} DocFound(s: string) returns (d: Doc, rest: string)
    requires ParseValue(s).Accepted?
    ensures IsDoc(d) && ValueEnds(d, rest) && s == DocText(d) + rest
    decreases |s|, 1
  {
    hide ParseValue, ParseArray, ParseObject, ParseNumber, ParseString, NumeralText, PiecesText, ItemsText, MembersText,
      IsNumeral, ArePieces, AreItems, AreMembers, NumeralEnds;
    DispatchFound(s);
    JsonRoundTrip.ParseByOpening(s);
    if StartsWith(s, "null") || StartsWith(s, "false") || StartsWith(s, "true") {
      d, rest := WordFound(s);
    } else if Peek(s) == '\"' {
      var pieces, closed;
      pieces, closed, rest := LiteralFound(s);
      d := Literal(pieces, closed);
    } else if Peek(s) == '-' || IsDigit(Peek(s)) {
      var n;
      n, rest := NumeralFound(s);
      d := Numeric(n);
    } else if Peek(s) == '[' {
      d, rest := ArrayFound(s);
    } else {
      d, rest := ObjectFound(s);
    }
  }

  lemma {:induction false} ArrayFound(s: string) returns (d: Doc, rest: string)
    requires Peek(s) == '[' && ParseArray(s).Accepted?
    ensures d.ArrayDoc? && IsDoc(d) && s == DocText(d) + rest
    decreases |s|, 0
  {
    hide ParseItems, ItemsText, Skip, AreItems;
    var b := BlanksFound(s[1..]);
    var t := Skip(s[1..]);
    assert s == "[" + s[1..];
    if Peek(t) == ']' {
      d, rest := ArrayDoc(b, []), t[1..];
      NothingListed();
      assert t == "]" + rest && "[" + (b + ("]" + rest)) == "[" + (b + "]") + rest;
    } else {
      JsonRoundTrip.SkipTwice(s[1..]);
      JsonRoundTrip.LoopsSkip(t, s[1..]);
      var items;
      items, rest := ItemsFound(s[1..]);
      d := ArrayDoc("", items);
      assert "[" + (ItemsText(items) + ("]" + rest)) == "[" + (ItemsText(items) + "]") + rest;
    }
  }

  lemma NothingListed()
    ensures AreItems([]) && AreMembers([])
  {}

  lemma ItemAround(before: string, d: Doc, after: string, tail: string, items: seq<ItemDoc>, s: string, rest: string)
    requires s == before + (DocText(d) + (after + tail)) && AreBlanks(before) && AreBlanks(after)
    requires IsDoc(d) && IsClosed(d) && AreItems(items)
    requires if items == [] then tail == "]" + rest else tail == "," + (ItemsText(items) + ("]" + rest))
    ensures var all := [ItemDoc(before, d, after)] + items; AreItems(all) && s == ItemsText(all) + ("]" + rest)
  {
    hide DocText, IsDoc, AreBlanks, IsClosed;
    var all := [ItemDoc(before, d, after)] + items;
    assert all[1..] == items;
    var more := if items == [] then "" else "," + ItemsText(items);
    assert tail == more + ("]" + rest);
    assert before + (DocText(d) + (after + more)) + ("]" + rest)
        == before + (DocText(d) + (after + (more + ("]" + rest))));
  }

  lemma ClosedBefore(d: Doc, u: string)
    requires ValueEnds(d, u) && u != ""
    ensures IsClosed(d)
  {}

  lemma {:induction false} ItemsFound(s: string) returns (items: seq<ItemDoc>, rest: string)
    requires ParseItems(s).Accepted?
    ensures items != [] && AreItems(items) && s == ItemsText(items) + ("]" + rest)
    decreases |s|, 2
  {
    hide ParseValue, DocText, IsDoc, Skip, ValueEnds, IsClosed, ItemsText, AreItems, AreBlanks, Meaning;
    var before := BlanksFound(s);
    var d, u := DocFound(Skip(s));
    DocRead(d, u);
    var after := BlanksFound(u);
    var t := Skip(u);
    ClosedBefore(d, u);
    NothingListed();
    if Peek(t) == ',' {
      items, rest := ItemsFound(t[1..]);
      assert t == "," + t[1..];
      ItemAround(before, d, after, t, items, s, rest);
      items := [ItemDoc(before, d, after)] + items;
    } else {
      rest := t[1..];
      assert t == "]" + rest;
      ItemAround(before, d, after, t, [], s, rest);
      items := [ItemDoc(before, d, after)] + [];
    }
  }

  lemma {:induction false} ObjectFound(s: string) returns (d: Doc, rest: string)
    requires Peek(s) == '{' && ParseObject(s).Accepted?
    ensures d.ObjectDoc? && IsDoc(d) && s == DocText(d) + rest
    decreases |s|, 0
  {
    hide ParseMembers, MembersText, Skip, AreMembers;
    var b := BlanksFound(s[1..]);
    var t := Skip(s[1..]);
    assert s == "{" + s[1..];
    if Peek(t) == '}' {
      d, rest := ObjectDoc(b, []), t[1..];
      NothingListed();
      assert t == "}" + rest && "{" + (b + ("}" + rest)) == "{" + (b + "}") + rest;
    } else {
      JsonRoundTrip.SkipTwice(s[1..]);
      JsonRoundTrip.LoopsSkip(t, s[1..]);
      var members;
      members, rest := MembersFound(s[1..]);
      d := ObjectDoc("", members);
      assert "{" + (MembersText(members) + ("}" + rest)) == "{" + (MembersText(members) + "}") + rest;
    }
  }

  lemma MemberOf(m: MemberDoc, tail: string, members: seq<MemberDoc>, s: string, rest: string)
    requires s == m.before + (DocText(Literal(m.name, true))
      + (m.middle + (":" + (m.behind + (DocText(m.doc) + (m.after + tail))))))
    requires AreMembers([m]) && AreMembers(members)
    requires if members == [] then tail == "}" + rest else tail == "," + (MembersText(members) + ("}" + rest))
    ensures AreMembers([m] + members) && s == MembersText([m] + members) + ("}" + rest)
  {
    hide DocText, IsDoc, AreBlanks, IsClosed, ArePieces, MembersText;
    var all := [m] + members;
    assert all[1..] == members;
    MembersSplit(all, "}" + rest);
  }

  lemma {:induction false} MembersFound(s: string) returns (members: seq<MemberDoc>, rest: string)
    requires ParseMembers(s).Accepted?
    ensures members != [] && AreMembers(members) && s == MembersText(members) + ("}" + rest)
    decreases |s|, 2
  {
    hide ParseValue, ParseString, DocText, IsDoc, ArePieces, PiecesBytes, Skip, ValueEnds, IsClosed, MembersText,
      AreMembers, AreBlanks, Meaning;
    var before := BlanksFound(s);
    var name, closed, v := LiteralFound(Skip(s));
    var middle := BlanksFound(v);
    var colon := Skip(v);
    assert colon == ":" + colon[1..];
    assert closed;
    var behind := BlanksFound(colon[1..]);
    var d, u := DocFound(Skip(colon[1..]));
    DocRead(d, u);
    var after := BlanksFound(u);
    var t := Skip(u);
    ClosedBefore(d, u);
    NothingListed();
    var m := MemberDoc(before, name, middle, behind, d, after);
    OneMember(m);
    if Peek(t) == ',' {
      members, rest := MembersFound(t[1..]);
      assert t == "," + t[1..];
      MemberOf(m, t, members, s, rest);
      members := [m] + members;
    } else {
      rest := t[1..];
      assert t == "}" + rest;
      MemberOf(m, t, [], s, rest);
      members := [m] + [];
    }
  }

  lemma OneMember(m: MemberDoc)
    requires AreBlanks(m.before) && ArePieces(m.name) && AreBlanks(m.middle) && AreBlanks(m.behind)
    requires IsDoc(m.doc) && IsClosed(m.doc) && AreBlanks(m.after)
    ensures AreMembers([m])
  {
    NothingListed();
  }

  // ---- what the parser accepts ----

  /** The text s starts with that of a syntax tree, which means v, and rest is what stands behind it. */
  ghost predicate Denotes(s: string, v: Json, rest: string) {
    exists d: Doc :: IsDoc(d) && ValueEnds(d, rest) && s == DocText(d) + rest && Meaning(d) == v
  }

  /** parse_value accepts exactly the texts of the grammar, with their values, wherever white space stands in them. */
  lemma ValueAccepted(s: string, v: Json, rest: string)
    ensures ParseValue(s) == Accepted(v, rest) <==> Denotes(s, v, rest)
  {
    hide ParseValue, DocText, IsDoc, ValueEnds, Meaning;
    if ParseValue(s) == Accepted(v, rest) {
      var d, u := DocFound(s);
      DocRead(d, u);
    }
    if Denotes(s, v, rest) {
      var d: Doc :| IsDoc(d) && ValueEnds(d, rest) && s == DocText(d) + rest && Meaning(d) == v;
      DocRead(d, rest);
    }
  }

  /** White space, and then such a text. */
  ghost predicate Leads(s: string, v: Json, rest: string) {
    exists before: string, t: string :: AreBlanks(before) && s == before + t && Denotes(t, v, rest)
  }

  lemma DenotesStart(t: string, v: Json, rest: string)
    requires Denotes(t, v, rest)
    ensures Peek(t) > ' '
  {
    hide DocText, IsDoc, ValueEnds, Meaning;
    var d: Doc :| IsDoc(d) && ValueEnds(d, rest) && t == DocText(d) + rest && Meaning(d) == v;
    DocStart(d, rest);
  }

  lemma SpacedValueAccepted(s: string, v: Json, rest: string)
    ensures ParseValue(Skip(s)) == Accepted(v, rest) <==> Leads(s, v, rest)
  {
    hide ParseValue, Denotes, Skip, AreBlanks;
    var b := BlanksFound(s);
    ValueAccepted(Skip(s), v, rest);
    if Leads(s, v, rest) {
      var before: string, t: string :| AreBlanks(before) && s == before + t && Denotes(t, v, rest);
      DenotesStart(t, v, rest);
      BlanksSkipped(before, t);
    }
  }

  lemma {:induction false} AllBlank(s: string)
    ensures Skip(s) == "" <==> AreBlanks(s)
  {
    if s != "" {
      AllBlank(s[1..]);
      assert s == s[..1] + s[1..];
    }
  }

  /** The same for whole texts, where white space may stand in front of the value: without requireNullTerminated
      anything may stand behind it, and with it only white space. */
  lemma DocumentAccepted(s: string, v: Json, rest: string)
    ensures ParseWithOpts(s, false) == Accepted(v, rest) <==> Leads(s, v, rest)
    ensures ParseWithOpts(s, true) == Accepted(v, rest)
      <==> rest == "" && exists after: string :: AreBlanks(after) && Leads(s, v, after)
  {
    hide ParseValue, Leads, Skip, AreBlanks;
    SpacedValueAccepted(s, v, rest);
    forall after: string ensures ParseValue(Skip(s)) == Accepted(v, after) <==> Leads(s, v, after) {
      SpacedValueAccepted(s, v, after);
    }
    forall after: string ensures Skip(after) == "" <==> AreBlanks(after) {
      AllBlank(after);
    }
  }

  // ---- texts that end inside an escape ----

  /** u is what s ends with. */
  ghost predicate EndsWith(s: string, u: string) {
    |u| <= |s| && s[|s| - |u|..] == u
  }

  lemma EndsWithTail(s: string, a: string, u: string, v: string)
    requires s == a + u && EndsWith(u, v)
    ensures EndsWith(s, v)
  {
    assert s[|s| - |v|..] == u[|u| - |v|..];
  }

  lemma EndsWithRest(s: string, v: string)
    requires s != "" && EndsWith(s[1..], v)
    ensures EndsWith(s, v)
  {
    assert s == s[..1] + s[1..];
    EndsWithTail(s, s[..1], s[1..], v);
  }

  /** A literal that the text ends with is cut. */
  ghost predicate CutHereIn(s: string, u: string) {
    EndsWith(s, u) && u != "" && u[0] == '\"' && CutLiteral(u[1..])
  }

  lemma CutIn(s: string, a: string, u: string, v: string)
    requires s == a + u && CutHereIn(u, v)
    ensures CutHereIn(s, v)
  {
    EndsWithTail(s, a, u, v);
  }

  lemma CutInRest(s: string, v: string)
    requires s != "" && CutHereIn(s[1..], v)
    ensures CutHereIn(s, v)
  {
    EndsWithRest(s, v);
  }

  /** A text is cut only where one of its literals is. */
  lemma {:induction false} ValueCut(s: string) returns (u: string)
    requires ParseValue(s).Truncated?
    ensures CutHereIn(s, u)
    decreases |s|, 1
  {
    hide ParseItems, ParseMembers, ParseString, ParseNumber, Unescape, Skip, CutHereIn, AreBlanks;
    if Peek(s) == '\"' {
      StringCut(s);
      u := s;
    } else {
      var b := BlanksFound(s[1..]);
      if Peek(s) == '[' {
        u := ItemsCut(Skip(s[1..]));
      } else {
        u := MembersCut(Skip(s[1..]));
      }
      CutIn(s[1..], b, Skip(s[1..]), u);
      CutInRest(s, u);
    }
  }

  lemma StringCut(s: string)
    requires ParseString(s).Truncated?
    ensures Peek(s) == '\"' && CutHereIn(s, s)
  {
    LiteralCut(s[1..]);
    hide Unescape, CutLiteral;
  }

  lemma {:induction false} ItemsCut(s: string) returns (u: string)
    requires ParseItems(s).Truncated?
    ensures CutHereIn(s, u)
    decreases |s|, 2
  {
    hide ParseValue, Skip, CutHereIn, DocText, IsDoc, ValueEnds, Meaning, AreBlanks;
    var b := BlanksFound(s);
    if ParseValue(Skip(s)).Truncated? {
      u := ValueCut(Skip(s));
    } else {
      var d, rest := DocFound(Skip(s));
      DocRead(d, rest);
      var after := BlanksFound(rest);
      u := ItemsCut(Skip(rest)[1..]);
      CutInRest(Skip(rest), u);
      CutIn(rest, after, Skip(rest), u);
      CutIn(Skip(s), DocText(d), rest, u);
    }
    CutIn(s, b, Skip(s), u);
  }

  lemma {:induction false} MembersCut(s: string) returns (u: string)
    requires ParseMembers(s).Truncated?
    ensures CutHereIn(s, u)
    decreases |s|, 2
  {
    hide ParseValue, ParseString, Skip, CutHereIn, DocText, ArePieces, PiecesBytes, AreBlanks;
    var b := BlanksFound(s);
    if ParseString(Skip(s)).Truncated? {
      StringCut(Skip(s));
      u := Skip(s);
    } else {
      var name, closed, v := LiteralFound(Skip(s));
      var middle := BlanksFound(v);
      u := MemberValueCut(Skip(v)[1..]);
      CutInRest(Skip(v), u);
      CutIn(v, middle, Skip(v), u);
      CutIn(Skip(s), DocText(Literal(name, closed)), v, u);
    }
    CutIn(s, b, Skip(s), u);
  }

  /** Behind the colon of a member. */
  lemma {:induction false} MemberValueCut(s: string) returns (u: string)
    requires var value := ParseValue(Skip(s));
      value.Truncated? || (value.Accepted? && var t := Skip(value.rest); t != "" && ParseMembers(t[1..]).Truncated?)
    ensures CutHereIn(s, u)
    decreases |s|, 3
  {
    hide ParseValue, ParseMembers, Skip, CutHereIn, DocText, IsDoc, ValueEnds, Meaning, AreBlanks;
    var behind := BlanksFound(s);
    if ParseValue(Skip(s)).Truncated? {
      u := ValueCut(Skip(s));
    } else {
      var d, rest := DocFound(Skip(s));
      DocRead(d, rest);
      var after := BlanksFound(rest);
      u := MembersCut(Skip(rest)[1..]);
      CutInRest(Skip(rest), u);
      CutIn(rest, after, Skip(rest), u);
      CutIn(Skip(s), DocText(d), rest, u);
    }
    CutIn(s, behind, Skip(s), u);
  }
}
