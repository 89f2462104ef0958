/** cJSON_Minify, as a function on texts. */
module JsonMinify {
  import opened CText
  import opened JsonNumbers
  import opened JsonStrings
  import opened Json

  function Behind(a: string, r: Option<string>): Option<string> {
    match r
    case None => None
    case Some(t) => Some(a + t)
  }

  predicate IsBlank(c: char) {
    c == ' ' || c == '\t' || c == '\r' || c == '\n'
  }

  /** What a line comment leaves: the text from the end of the line on. */
  function AfterLine(s: string): (r: string)
    ensures |r| <= |s| && (s != [] && s[0] != '\n' ==> |r| < |s|)
  {
    if s == [] || s[0] == '\n' then s else AfterLine(s[1..])
  }

  /** What a comment leaves: the text behind the first star that a slash follows. The search starts at the opening
      slash, so a comment may close with its own opening star. */
  function AfterComment(s: string): (r: Option<string>)
    ensures r.Some? ==> |r.value| < |s|
  {
    if s == [] then None
    else if s[0] == '*' && Peek(s[1..]) == '/' then Some(s[2..])
    else AfterComment(s[1..])
  }

  /** The number of characters before the quote that closes a literal. */
  function LiteralSpan(s: string): (k: Option<nat>)
    ensures k.Some? ==> k.value < |s| && s[k.value] == '\"'
  {
    if s == [] then None
    else if s[0] == '\"' then Some(0)
    else if s[0] == '\\' then
      if |s| < 2 then None
      else match LiteralSpan(s[2..]) { case None => None case Some(k) => Some(k + 2) }
    else match LiteralSpan(s[1..]) { case None => None case Some(k) => Some(k + 1) }
  }

  predicate StartsComment(s: string) {
    Peek(s) == '/' && |s| > 1 && (s[1] == '/' || s[1] == '*')
  }

  /** cJSON_Minify. None stands for a text whose last comment or literal is not closed: the C code then steps past the
      terminator. */
  function Minify(s: string): Option<string>
    decreases |s|
  {
    if s == [] then Some([])
    else if IsBlank(s[0]) then Minify(s[1..])
    else if StartsComment(s) then
      if s[1] == '/' then Minify(AfterLine(s))
      else match AfterComment(s) { case None => None case Some(t) => Minify(t) }
    else if s[0] == '\"' then
      match LiteralSpan(s[1..])
      case None => None
      case Some(k) => Behind(s[..k + 2], Minify(s[k + 2..]))
    else Behind(s[..1], Minify(s[1..]))
  }

  // ---- the third way to the unformatted text ----

  predicate IsPlain(c: char) {
    !IsBlank(c) && c != '/' && c != '\"'
  }

  lemma {:induction false} MinifyPlain(t: string, rest: string)
    requires forall i | 0 <= i < |t| :: IsPlain(t[i])
    ensures Minify(t + rest) == Behind(t, Minify(rest))
  {
    if t == [] {
      assert t + rest == rest;
      BehindNothing(Minify(rest));
    } else {
      var s := t + rest;
      assert s[1..] == t[1..] + rest && s[..1] == [t[0]];
      MinifyPlain(t[1..], rest);
      assert [t[0]] + t[1..] == t;
      if Minify(rest).Some? {
        assert [t[0]] + (t[1..] + Minify(rest).value) == t + Minify(rest).value;
      }
    }
  }

  lemma BehindNothing(r: Option<string>)
    ensures Behind([], r) == r
  {
    if r.Some? {
      assert [] + r.value == r.value;
    }
  }

  lemma {:induction false} MinifyBlanks(t: string, rest: string)
    requires forall i | 0 <= i < |t| :: IsBlank(t[i])
    ensures Minify(t + rest) == Minify(rest)
  {
    if t == [] {
      assert t + rest == rest;
    } else {
      assert (t + rest)[1..] == t[1..] + rest;
      MinifyBlanks(t[1..], rest);
    }
  }

  lemma {:induction false} LiteralSpanOfEscape(s: string, rest: string)
    requires IsText(s)
    ensures LiteralSpan(Escape(s) + (['\"'] + rest)) == Some(|Escape(s)|)
  {
    var tail := ['\"'] + rest;
    if s == [] {
      assert Escape(s) + tail == tail;
    } else {
      var e := EscapeChar(s[0]);
      var more := Escape(s[1..]) + tail;
      assert Escape(s) + tail == e + more;
      hide LiteralSpan, EscapeChar;
      LiteralSpanOfEscape(s[1..], rest);
      LiteralSpanOfChar(s[0], more);
    }
  }

  lemma {:induction false} LiteralSpanOfPlain(t: string, more: string)
    requires (forall i | 0 <= i < |t| :: t[i] != '\"' && t[i] != '\\') && LiteralSpan(more).Some?
    ensures LiteralSpan(t + more) == Some(|t| + LiteralSpan(more).value)
  {
    if t == [] {
      assert t + more == more;
    } else {
      assert (t + more)[1..] == t[1..] + more;
      LiteralSpanOfPlain(t[1..], more);
    }
  }

  lemma EscapeCharShape(c: char)
    requires '\0' < c < 256 as char
    ensures var e := EscapeChar(c); e[0] == '\\' ==>
      |e| >= 2 && forall i | 0 <= i < |e[2..]| :: e[2..][i] != '\"' && e[2..][i] != '\\'
    ensures var e := EscapeChar(c); e[0] != '\\' ==> |e| == 1 && e[0] != '\"'
  {}

  lemma LiteralSpanOfPair(s: string)
    requires |s| >= 2 && s[0] == '\\' && LiteralSpan(s[2..]).Some?
    ensures LiteralSpan(s) == Some(2 + LiteralSpan(s[2..]).value)
  {}

  lemma LiteralSpanOfChar(c: char, more: string)
    requires '\0' < c < 256 as char && LiteralSpan(more).Some?
    ensures LiteralSpan(EscapeChar(c) + more) == Some(|EscapeChar(c)| + LiteralSpan(more).value)
  {
    EscapeCharShape(c);
    hide LiteralSpan, EscapeChar;
    var e := EscapeChar(c);
    if e[0] == '\\' {
      assert (e + more)[2..] == e[2..] + more;
      LiteralSpanOfPlain(e[2..], more);
      LiteralSpanOfPair(e + more);
    } else {
      LiteralSpanOfPlain(e, more);
    }
  }

  /** Literals are copied as they are. */
  lemma MinifyString(text: string, rest: string)
    requires IsText(text)
    ensures Minify(PrintString(text) + rest) == Behind(PrintString(text), Minify(rest))
  {
    var s := PrintString(text) + rest;
    assert s[1..] == Escape(text) + (['\"'] + rest);
    LiteralSpanOfEscape(text, rest);
    var k := |Escape(text)|;
    assert s[..k + 2] == PrintString(text) && s[k + 2..] == rest;
  }

  /** Minifying the formatted text of a value, at any depth and whatever follows, leaves its unformatted text. */
  lemma {:induction false} MinifyPrintValue(v: Json, depth: nat, rest: string)
    requires Printable(v)
    ensures Minify(PrintValue(v, depth, true) + rest) == Behind(PrintValue(v, depth, false), Minify(rest))
    decreases v, 0
  {
    hide Minify, PrintString, PrintItems, PrintMembers, IntText;
    match v
    case Null => MinifyPlain("null", rest);
    case False => MinifyPlain("false", rest);
    case True => MinifyPlain("true", rest);
    case Number(i, _) =>
      IntTextIsPlain(i);
      MinifyPlain(IntText(i), rest);
    case String(text) => MinifyString(text, rest);
    case Array(items) => MinifyPrintArray(v, depth, rest);
    case Object(members) => MinifyPrintObject(v, depth, rest);
  }

  lemma IntTextIsPlain(i: int)
    ensures forall k | 0 <= k < |IntText(i)| :: IsPlain(IntText(i)[k])
  {}

  lemma BehindTwice(a: string, b: string, r: Option<string>)
    ensures Behind(a, Behind(b, r)) == Behind(a + b, r)
  {
    if r.Some? {
      assert a + (b + r.value) == a + b + r.value;
    }
  }

  lemma {:induction false} MinifyPrintArray(v: Json, depth: nat, rest: string)
    requires v.Array? && Printable(v)
    ensures Minify(PrintValue(v, depth, true) + rest) == Behind(PrintValue(v, depth, false), Minify(rest))
    decreases v.items, 2
  {
    hide Minify, PrintItems, Behind;
    var items := PrintItems(v.items, depth + 1, true);
    var items' := PrintItems(v.items, depth + 1, false);
    assert PrintValue(v, depth, true) + rest == "[" + (items + ("]" + rest));
    MinifyPlain("[", items + ("]" + rest));
    MinifyPrintItems(v.items, depth + 1, "]" + rest);
    MinifyPlain("]", rest);
    BehindTwice(items', "]", Minify(rest));
    BehindTwice("[", items' + "]", Minify(rest));
    assert PrintValue(v, depth, false) == "[" + (items' + "]");
  }

  lemma {:induction false} MinifyPrintItems(items: seq<Json>, depth: nat, rest: string)
    requires PrintableItems(items)
    ensures Minify(PrintItems(items, depth, true) + rest) == Behind(PrintItems(items, depth, false), Minify(rest))
    decreases items, 1
  {
    hide Minify, PrintValue, Behind;
    if items == [] {
      MinifyPlain("", rest);
    } else {
      var value, value' := PrintValue(items[0], depth, true), PrintValue(items[0], depth, false);
      if |items| == 1 {
        assert PrintItems(items, depth, true) == value && PrintItems(items, depth, false) == value';
        MinifyPrintValue(items[0], depth, rest);
      } else {
        var more, more' := PrintItems(items[1..], depth, true), PrintItems(items[1..], depth, false);
        assert PrintItems(items, depth, true) + rest == value + ("," + (" " + (more + rest)));
        MinifyPrintValue(items[0], depth, "," + (" " + (more + rest)));
        MinifyPlain(",", " " + (more + rest));
        MinifyBlanks(" ", more + rest);
        MinifyPrintItems(items[1..], depth, rest);
        BehindTwice(",", more', Minify(rest));
        BehindTwice(value', "," + more', Minify(rest));
        assert PrintItems(items, depth, false) == value' + ("," + more');
      }
    }
  }

  lemma {:induction false} MinifyPrintObject(v: Json, depth: nat, rest: string)
    requires v.Object? && Printable(v)
    ensures Minify(PrintValue(v, depth, true) + rest) == Behind(PrintValue(v, depth, false), Minify(rest))
    decreases v.members, 2
  {
    hide Minify, PrintMembers, Behind, Tabs;
    var blanks := if v.members == [] then Tabs(depth - 1) else Tabs(depth);
    var members := PrintMembers(v.members, depth + 1, true);
    var members' := PrintMembers(v.members, depth + 1, false);
    var close := blanks + ("}" + rest);
    MembersOfNone(depth + 1);
    assert PrintValue(v, depth, true) + rest == "{" + ("\n" + (members + close));
    MinifyPlain("{", "\n" + (members + close));
    MinifyBlanks("\n", members + close);
    MinifyPrintMembers(v.members, depth + 1, close);
    MinifyBlanks(blanks, "}" + rest);
    MinifyPlain("}", rest);
    BehindTwice(members', "}", Minify(rest));
    BehindTwice("{", members' + "}", Minify(rest));
    assert PrintValue(v, depth, false) == "{" + (members' + "}");
  }

  lemma MembersOfNone(depth: nat)
    ensures forall fmt :: PrintMembers([], depth, fmt) == ""
  {}

  lemma {:induction false} MinifyPrintMembers(members: seq<Member>, depth: nat, rest: string)
    requires PrintableMembers(members)
    ensures Minify(PrintMembers(members, depth, true) + rest)
         == Behind(PrintMembers(members, depth, false), Minify(rest))
    decreases members, 1
  {
    hide Minify, PrintMember, Behind;
    if members == [] {
      MinifyPlain("", rest);
    } else {
      var m := members[0];
      var one, one' := PrintMember(m, depth, true), PrintMember(m, depth, false);
      if |members| == 1 {
        assert PrintMembers(members, depth, true) + rest == one + ("\n" + rest);
        assert PrintMembers(members, depth, false) == one';
        MinifyPrintMember(m, depth, "\n" + rest);
        MinifyBlanks("\n", rest);
      } else {
        var more, more' := PrintMembers(members[1..], depth, true), PrintMembers(members[1..], depth, false);
        assert PrintMembers(members, depth, true) + rest == one + ("," + ("\n" + (more + rest)));
        MinifyPrintMember(m, depth, "," + ("\n" + (more + rest)));
        MinifyPlain(",", "\n" + (more + rest));
        MinifyBlanks("\n", more + rest);
        MinifyPrintMembers(members[1..], depth, rest);
        BehindTwice(",", more', Minify(rest));
        BehindTwice(one', "," + more', Minify(rest));
        assert PrintMembers(members, depth, false) == one' + ("," + more');
      }
    }
  }

  lemma {:induction false} MinifyPrintMember(m: Member, depth: nat, rest: string)
    requires IsText(m.name) && Printable(m.value)
    ensures Minify(PrintMember(m, depth, true) + rest) == Behind(PrintMember(m, depth, false), Minify(rest))
    decreases m, 1
  {
    hide Minify, PrintValue, PrintString, Behind, Tabs;
    var name := PrintString(m.name);
    var value, value' := PrintValue(m.value, depth, true), PrintValue(m.value, depth, false);
    assert PrintMember(m, depth, true) + rest == Tabs(depth) + (name + (":" + ("\t" + (value + rest))));
    MinifyBlanks(Tabs(depth), name + (":" + ("\t" + (value + rest))));
    MinifyString(m.name, ":" + ("\t" + (value + rest)));
    MinifyPlain(":", "\t" + (value + rest));
    MinifyBlanks("\t", value + rest);
    MinifyPrintValue(m.value, depth, rest);
    BehindTwice(":", value', Minify(rest));
    BehindTwice(name, ":" + value', Minify(rest));
    assert PrintMember(m, depth, false) == name + (":" + value');
  }

  /** cJSON_Minify turns what cJSON_Print prints into what cJSON_PrintUnformatted prints, byte for byte. */
  lemma MinifyPrint(v: Json)
    requires Printable(v)
    ensures Minify(PrintValue(v, 0, true)) == Some(PrintValue(v, 0, false))
  {
    hide Minify, PrintValue;
    MinifyPrintValue(v, 0, []);
    MinifyPlain([], []);
    MinifyNothing();
    assert PrintValue(v, 0, true) + [] == PrintValue(v, 0, true);
    assert PrintValue(v, 0, false) + [] == PrintValue(v, 0, false);
  }

  lemma MinifyNothing()
    ensures Minify([]) == Some([])
  {}
}
