/** Printing and reading back. */
module JsonRoundTrip {
  import opened CText
  import opened JsonNumbers
  import opened JsonStrings
  import opened Json

  /** No printed value starts with white space or with a closing bracket or brace. */
  lemma FirstCharacter(v: Json, depth: nat, fmt: bool, rest: string)
    requires Printable(v)
    ensures var s := PrintValue(v, depth, fmt) + rest;
      s != [] && s[0] > ' ' && s[0] != ']' && s[0] != '}' && Skip(s) == s
  {}

  lemma SkipBlank(fmt: bool, blank: char, s: string)
    requires blank <= ' '
    ensures Skip(If(fmt, [blank]) + s) == Skip(s)
  {
    SkipOver(If(fmt, [blank]), s);
  }

  lemma ParseWord(word: string, rest: string)
    requires word == "null" || word == "false" || word == "true"
    ensures ParseValue(word + rest)
         == Accepted(if word == "null" then Null else if word == "false" then False else True, rest)
  {
    assert (word + rest)[..|word|] == word && (word + rest)[|word|..] == rest;
    assert (word + rest)[0] == word[0];
  }

  lemma ParseByOpening(s: string)
    ensures Peek(s) == '\"' ==> ParseValue(s) == match ParseString(s) {
              case Accepted(text, rest) => Accepted(String(text), rest)
              case Rejected => Rejected
              case Truncated => Truncated }
    ensures Peek(s) == '[' ==> ParseValue(s) == ParseArray(s)
    ensures Peek(s) == '{' ==> ParseValue(s) == ParseObject(s)
  {
    hide ParseString, ParseArray, ParseObject;
  }

  /** Reading what was printed, formatted or not and at any depth, consumes exactly that text, whatever follows, and
      rebuilds the value. */
  lemma {:induction false} ParsePrintValue(v: Json, depth: nat, fmt: bool, rest: string)
    requires Printable(v) && (v.Number? ==> NumberEnds(rest))
    ensures ParseValue(PrintValue(v, depth, fmt) + rest) == Accepted(Rounded(v), rest)
    decreases v, 0
  {
    hide ParseValue, ParseString, PrintString, ParseArray, ParseObject, PrintItems, PrintMembers, IntText, NumberEnds,
      If;
    ParseByOpening(PrintValue(v, depth, fmt) + rest);
    match v
    case Null => ParseWord("null", rest);
    case False => ParseWord("false", rest);
    case True => ParseWord("true", rest);
    case Number(i, _) => ParsePrintNumber(i, rest);
    case String(text) =>
      ParsePrintString(text, rest);
      StringStart(text, rest);
    case Array(items) => ParsePrintArray(v, depth, fmt, rest);
    case Object(members) => ParsePrintObject(v, depth, fmt, rest);
  }

  lemma {:induction false} ParsePrintArray(v: Json, depth: nat, fmt: bool, rest: string)
    requires v.Array? && Printable(v)
    ensures var s := PrintValue(v, depth, fmt) + rest; Peek(s) == '[' && ParseArray(s) == Accepted(Rounded(v), rest)
    decreases v.items, 2
  {
    hide ParseItems, PrintItems, Skip;
    var inner := PrintItems(v.items, depth + 1, fmt) + ("]" + rest);
    assert (PrintValue(v, depth, fmt) + rest)[1..] == inner;
    if v.items == [] {
      ItemsOfNone(depth + 1, fmt);
      assert inner == "]" + rest;
      SkipNothing(inner);
    } else {
      ItemsStart(v.items, depth + 1, fmt, "]" + rest);
      ParsePrintItems(v.items, depth + 1, fmt, rest);
    }
  }

  lemma ItemsOfNone(depth: nat, fmt: bool)
    ensures PrintItems([], depth, fmt) == ""
  {}

  lemma {:induction false} ParsePrintObject(v: Json, depth: nat, fmt: bool, rest: string)
    requires v.Object? && Printable(v)
    ensures var s := PrintValue(v, depth, fmt) + rest; Peek(s) == '{' && ParseObject(s) == Accepted(Rounded(v), rest)
    decreases v.members, 2
  {
    hide ParseMembers, PrintMembers, Skip;
    var s := PrintValue(v, depth, fmt) + rest;
    var blanks := If(fmt, if v.members == [] then "\n" + Tabs(depth - 1) else Tabs(depth));
    var close := blanks + ("}" + rest);
    if v.members == [] {
      assert s[1..] == close;
      SkipOver(blanks, "}" + rest);
      SkipNothing("}" + rest);
    } else {
      var inner := PrintMembers(v.members, depth + 1, fmt) + close;
      assert s[1..] == If(fmt, "\n") + inner;
      SkipBlank(fmt, '\n', inner);
      MembersStart(v.members, depth + 1, fmt, close);
      ParsePrintMembers(v.members, depth + 1, fmt, blanks, rest);
      SkipTwice(inner);
      LoopsSkip(Skip(inner), inner);
    }
  }

  lemma TruncateInt(i: int)
    ensures Truncate(i as real) == i
  {}

  lemma ParsePrintNumber(i: int, rest: string)
    requires NumberEnds(rest)
    ensures ParseValue(IntText(i) + rest) == Accepted(Number(i, i as real), rest)
  {
    hide ParseNumber, NumberEnds, Truncate;
    var t := IntText(i);
    assert (t + rest)[0] == t[0];
    ParseIntText(i, rest);
    TruncateInt(i);
  }

  lemma SkipNothing(s: string)
    requires Peek(s) > ' '
    ensures Skip(s) == s
  {}

  lemma StringStart(text: string, rest: string)
    requires IsText(text)
    ensures Peek(PrintString(text) + rest) == '\"'
  {}

  lemma ItemsStart(items: seq<Json>, depth: nat, fmt: bool, rest: string)
    requires items != [] && PrintableItems(items)
    ensures var s := PrintItems(items, depth, fmt) + rest; Skip(s) == s && Peek(s) != ']'
  {
    FirstCharacter(items[0], depth, fmt, []);
    SkipNothing(PrintItems(items, depth, fmt) + rest);
  }

  lemma SkipTwice(s: string)
    ensures Skip(Skip(s)) == Skip(s)
  {
    if Skip(s) != [] {
      SkipNothing(Skip(s));
    }
  }

  /** The loops start by skipping white space, so skipping it before makes no difference. */
  lemma LoopsSkip(s: string, t: string)
    requires Skip(s) == Skip(t)
    ensures ParseItems(s) == ParseItems(t) && ParseMembers(s) == ParseMembers(t)
  {}

  lemma {:induction false} ParsePrintItems(items: seq<Json>, depth: nat, fmt: bool, rest: string)
    requires items != [] && PrintableItems(items)
    ensures ParseItems(PrintItems(items, depth, fmt) + ("]" + rest)) == Accepted(RoundedItems(items), rest)
    decreases items, 1
  {
    hide ParseValue, PrintValue, Skip;
    var more := PrintItems(items[1..], depth, fmt) + ("]" + rest);
    var tail := if |items| == 1 then "]" + rest else "," + (If(fmt, " ") + more);
    var s := PrintItems(items, depth, fmt) + ("]" + rest);
    assert s == PrintValue(items[0], depth, fmt) + tail;
    FirstCharacter(items[0], depth, fmt, tail);
    ParsePrintValue(items[0], depth, fmt, tail);
    SkipNothing(tail);
    if |items| == 1 {
      assert RoundedItems(items) == [Rounded(items[0])];
    } else {
      SkipBlank(fmt, ' ', more);
      LoopsSkip(tail[1..], more);
      ParsePrintItems(items[1..], depth, fmt, rest);
    }
  }

  lemma MembersStart(members: seq<Member>, depth: nat, fmt: bool, rest: string)
    requires members != [] && PrintableMembers(members)
    ensures var s := PrintMembers(members, depth, fmt) + rest; Peek(Skip(s)) == '\"'
  {
    hide PrintValue, PrintString, Skip;
    var m := members[0];
    var value := If(fmt, "\t") + PrintValue(m.value, depth, fmt);
    var s := PrintMembers(members, depth, fmt) + rest;
    var behind := s[|PrintMember(m, depth, fmt)|..];
    assert s == PrintMember(m, depth, fmt) + behind;
    MemberStart(m, depth, fmt, behind);
  }

  lemma MemberStart(m: Member, depth: nat, fmt: bool, rest: string)
    requires IsText(m.name) && Printable(m.value)
    ensures var named := PrintString(m.name) + (":" + (If(fmt, "\t") + (PrintValue(m.value, depth, fmt) + rest)));
      Skip(PrintMember(m, depth, fmt) + rest) == named && Peek(named) == '\"'
  {
    hide PrintValue, PrintString, Skip, If;
    var tabs, name := If(fmt, Tabs(depth)), PrintString(m.name);
    var tab, value := If(fmt, "\t"), PrintValue(m.value, depth, fmt);
    var named := name + (":" + (tab + (value + rest)));
    Reassociate(tabs, name, ":", tab, value, rest);
    StringStart(m.name, ":" + (tab + (value + rest)));
    SkipTabs(fmt, depth, named);
    SkipNothing(named);
  }

  lemma SkipTabs(fmt: bool, depth: nat, s: string)
    ensures Skip(If(fmt, Tabs(depth)) + s) == Skip(s)
  {
    SkipOver(If(fmt, Tabs(depth)), s);
  }

  lemma Reassociate(a: string, b: string, c: string, d: string, e: string, f: string)
    ensures a + b + c + d + e + f == a + (b + (c + (d + (e + f))))
  {}

  /** Reading a member: its name, the colon, its value. */
  lemma {:induction false} ParsePrintMember(m: Member, depth: nat, fmt: bool, rest: string)
    requires IsText(m.name) && Printable(m.value) && NumberEnds(rest)
    ensures var name := ParseString(Skip(PrintMember(m, depth, fmt) + rest));
      && name.Accepted? && name.value == m.name && Peek(Skip(name.rest)) == ':'
      && ParseValue(Skip(Skip(name.rest)[1..])) == Accepted(Rounded(m.value), rest)
    decreases m, 1
  {
    hide ParseValue, PrintValue, ParseString, PrintString, PrintMember, Skip, NumberEnds;
    MemberStart(m, depth, fmt, rest);
    var value := PrintValue(m.value, depth, fmt) + rest;
    var colon := ":" + (If(fmt, "\t") + value);
    ParsePrintString(m.name, colon);
    SkipNothing(colon);
    assert colon[1..] == If(fmt, "\t") + value;
    SkipBlank(fmt, '\t', value);
    FirstCharacter(m.value, depth, fmt, rest);
    ParsePrintValue(m.value, depth, fmt, rest);
  }

  lemma {:induction false} ParsePrintMembers(members: seq<Member>, depth: nat, fmt: bool, blanks: string, rest: string)
    requires members != [] && PrintableMembers(members)
    requires forall i | 0 <= i < |blanks| :: blanks[i] == '\t'
    ensures ParseMembers(PrintMembers(members, depth, fmt) + (blanks + ("}" + rest)))
         == Accepted(RoundedMembers(members), rest)
    decreases members, 1
  {
    hide ParseValue, PrintValue, ParseString, PrintMember, Skip;
    var m := members[0];
    var close := blanks + ("}" + rest);
    var more := PrintMembers(members[1..], depth, fmt) + close;
    var tail := if |members| == 1 then If(fmt, "\n") + close else "," + (If(fmt, "\n") + more);
    assert PrintMembers(members, depth, fmt) + close == PrintMember(m, depth, fmt) + tail;
    ParsePrintMember(m, depth, fmt, tail);
    if |members| == 1 {
      SkipBlank(fmt, '\n', close);
      SkipOver(blanks, "}" + rest);
      SkipNothing("}" + rest);
      assert RoundedMembers(members) == [Member(m.name, Rounded(m.value))];
    } else {
      SkipNothing(tail);
      SkipBlank(fmt, '\n', more);
      LoopsSkip(tail[1..], more);
      ParsePrintMembers(members[1..], depth, fmt, blanks, rest);
    }
  }

  // ---- whole documents ----

  /** A number whose two fields agree. */
  ghost predicate Exact(v: Json)
    decreases v, 0
  {
    match v
    case Number(i, d) => d == i as real
    case Array(items) => forall x | x in items :: Exact(x)
    case Object(members) => forall m: Member | m in members :: Exact(m.value)
    case _ => true
  }

  lemma {:induction false} RoundedItemsExact(items: seq<Json>)
    ensures RoundedItems(items) == items <==> forall x | x in items :: Exact(x)
    decreases items, 1
  {
    if items != [] {
      RoundedExact(items[0]);
      RoundedItemsExact(items[1..]);
      assert items == [items[0]] + items[1..];
      assert RoundedItems(items)[1..] == RoundedItems(items[1..]);
    }
  }

  lemma {:induction false} RoundedMembersExact(members: seq<Member>)
    ensures RoundedMembers(members) == members <==> forall m: Member | m in members :: Exact(m.value)
    decreases members, 1
  {
    if members != [] {
      RoundedExact(members[0].value);
      RoundedMembersExact(members[1..]);
      assert members == [members[0]] + members[1..];
      assert RoundedMembers(members)[1..] == RoundedMembers(members[1..]);
    }
  }

  lemma {:induction false} RoundedExact(v: Json)
    ensures Rounded(v) == v <==> Exact(v)
    decreases v, 0
  {
    match v
    case Array(items) => RoundedItemsExact(items);
    case Object(members) => RoundedMembersExact(members);
    case _ =>
  }

  /** Reading a printed document, with nothing allowed behind it, gives the value back exactly when the two fields of
      each of its numbers agree; otherwise those numbers come back rounded. */
  lemma DocumentRoundTrip(v: Json, fmt: bool, strict: bool)
    requires Printable(v)
    ensures ParseWithOpts(PrintValue(v, 0, fmt), strict) == Accepted(Rounded(v), [])
    ensures ParseWithOpts(PrintValue(v, 0, fmt), strict) == Accepted(v, []) <==> Exact(v)
  {
    hide PrintValue, ParseValue, Rounded, Exact;
    var s := PrintValue(v, 0, fmt);
    assert s + [] == s;
    FirstCharacter(v, 0, fmt, []);
    ParsePrintValue(v, 0, fmt, []);
    RoundedExact(v);
  }

  /** A number that print_number sends through %d although valuedouble is no integer: it comes back changed. */
  lemma RoundingLoses()
    ensures var v := Number(1, 1.0 + DBL_EPSILON);
      && Printable(v) && v != Number(1, 1.0)
      && ParseWithOpts(PrintValue(v, 0, false), true) == Accepted(Number(1, 1.0), [])
  {
    DocumentRoundTrip(Number(1, 1.0 + DBL_EPSILON), false, true);
  }
}
