/** The parser of cJSON on nodes: parse_value, parse_array, parse_object and cJSON_ParseWithOpts. Whether a call
    succeeds or not, what it has made is well linked. */
module JsonParser {
  import opened CText
  import opened JsonNumbers
  import opened JsonStrings
  import opened Json
  import opened Nodes
  import JsonReader

  // ---- the loops of parse_array and parse_object, one item at a time ----

  function PrependAll<T>(xs: seq<T>, r: Parsed<seq<T>>): Parsed<seq<T>> {
    match r
    case Accepted(ys, rest) => Accepted(xs + ys, rest)
    case Rejected => Rejected
    case Truncated => Truncated
  }

  lemma PrependAllTwice<T>(xs: seq<T>, ys: seq<T>, r: Parsed<seq<T>>)
    ensures PrependAll(xs, PrependAll(ys, r)) == PrependAll(xs + ys, r)
  {
    if r.Accepted? {
      assert xs + (ys + r.value) == xs + ys + r.value;
    }
  }

  /** The rest of an array, behind an item and white space. */
  function ItemsAfter(s: string): Parsed<seq<Json>> {
    if Peek(s) == ',' then ParseItems(s[1..])
    else if Peek(s) == ']' then Accepted([], s[1..])
    else Rejected
  }

  lemma ParseItemsStep(s: string)
    ensures match ParseValue(Skip(s))
            case Accepted(item, rest) => ParseItems(s) == PrependAll([item], ItemsAfter(Skip(rest)))
            case Rejected => ParseItems(s).Rejected?
            case Truncated => ParseItems(s).Truncated?
  {
    hide ParseValue;
    match ParseValue(Skip(s))
    case Accepted(item, rest) => assert [item] + [] == [item];
    case _ =>
  }

  /** A member: its name, the colon and its value. */
  function ParseMember(s: string): Parsed<Member> {
    match ParseString(Skip(s))
    case Rejected => Rejected
    case Truncated => Truncated
    case Accepted(name, rest) =>
      var colon := Skip(rest);
      if Peek(colon) != ':' then Rejected
      else
        match ParseValue(Skip(colon[1..]))
        case Rejected => Rejected
        case Truncated => Truncated
        case Accepted(value, rest') => Accepted(Member(name, value), rest')
  }

  /** The rest of an object, behind a member and white space. */
  function MembersAfter(s: string): Parsed<seq<Member>> {
    if Peek(s) == ',' then ParseMembers(s[1..])
    else if Peek(s) == '}' then Accepted([], s[1..])
    else Rejected
  }

  lemma ParseMembersStep(s: string)
    ensures match ParseMember(s)
            case Accepted(m, rest) => ParseMembers(s) == PrependAll([m], MembersAfter(Skip(rest)))
            case Rejected => ParseMembers(s).Rejected?
            case Truncated => ParseMembers(s).Truncated?
  {
    hide ParseValue, ParseString;
    match ParseMember(s)
    case Accepted(m, rest) => assert [m] + [] == [m];
    case _ =>
  }

  // ---- parsing ----

  /** The blocks that a tree has beyond its node. */
  ghost function Owned(t: Tree): set<object> {
    StringBlock(t.value) + StringBlock(t.name) + BlocksOf(t.kids)
  }

  /** Of these, the ones that parse_value makes. */
  ghost function Inner(t: Tree): set<object> {
    StringBlock(t.value) + BlocksOf(t.kids)
  }

  lemma BlocksSplit(t: Tree)
    ensures Blocks(t) == {t.node} + Owned(t) && Owned(t) == Inner(t) + StringBlock(t.name)
    ensures t.name == null ==> Owned(t) == Inner(t)
  {}

  /** A node as cJSON_New_Item makes it, but for a name and sibling links. */
  ghost predicate Blank(item: Node)
    reads item
  {
    item.child == null && item.valuestring == null && !item.isReference
  }

  /** strncmp of a word. */
  method HasWord(text: array<char>, p: nat, ghost s: string, word: string) returns (b: bool)
    requires Holds(text, s) && p <= |s| && '\0' !in word
    ensures b == StartsWith(s[p..], word)
  {
    b := p + |word| <= text.Length && text[p..p + |word|] == word;
    if p + |word| <= text.Length {
      if p + |word| <= |s| {
        assert s[p..][..|word|] == s[p..p + |word|];
        assert text[p..p + |word|] == text[..|s|][p..p + |word|] == s[p..][..|word|];
      } else {
        var i := |s| - p;
        assert word[i] != '\0' && text[p..p + |word|][i] == text[|s|] == '\0';
      }
    }
  }

  /** The words of parse_value. */
  method ParseWordInto(item: Node, text: array<char>, p: nat, ghost s: string) returns (end: Option<nat>)
    requires Holds(text, s) && p <= |s|
    modifies item`kind, item`valueint
    ensures end.Some? ==> p <= end.value <= |s| && FALSE <= item.kind <= NULL
    ensures end.Some? ==>
      forall name :: ParseValue(s[p..]) == Accepted(Value(Tree(item, null, name, [])), s[end.value..])
    ensures end.Some? ==> item.valueint == if item.kind == TRUE then 1 else old(item.valueint)
    ensures end.None? ==> !StartsWith(s[p..], "null") && !StartsWith(s[p..], "false") && !StartsWith(s[p..], "true")
  {
    hide ParseArray, ParseObject, Holds, ParseString;
    var word := HasWord(text, p, s, "null");
    if word {
      item.kind := NULL;
      DropDrop(s, p, 4);
      return Some(p + 4);
    }
    word := HasWord(text, p, s, "false");
    if word {
      item.kind := FALSE;
      DropDrop(s, p, 5);
      return Some(p + 5);
    }
    word := HasWord(text, p, s, "true");
    if word {
      item.kind := TRUE;
      item.valueint := 1;
      DropDrop(s, p, 4);
      return Some(p + 4);
    }
    end := None;
  }

  /** parse_value by the first character, behind the words. */
  lemma ParseByFirst(s: string)
    requires !StartsWith(s, "null") && !StartsWith(s, "false") && !StartsWith(s, "true")
    ensures ParseValue(s) ==
            if Peek(s) == '\"' then
              match ParseString(s)
              case Accepted(text, rest) => Accepted(String(text), rest)
              case Rejected => Rejected
              case Truncated => Truncated
            else if Peek(s) == '-' || IsDigit(Peek(s)) then
              Accepted(Number(Truncate(ParseNumber(s).0), ParseNumber(s).0), ParseNumber(s).1)
            else if Peek(s) == '[' then ParseArray(s)
            else if Peek(s) == '{' then ParseObject(s)
            else Rejected
  {
    hide ParseString, ParseArray, ParseObject, ParseNumber, Truncate;
  }

  /** A node without children. */
  lemma LeafTree(t: Tree)
    requires t.kids == [] && t.node.name == t.name && t.node.child == null && !t.node.isReference
    requires t.node.valuestring == t.value && t.value !in StringBlock(t.name)
    ensures Linked(t, false) && Separate(t) && Inner(t) == StringBlock(t.value)
    ensures (t.value != null ==> Terminated(t.value)) ==> Proper(t)
    ensures FALSE <= t.node.kind <= NUMBER || (t.node.kind == STRING && Terminated(t.value)) ==> Complete(t)
  {}

  /** parse_string as a case of parse_value. */
  method ParseStringInto(mem: Memory, item: Node, text: array<char>, p: nat, ghost s: string)
      returns (end: Option<nat>, ghost t: Tree)
    requires Holds(text, s) && p <= |s| && !ParseString(s[p..]).Truncated?
    requires Blank(item) && item in mem.live && StringBlock(item.name) <= mem.live
    modifies mem, item`kind, item`valuestring
    ensures t.node == item && t.name == item.name && Linked(t, false) && Separate(t) && Proper(t)
    ensures fresh(Inner(t)) && Inner(t) !! old(mem.live) && mem.live == old(mem.live) + Inner(t)
    ensures mem.failures >= old(mem.failures)
    ensures end.None? <==> ParseString(s[p..]).Rejected? || mem.failures > old(mem.failures)
    ensures end.Some? ==> p <= end.value <= |s| && Complete(t) && Value(t).String?
    ensures end.Some? ==> ParseString(s[p..]) == Accepted(Value(t).text, s[end.value..])
  {
    hide Holds, ParseString, Linked, Separate, Complete, Inner;
    end := JsonReader.ParseString(mem, item, text, p, s);
    t := Tree(item, item.valuestring, item.name, []);
    LeafTree(t);
  }

  /** parse_number as a case of parse_value. */
  method ParseNumberInto(item: Node, text: array<char>, p: nat, ghost s: string) returns (end: nat, ghost t: Tree)
    requires Holds(text, s) && p <= |s| && Blank(item)
    modifies item`kind, item`valueint, item`valuedouble
    ensures t.node == item && t.name == item.name && Linked(t, false) && Separate(t) && Inner(t) == {} && Complete(t)
    ensures Proper(t)
    ensures p <= end <= |s|
    ensures var n := ParseNumber(s[p..]); Value(t) == Number(Truncate(n.0), n.0) && n.1 == s[end..]
  {
    hide Holds, Linked, Separate, Complete, Inner, ParseNumber, Truncate;
    end := JsonReader.ParseNumber(item, text, p, s);
    t := Tree(item, null, item.name, []);
    LeafTree(t);
  }

  /** The cases of parse_value that make no children; an opening bracket or brace is left to the others. */
  method ParseScalarInto(mem: Memory, item: Node, text: array<char>, p: nat, ghost s: string)
      returns (done: bool, end: Option<nat>, ghost t: Tree)
    requires Holds(text, s) && p <= |s| && !ParseValue(s[p..]).Truncated?
    requires Blank(item) && item in mem.live && StringBlock(item.name) <= mem.live
    modifies mem, item`kind, item`valuestring, item`valueint, item`valuedouble
    ensures !done ==> mem.live == old(mem.live) && mem.failures == old(mem.failures) && Blank(item)
    ensures !done ==> Peek(s[p..]) == '[' || Peek(s[p..]) == '{'
    ensures !done ==> ParseValue(s[p..]) == if Peek(s[p..]) == '[' then ParseArray(s[p..]) else ParseObject(s[p..])
    ensures done ==> t.node == item && t.name == item.name && Linked(t, false) && Separate(t) && Proper(t)
    ensures done ==> fresh(Inner(t)) && Inner(t) !! old(mem.live) && mem.live == old(mem.live) + Inner(t)
    ensures done ==> mem.failures >= old(mem.failures)
    ensures done ==> (end.None? <==> ParseValue(s[p..]).Rejected? || mem.failures > old(mem.failures))
    ensures done && end.Some? ==> p <= end.value <= |s| && Complete(t)
    ensures done && end.Some? ==> ParseValue(s[p..]) == Accepted(Value(t), s[end.value..])
  {
    hide ParseValue, ParseArray, ParseObject, Holds, ParseString, ParseNumber, Truncate, Linked, Separate, Complete,
      Inner, Value;
    done := true;
    end := ParseWordInto(item, text, p, s);
    t := Tree(item, null, item.name, []);
    LeafTree(t);
    if end.Some? {
      return;
    }
    At(text, s, p);
    ParseByFirst(s[p..]);
    if text[p] == '\"' {
      end, t := ParseStringInto(mem, item, text, p, s);
      StringShown(t);
    } else if text[p] == '-' || '0' <= text[p] <= '9' {
      var e;
      e, t := ParseNumberInto(item, text, p, s);
      end := Some(e);
    } else {
      done := text[p] != '[' && text[p] != '{';
    }
  }

  lemma StringShown(t: Tree)
    ensures Value(t).String? ==> Value(t) == String(Value(t).text)
  {}

  /** parse_value, into a node without a value. */
  method ParseValueInto(mem: Memory, item: Node, text: array<char>, p: nat, ghost s: string)
      returns (end: Option<nat>, ghost t: Tree)
    requires Holds(text, s) && p <= |s| && !ParseValue(s[p..]).Truncated?
    requires Blank(item) && item in mem.live && StringBlock(item.name) <= mem.live
    modifies mem, item`kind, item`valuestring, item`valueint, item`valuedouble, item`child
    ensures t.node == item && t.name == item.name && Linked(t, false) && Separate(t) && Proper(t)
    ensures fresh(Inner(t)) && Inner(t) !! old(mem.live) && mem.live == old(mem.live) + Inner(t)
    ensures mem.failures >= old(mem.failures)
    ensures end.None? <==> ParseValue(s[p..]).Rejected? || mem.failures > old(mem.failures)
    ensures end.Some? ==> p <= end.value <= |s| && Complete(t)
    ensures end.Some? ==> ParseValue(s[p..]) == Accepted(Value(t), s[end.value..])
    decreases |s| - p, 1
  {
    hide ParseValue, ParseArray, ParseObject, Holds, ParseString, Linked, Separate, Complete, Inner, Blank;
    At(text, s, p);
    var done;
    done, end, t := ParseScalarInto(mem, item, text, p, s);
    if done {
      return;
    }
    if text[p] == '[' {
      end, t := ParseArrayInto(mem, item, text, p, s);
    } else {
      end, t := ParseObjectInto(mem, item, text, p, s);
    }
  }

  /** The children that have been made so far: they are linked, and they are what is live beyond the blocks before. */
  ghost predicate Row(mem: Memory, before: set<object>, ts: seq<Tree>)
    reads mem
    reads NodesOf(ts)`name, NodesOf(ts)`isReference, NodesOf(ts)`valuestring, NodesOf(ts)`child
    reads NodesOf(ts)`prev, NodesOf(ts)`next, StringsOf(ts)
  {
    && Segment(ts, null, null, false) && SeparateList(ts) && ProperList(ts) && before !! BlocksOf(ts)
    && mem.live == before + BlocksOf(ts)
  }

  /** The same, with a new node behind them that is linked already. */
  ghost predicate RowWith(mem: Memory, before: set<object>, ts: seq<Tree>, child: Node)
    reads mem, child
    reads NodesOf(ts)`name, NodesOf(ts)`isReference, NodesOf(ts)`valuestring, NodesOf(ts)`child
    reads NodesOf(ts)`prev, NodesOf(ts)`next, StringsOf(ts)
  {
    && Segment(ts, null, child, false) && SeparateList(ts) && ProperList(ts) && before !! BlocksOf(ts) + {child}
    && child !in BlocksOf(ts)
    && mem.live == before + BlocksOf(ts) + {child}
    && Blank(child) && child.name == null && child.next == null && child.prev == LastOr(ts, null)
  }

  /** What the children of a run look like does not depend on other blocks. */
  lemma Apart(ts: seq<Tree>, child: Node?, mem: Memory)
    requires child !in BlocksOf(ts)
    ensures child !in NodesOf(ts) && forall n | n in NodesOf(ts) :: n as object != mem
    ensures forall a | a in StringsOf(ts) :: a as object != child && a as object != mem
  {}

  lemma RowGrows(mem: Memory, before: set<object>, ts: seq<Tree>, t: Tree)
    requires Segment(ts, null, t.node, false) && SeparateList(ts) && before !! BlocksOf(ts) + {t.node}
    requires ProperList(ts) && Proper(t) && NameTerminated(t)
    requires t.node !in BlocksOf(ts) && mem.live == before + BlocksOf(ts) + {t.node} + Owned(t)
    requires Owned(t) !! before + BlocksOf(ts) + {t.node}
    requires Linked(t, false) && Separate(t) && t.node.prev == LastOr(ts, null) && t.node.next == null
    ensures Row(mem, before, ts + [t]) && BlocksOf(ts + [t]) == BlocksOf(ts) + Blocks(t)
    ensures Blocks(t) == {t.node} + Owned(t)
    ensures Items(ts + [t]) == Items(ts) + [Value(t)]
    ensures Members(ts + [t]) == Members(ts) + [Member(CString(t.name), Value(t))]
    ensures CompleteList(ts + [t], false) <==> CompleteList(ts, false) && Complete(t)
    ensures CompleteList(ts + [t], true) <==> CompleteList(ts, true) && Complete(t) && Terminated(t.name)
  {
    hide Segment, SeparateList, Items, Members, CompleteList, Linked, Separate, Complete, Value, Blocks, BlocksOf,
      Owned, Proper, NameTerminated;
    BlocksSplit(t);
    RunGrows(ts, t, null, false);
    ProperListAppend(ts, [t]);
    assert ProperList([t]);
  }

  /** What parse_array does with one item: white space, the value into the last child, white space. */
  method ParseItemInto(mem: Memory, child: Node, text: array<char>, p: nat, ghost s: string,
        ghost ts: seq<Tree>, ghost before: set<object>)
      returns (end: Option<nat>, ghost t: Tree)
    requires Holds(text, s) && p <= |s| && !ParseValue(Skip(s[p..])).Truncated?
    requires RowWith(mem, before, ts, child)
    modifies mem, child`kind, child`valuestring, child`valueint, child`valuedouble, child`child
    ensures t.node == child && Row(mem, before, ts + [t]) && fresh(Blocks(t) - {child})
    ensures BlocksOf(ts + [t]) == BlocksOf(ts) + Blocks(t)
    ensures mem.failures >= old(mem.failures)
    ensures end.None? <==> ParseValue(Skip(s[p..])).Rejected? || mem.failures > old(mem.failures)
    ensures end.Some? ==> p <= end.value <= |s| && (old(CompleteList(ts, false)) ==> CompleteList(ts + [t], false))
    ensures end.Some? ==>
      ParseValue(Skip(s[p..])).Accepted? && Items(ts + [t]) == old(Items(ts)) + [ParseValue(Skip(s[p..])).value]
    ensures end.Some? ==> s[end.value..] == Skip(ParseValue(Skip(s[p..])).rest)
    decreases |s| - p, 2
  {
    hide Skip, ParseValue, Holds, Segment, SeparateList, NodesOf, StringsOf, Items, CompleteList, Linked, Separate,
      Complete, Value, Blocks, BlocksOf, Inner, Owned, NodesIn, StringsIn, Terminated, CString, Row, Proper, ProperList;
    var v := JsonReader.SkipBlanks(text, p, s);
    Apart(ts, child, mem);
    end, t := ParseValueInto(mem, child, text, v, s);
    BlocksSplit(t);
    RowGrows(mem, before, ts, t);
    assert allocated(NodesOf(ts + [t])) && allocated(StringsOf(ts + [t]));
    if end.Some? {
      v := JsonReader.SkipBlanks(text, end.value, s);
      end := Some(v);
    }
  }

  /** One pass of the loop of parse_array: a new node behind the last child, and an item into it. */
  method NextItemInto(mem: Memory, child: Node, text: array<char>, p: nat, ghost s: string,
        ghost ts: seq<Tree>, ghost before: set<object>)
      returns (end: Option<nat>, last: Node, ghost ts': seq<Tree>)
    requires Holds(text, s) && p < |s| && !ParseValue(Skip(s[p + 1..])).Truncated?
    requires Row(mem, before, ts) && ts != [] && child == ts[|ts| - 1].node
    modifies mem, child`next
    ensures Row(mem, before, ts') && ts' != [] && last == ts'[|ts'| - 1].node && ts'[0].node == ts[0].node
    ensures last == child || fresh(last)
    ensures (forall o | o in BlocksOf(ts') :: o in BlocksOf(ts) || fresh(o)) && mem.failures >= old(mem.failures)
    ensures end.None? <==> ParseValue(Skip(s[p + 1..])).Rejected? || mem.failures > old(mem.failures)
    ensures end.Some? ==> p < end.value <= |s| && (old(CompleteList(ts, false)) ==> CompleteList(ts', false))
    ensures end.Some? ==>
      ParseValue(Skip(s[p + 1..])).Accepted? && Items(ts') == old(Items(ts)) + [ParseValue(Skip(s[p + 1..])).value]
    ensures end.Some? ==> s[end.value..] == Skip(ParseValue(Skip(s[p + 1..])).rest)
    decreases |s| - p, 1
  {
    hide Skip, ParseValue, Holds, Segment, SeparateList, NodesOf, StringsOf, Items, CompleteList, BlocksOf;
    last, ts' := child, ts;
    Apart(ts, null, mem);
    var newItem := mem.NewItem();
    if newItem == null {
      end := None;
      return;
    }
    Apart(ts, newItem, mem);
    SuffixObject(child, newItem, ts, null, false);
    last := newItem;
    ghost var kid;
    end, kid := ParseItemInto(mem, newItem, text, p + 1, s, ts, before);
    ts' := ts + [kid];
  }

  /** The loop of parse_array, from the first item on. */
  method ParseItemsInto(mem: Memory, first: Node, text: array<char>, p: nat, ghost s: string, ghost before: set<object>)
      returns (end: Option<nat>, ghost ts: seq<Tree>)
    requires Holds(text, s) && p <= |s| && !ParseItems(s[p..]).Truncated?
    requires RowWith(mem, before, [], first)
    modifies mem, first
    ensures ts != [] && ts[0].node == first && Row(mem, before, ts)
    ensures (forall o | o in BlocksOf(ts) :: o == first || fresh(o))
    ensures mem.failures >= old(mem.failures)
    ensures end.None? <==> ParseItems(s[p..]).Rejected? || mem.failures > old(mem.failures)
    ensures end.Some? ==> p <= end.value <= |s| && CompleteList(ts, false)
    ensures end.Some? ==> ParseItems(s[p..]) == Accepted(Items(ts), s[end.value..])
    decreases |s| - p, 3
  {
    hide Skip, ParseValue, ParseItems, Holds, Row, RowWith, NodesOf, StringsOf, Items, CompleteList, BlocksOf;
    ParseItemsStep(s[p..]);
    ghost var kid;
    NoTrees();
    assert forall x: Json :: [] + [x] == [x];
    end, kid := ParseItemInto(mem, first, text, p, s, [], before);
    ts := [kid];
    assert [] + [kid] == [kid];
    if end.None? {
      return;
    }
    var child, v := first, end.value;
    At(text, s, v);
    assert Items(ts) == [ParseValue(Skip(s[p..])).value];
    while text[v] == ','
      invariant p <= v <= |s| < text.Length && text[v] == Peek(s[v..])
      invariant ts != [] && ts[0].node == first && child == ts[|ts| - 1].node && Row(mem, before, ts)
      invariant (child == first || fresh(child)) && (forall o | o in BlocksOf(ts) :: o == first || fresh(o))
      invariant CompleteList(ts, false) && mem.failures == old(mem.failures)
      invariant ParseItems(s[p..]) == PrependAll(Items(ts), ItemsAfter(s[v..]))
      decreases |s| - v
    {
      At(text, s, v);
      ParseItemsStep(s[v + 1..]);
      ghost var done := Items(ts);
      end, child, ts := NextItemInto(mem, child, text, v, s, ts, before);
      if end.None? {
        return;
      }
      v := end.value;
      At(text, s, v);
      PrependAllTwice(done, Items(ts)[|done|..], ItemsAfter(s[v..]));
    }
    assert Items(ts) + [] == Items(ts);
    end := if text[v] == ']' then Some(v + 1) else None;
  }

  /** A node with children. */
  lemma ListTree(t: Tree, mem: Memory, before: set<object>)
    requires Row(mem, before, t.kids) && t.node in before && StringBlock(t.name) <= before
    requires t.value == t.node.valuestring == null && t.node.name == t.name && !t.node.isReference
    requires t.node.child == FirstOr(t.kids, null)
    ensures Linked(t, false) && Separate(t) && Proper(t) && Inner(t) == BlocksOf(t.kids)
    ensures mem.live == before + Inner(t) && before !! Inner(t)
  {}

  lemma ListValue(t: Tree)
    ensures t.node.kind == ARRAY && CompleteList(t.kids, false) ==> Complete(t) && Value(t) == Array(Items(t.kids))
    ensures t.node.kind == OBJECT && CompleteList(t.kids, true) ==> Complete(t) && Value(t) == Object(Members(t.kids))
  {}

  /** parse_array. */
  method ParseArrayInto(mem: Memory, item: Node, text: array<char>, p: nat, ghost s: string)
      returns (end: Option<nat>, ghost t: Tree)
    requires Holds(text, s) && p <= |s| && Peek(s[p..]) == '[' && !ParseArray(s[p..]).Truncated?
    requires Blank(item) && item in mem.live && StringBlock(item.name) <= mem.live
    modifies mem, item`kind, item`valuestring, item`valueint, item`valuedouble, item`child
    ensures t.node == item && t.name == item.name && Linked(t, false) && Separate(t) && Proper(t)
    ensures fresh(Inner(t)) && Inner(t) !! old(mem.live) && mem.live == old(mem.live) + Inner(t)
    ensures mem.failures >= old(mem.failures)
    ensures end.None? <==> ParseArray(s[p..]).Rejected? || mem.failures > old(mem.failures)
    ensures end.Some? ==> p <= end.value <= |s| && Complete(t)
    ensures end.Some? ==> ParseArray(s[p..]) == Accepted(Value(t), s[end.value..])
    decreases |s| - p, 0
  {
    hide Skip, ParseItems, Holds, Row, NodesOf, Items, CompleteList, Linked, Separate, Inner;
    ghost var before := mem.live;
    item.kind := ARRAY;
    t := Tree(item, null, item.name, []);
    At(text, s, p);
    var v := JsonReader.SkipBlanks(text, p + 1, s);
    At(text, s, v);
    if text[v] == ']' {
      LeafTree(t);
      NoTrees();
      ListValue(t);
      return Some(v + 1), t;
    }
    var child := mem.NewItem();
    item.child := child;
    if child == null {
      LeafTree(t);
      return None, t;
    }
    ghost var ts;
    end, ts := ParseItemsInto(mem, child, text, v, s, before);
    t := Tree(item, null, item.name, ts);
    ListTree(t, mem, before);
    ListValue(t);
  }

  /** The name and the value of a member, into a new node. */
  method ParseNameAndValue(mem: Memory, child: Node, text: array<char>, p: nat, ghost s: string)
      returns (end: Option<nat>, ghost t: Tree)
    requires Holds(text, s) && p <= |s| && !ParseMember(s[p..]).Truncated?
    requires Blank(child) && child.name == null && child in mem.live
    modifies mem, child`kind, child`valuestring, child`valueint, child`valuedouble, child`child, child`name
    ensures t.node == child && Linked(t, false) && Separate(t) && Proper(t) && NameTerminated(t)
    ensures fresh(Owned(t)) && Owned(t) !! old(mem.live) && mem.live == old(mem.live) + Owned(t)
    ensures mem.failures >= old(mem.failures)
    ensures end.None? <==> ParseMember(s[p..]).Rejected? || mem.failures > old(mem.failures)
    ensures end.Some? ==> p <= end.value <= |s| && Complete(t) && Terminated(t.name)
    ensures end.Some? ==> ParseMember(s[p..]) == Accepted(Member(CString(t.name), Value(t)), s[end.value..])
    decreases |s| - p, 2
  {
    hide Skip, ParseValue, ParseString, Holds, Linked, Separate, Complete, Value, Blocks, BlocksOf, Inner, UpToNul,
      Proper, Terminated;
    t := Tree(child, null, null, []);
    var v := JsonReader.SkipBlanks(text, p, s);
    end := JsonReader.ParseString(mem, child, text, v, s);
    if end.None? {
      LeafTree(t);
      BlocksSplit(t);
      return;
    }
    v := JsonReader.SkipBlanks(text, end.value, s);
    child.name := child.valuestring;
    child.valuestring := null;
    t := Tree(child, null, child.name, []);
    LeafTree(t);
    BlocksSplit(t);
    At(text, s, v);
    if text[v] != ':' {
      return None, t;
    }
    ghost var name := CString(child.name);
    v := JsonReader.SkipBlanks(text, v + 1, s);
    end, t := ParseValueInto(mem, child, text, v, s);
    BlocksSplit(t);
  }

  /** What parse_object does with one member. */
  method ParseMemberInto(mem: Memory, child: Node, text: array<char>, p: nat, ghost s: string,
        ghost ts: seq<Tree>, ghost before: set<object>)
      returns (end: Option<nat>, ghost t: Tree)
    requires Holds(text, s) && p <= |s| && !ParseMember(s[p..]).Truncated?
    requires RowWith(mem, before, ts, child)
    modifies mem, child`kind, child`valuestring, child`valueint, child`valuedouble, child`child, child`name
    ensures t.node == child && Row(mem, before, ts + [t]) && fresh(Blocks(t) - {child})
    ensures BlocksOf(ts + [t]) == BlocksOf(ts) + Blocks(t)
    ensures mem.failures >= old(mem.failures)
    ensures end.None? <==> ParseMember(s[p..]).Rejected? || mem.failures > old(mem.failures)
    ensures end.Some? ==> p <= end.value <= |s| && (old(CompleteList(ts, true)) ==> CompleteList(ts + [t], true))
    ensures end.Some? ==>
      ParseMember(s[p..]).Accepted? && Members(ts + [t]) == old(Members(ts)) + [ParseMember(s[p..]).value]
    ensures end.Some? ==> s[end.value..] == Skip(ParseMember(s[p..]).rest)
    decreases |s| - p, 3
  {
    hide Skip, ParseMember, Holds, Segment, SeparateList, NodesOf, StringsOf, Members, CompleteList, Linked, Separate,
      Complete, Value, Blocks, BlocksOf, Owned, NodesIn, StringsIn, Terminated, CString, Row, Proper, ProperList,
      NameTerminated;
    Apart(ts, child, mem);
    end, t := ParseNameAndValue(mem, child, text, p, s);
    BlocksSplit(t);
    RowGrows(mem, before, ts, t);
    assert allocated(NodesOf(ts + [t])) && allocated(StringsOf(ts + [t]));
    if end.Some? {
      var v := JsonReader.SkipBlanks(text, end.value, s);
      end := Some(v);
    }
  }

  /** One pass of the loop of parse_object. */
  method NextMemberInto(mem: Memory, child: Node, text: array<char>, p: nat, ghost s: string,
        ghost ts: seq<Tree>, ghost before: set<object>)
      returns (end: Option<nat>, last: Node, ghost ts': seq<Tree>)
    requires Holds(text, s) && p < |s| && !ParseMember(s[p + 1..]).Truncated?
    requires Row(mem, before, ts) && ts != [] && child == ts[|ts| - 1].node
    modifies mem, child`next
    ensures Row(mem, before, ts') && ts' != [] && last == ts'[|ts'| - 1].node && ts'[0].node == ts[0].node
    ensures last == child || fresh(last)
    ensures (forall o | o in BlocksOf(ts') :: o in BlocksOf(ts) || fresh(o)) && mem.failures >= old(mem.failures)
    ensures end.None? <==> ParseMember(s[p + 1..]).Rejected? || mem.failures > old(mem.failures)
    ensures end.Some? ==> p < end.value <= |s| && (old(CompleteList(ts, true)) ==> CompleteList(ts', true))
    ensures end.Some? ==>
      ParseMember(s[p + 1..]).Accepted? && Members(ts') == old(Members(ts)) + [ParseMember(s[p + 1..]).value]
    ensures end.Some? ==> s[end.value..] == Skip(ParseMember(s[p + 1..]).rest)
    decreases |s| - p, 1
  {
    hide Skip, ParseMember, Holds, Segment, SeparateList, NodesOf, StringsOf, Members, CompleteList, BlocksOf;
    last, ts' := child, ts;
    Apart(ts, null, mem);
    var newItem := mem.NewItem();
    if newItem == null {
      end := None;
      return;
    }
    Apart(ts, newItem, mem);
    SuffixObject(child, newItem, ts, null, false);
    last := newItem;
    ghost var kid;
    end, kid := ParseMemberInto(mem, newItem, text, p + 1, s, ts, before);
    ts' := ts + [kid];
  }

  /** The loop of parse_object, from the first member on. */
  method ParseMembersInto(mem: Memory, first: Node, text: array<char>, p: nat, ghost s: string,
        ghost before: set<object>)
      returns (end: Option<nat>, ghost ts: seq<Tree>)
    requires Holds(text, s) && p <= |s| && !ParseMembers(s[p..]).Truncated?
    requires RowWith(mem, before, [], first)
    modifies mem, first
    ensures ts != [] && ts[0].node == first && Row(mem, before, ts)
    ensures (forall o | o in BlocksOf(ts) :: o == first || fresh(o)) && mem.failures >= old(mem.failures)
    ensures end.None? <==> ParseMembers(s[p..]).Rejected? || mem.failures > old(mem.failures)
    ensures end.Some? ==> p <= end.value <= |s| && CompleteList(ts, true)
    ensures end.Some? ==> ParseMembers(s[p..]) == Accepted(Members(ts), s[end.value..])
    decreases |s| - p, 4
  {
    hide Skip, ParseMember, ParseMembers, Holds, Row, RowWith, NodesOf, StringsOf, Members, CompleteList, BlocksOf;
    ParseMembersStep(s[p..]);
    ghost var kid;
    NoTrees();
    assert forall x: Member :: [] + [x] == [x];
    end, kid := ParseMemberInto(mem, first, text, p, s, [], before);
    ts := [kid];
    assert [] + [kid] == [kid];
    if end.None? {
      return;
    }
    var child, v := first, end.value;
    At(text, s, v);
    assert Members(ts) == [ParseMember(s[p..]).value];
    while text[v] == ','
      invariant p <= v <= |s| < text.Length && text[v] == Peek(s[v..])
      invariant ts != [] && ts[0].node == first && child == ts[|ts| - 1].node && Row(mem, before, ts)
      invariant (child == first || fresh(child)) && (forall o | o in BlocksOf(ts) :: o == first || fresh(o))
      invariant CompleteList(ts, true) && mem.failures == old(mem.failures)
      invariant ParseMembers(s[p..]) == PrependAll(Members(ts), MembersAfter(s[v..]))
      decreases |s| - v
    {
      At(text, s, v);
      ParseMembersStep(s[v + 1..]);
      ghost var done := Members(ts);
      end, child, ts := NextMemberInto(mem, child, text, v, s, ts, before);
      if end.None? {
        return;
      }
      v := end.value;
      At(text, s, v);
      PrependAllTwice(done, Members(ts)[|done|..], MembersAfter(s[v..]));
    }
    assert Members(ts) + [] == Members(ts);
    end := if text[v] == '}' then Some(v + 1) else None;
  }

  /** parse_object. */
  method ParseObjectInto(mem: Memory, item: Node, text: array<char>, p: nat, ghost s: string)
      returns (end: Option<nat>, ghost t: Tree)
    requires Holds(text, s) && p <= |s| && Peek(s[p..]) == '{' && !ParseObject(s[p..]).Truncated?
    requires Blank(item) && item in mem.live && StringBlock(item.name) <= mem.live
    modifies mem, item`kind, item`valuestring, item`valueint, item`valuedouble, item`child
    ensures t.node == item && t.name == item.name && Linked(t, false) && Separate(t) && Proper(t)
    ensures fresh(Inner(t)) && Inner(t) !! old(mem.live) && mem.live == old(mem.live) + Inner(t)
    ensures mem.failures >= old(mem.failures)
    ensures end.None? <==> ParseObject(s[p..]).Rejected? || mem.failures > old(mem.failures)
    ensures end.Some? ==> p <= end.value <= |s| && Complete(t)
    ensures end.Some? ==> ParseObject(s[p..]) == Accepted(Value(t), s[end.value..])
    decreases |s| - p, 0
  {
    hide Skip, ParseMembers, Holds, Row, NodesOf, Members, CompleteList, Linked, Separate, Inner;
    ghost var before := mem.live;
    item.kind := OBJECT;
    t := Tree(item, null, item.name, []);
    At(text, s, p);
    var v := JsonReader.SkipBlanks(text, p + 1, s);
    At(text, s, v);
    if text[v] == '}' {
      LeafTree(t);
      NoTrees();
      ListValue(t);
      return Some(v + 1), t;
    }
    var child := mem.NewItem();
    item.child := child;
    if child == null {
      LeafTree(t);
      return None, t;
    }
    ghost var ts;
    end, ts := ParseMembersInto(mem, child, text, v, s, before);
    t := Tree(item, null, item.name, ts);
    ListTree(t, mem, before);
    ListValue(t);
  }

  /** What cJSON_ParseWithOpts answers for a text, or for none. */
  function Outcome(text: array?<char>, s: string, requireNullTerminated: bool): Parsed<Json> {
    if text == null then Rejected else ParseWithOpts(s, requireNullTerminated)
  }

  /** cJSON_ParseWithOpts. It fails on a text that is not JSON, without a text, or when an allocation fails; then
      nothing that it allocated is left. Otherwise what it leaves is one complete tree of the value. */
  method ParseDocument(mem: Memory, text: array?<char>, requireNullTerminated: bool, ghost s: string)
      returns (c: Node?, end: nat, ghost t: seq<Tree>)
    requires text != null ==> Holds(text, s) && !ParseWithOpts(s, requireNullTerminated).Truncated?
    modifies mem
    ensures c == null <==> Outcome(text, s, requireNullTerminated).Rejected? || mem.failures > old(mem.failures)
    ensures mem.failures >= old(mem.failures)
    ensures c == null ==> mem.live == old(mem.live)
    ensures c != null ==> |t| == 1 && t[0].node == c && fresh(Blocks(t[0])) && old(mem.live) !! Blocks(t[0])
    ensures c != null ==> mem.live == old(mem.live) + Blocks(t[0])
    ensures c != null ==> Segment(t, null, null, false) && SeparateList(t) && Complete(t[0]) && Proper(t[0])
    ensures c != null ==> t[0].name == null && c.kind == KindOf(Value(t[0]))
    ensures c != null ==> Linked(t[0], true) && StringsTerminated(t[0])
    ensures c != null ==> end <= |s| && Outcome(text, s, requireNullTerminated) == Accepted(Value(t[0]), s[end..])
  {
    hide Skip, ParseValue, Holds, Linked, Separate, Complete, Value, Inner, Owned, Blocks, BlocksOf, Segment,
      SeparateList, NodesIn, StringsIn, ParseWithOpts, Proper, StringsTerminated;
    c := mem.NewItem();
    end, t := 0, [];
    if c == null {
      return;
    }
    if text == null {
      ghost var leaf := Tree(c, null, null, []);
      LeafTree(leaf);
      BlocksSplit(leaf);
      OneTree(leaf, null, false);
      Delete(mem, c, null, [leaf]);
      return null, 0, [];
    }
    c, end, t := ParseInto(mem, c, text, requireNullTerminated, s);
    if c != null {
      SegmentAt(t, 0, null, null, false);
      ProperFollows(t[0]);
      ProperTerminated(t[0]);
      KindShown(t[0]);
    }
  }

  /** parse_value behind white space, into a new node. */
  method ParseSpacedInto(mem: Memory, item: Node, text: array<char>, ghost s: string)
      returns (end: Option<nat>, ghost t: Tree)
    requires Holds(text, s) && !ParseValue(Skip(s)).Truncated?
    requires Blank(item) && item.name == null && item.next == item.prev == null && item in mem.live
    modifies mem, item
    ensures t.node == item && Blocks(t) == {item} + Owned(t) && Segment([t], null, null, false) && SeparateList([t])
    ensures Proper(t) && t.name == null && BlocksOf([t]) == Blocks(t) && mem.failures >= old(mem.failures)
    ensures fresh(Owned(t)) && old(mem.live) !! Owned(t) && mem.live == old(mem.live) + Owned(t)
    ensures end.None? <==> ParseValue(Skip(s)).Rejected? || mem.failures > old(mem.failures)
    ensures end.Some? ==> end.value <= |s| && Complete(t)
    ensures end.Some? ==> ParseValue(Skip(s)) == Accepted(Value(t), s[end.value..])
  {
    hide Skip, ParseValue, Holds, Linked, Separate, Complete, Value, Inner, Owned, Blocks, BlocksOf, Segment,
      SeparateList, NodesIn, StringsIn;
    assert s[0..] == s;
    var start := JsonReader.SkipBlanks(text, 0, s);
    end, t := ParseValueInto(mem, item, text, start, s);
    BlocksSplit(t);
    OneTree(t, null, false);
  }

  /** The check for a terminator behind white space, when that is wanted. */
  method Ends(text: array<char>, p: nat, wanted: bool, ghost s: string) returns (ok: bool, end: nat)
    requires Holds(text, s) && p <= |s|
    ensures end <= |s| && (ok <==> !wanted || Skip(s[p..]) == [])
    ensures s[end..] == if wanted then Skip(s[p..]) else s[p..]
  {
    hide Holds, Skip;
    ok, end := true, p;
    if wanted {
      end := JsonReader.SkipBlanks(text, p, s);
      At(text, s, end);
      ok := text[end] == '\0';
    }
  }

  /** cJSON_ParseWithOpts with a text and a new node, which is deleted on failure. */
  method ParseInto(mem: Memory, item: Node, text: array<char>, requireNullTerminated: bool, ghost s: string)
      returns (c: Node?, end: nat, ghost t: seq<Tree>)
    requires Holds(text, s) && !ParseWithOpts(s, requireNullTerminated).Truncated?
    requires Blank(item) && item.name == null && item.next == item.prev == null && item in mem.live
    modifies mem, item
    ensures mem.failures >= old(mem.failures)
    ensures c == null <==> ParseWithOpts(s, requireNullTerminated).Rejected? || mem.failures > old(mem.failures)
    ensures c == null ==> mem.live == old(mem.live) - {item}
    ensures c != null ==> c == item && |t| == 1 && t[0].node == c && Blocks(t[0]) == {item} + Owned(t[0])
    ensures c != null ==> fresh(Owned(t[0])) && old(mem.live) !! Owned(t[0]) && mem.live == old(mem.live) + Owned(t[0])
    ensures c != null ==> Segment(t, null, null, false) && SeparateList(t) && Complete(t[0]) && Proper(t[0])
    ensures c != null ==> t[0].name == null
    ensures c != null ==> end <= |s| && ParseWithOpts(s, requireNullTerminated) == Accepted(Value(t[0]), s[end..])
  {
    hide Skip, ParseValue, Holds, Linked, Separate, Complete, Value, Inner, Owned, Blocks, BlocksOf, Segment,
      SeparateList, NodesIn, NodesOf, StringsIn, StringsOf;
    end := 0;
    var r;
    ghost var tree;
    r, tree := ParseSpacedInto(mem, item, text, s);
    c, t := item, [tree];
    var ok := r.Some?;
    if ok {
      assert allocated(NodesIn(tree)) && allocated(StringsIn(tree)) && allocated(NodesOf(t));
      ok, end := Ends(text, r.value, requireNullTerminated, s);
    }
    if !ok {
      Delete(mem, item, null, t);
      c := null;
    }
  }
}
