/** The list operations of cJSON. */
module JsonLists {
  // Each refines an operation on the sequence of the children.

  import opened CText
  import opened JsonNumbers
  import opened Json
  import opened Nodes

  /** The children of a node are these trees. */
  ghost predicate Children(parent: Node, ts: seq<Tree>, follow: bool)
    reads parent`child
    reads NodesOf(ts)`name, NodesOf(ts)`isReference, NodesOf(ts)`valuestring, NodesOf(ts)`child
    reads NodesOf(ts)`prev, NodesOf(ts)`next
  {
    && parent.child == FirstOr(ts, null) && Segment(ts, null, null, follow) && SeparateList(ts)
    && parent !in BlocksOf(ts)
  }

  /** A tree whose node is in no list. */
  ghost predicate Alone(t: Tree, follow: bool)
    reads NodesIn(t)`name, NodesIn(t)`isReference, NodesIn(t)`valuestring, NodesIn(t)`child
    reads NodesIn(t)`prev, NodesIn(t)`next
  {
    Linked(t, follow) && Separate(t) && t.node.prev == t.node.next == null
  }

  function Without<T>(s: seq<T>, k: nat): seq<T>
    requires k < |s|
  {
    s[..k] + s[k + 1..]
  }

  // ---- counting and finding ----

  /** cJSON_GetArraySize. */
  method GetArraySize(list: Node, ghost ts: seq<Tree>, ghost follow: bool) returns (i: nat)
    requires Children(list, ts, follow)
    ensures i == |ts|
  {
    hide Linked;
    var c := list.child;
    i := 0;
    while c != null
      invariant i <= |ts| && c == FirstOr(ts[i..], null) && Segment(ts, null, null, follow)
      decreases |ts| - i
    {
      SegmentAt(ts, i, null, null, follow);
      i, c := i + 1, c.next;
    }
  }

  /** The position that an index means: a negative one means the first item. */
  function Position(which: int): nat {
    if which < 0 then 0 else which
  }

  /** cJSON_GetArrayItem. */
  method GetArrayItem(list: Node, item: int, ghost ts: seq<Tree>, ghost follow: bool) returns (c: Node?)
    requires Children(list, ts, follow)
    ensures c == if Position(item) < |ts| then ts[Position(item)].node else null
    ensures 0 <= item < |ts| ==> c == ts[item].node
    ensures item < 0 ==> c == FirstOr(ts, null)
    ensures item >= |ts| ==> c == null
  {
    hide Linked;
    c := list.child;
    ghost var i := 0;
    var left := item;
    while c != null && left > 0
      invariant i <= |ts| && c == FirstOr(ts[i..], null) && left == (if item < 0 then item else item - i)
      invariant 0 <= i <= Position(item) && Segment(ts, null, null, follow)
      decreases |ts| - i
    {
      SegmentAt(ts, i, null, null, follow);
      left := left - 1;
      c := c.next;
      i := i + 1;
    }
  }

  // ---- names ----

  /** tolower, for ASCII. */
  function ToLower(c: char): char {
    if 'A' <= c <= 'Z' then c - 'A' + 'a' else c
  }

  function Lower(s: string): string {
    if s == [] then [] else [ToLower(s[0])] + Lower(s[1..])
  }

  /** Two names are the same but for the case of letters; a missing one is the same as a missing one only. */
  ghost predicate SameName(a: array?<char>, b: array?<char>)
    reads a, b
  {
    if a == null || b == null then a == b else Lower(CString(a)) == Lower(CString(b))
  }

  lemma {:induction false} LowerAt(s: string, i: nat)
    requires i < |s|
    ensures |Lower(s)| == |s| && Lower(s)[i] == ToLower(s[i])
  {
    if i > 0 {
      LowerAt(s[1..], i - 1);
    } else if |s| > 1 {
      LowerAt(s[1..], 0);
    }
  }

  lemma LowerLength(s: string)
    ensures |Lower(s)| == |s|
  {}

  lemma LowerDiffers(s: string, t: string, i: nat)
    requires i <= |s| && i <= |t| && (i == |s| || i == |t| || ToLower(s[i]) != ToLower(t[i])) && !(i == |s| == |t|)
    ensures Lower(s) != Lower(t)
  {
    LowerLength(s);
    LowerLength(t);
    if i < |s| {
      LowerAt(s, i);
    }
    if i < |t| {
      LowerAt(t, i);
    }
  }

  lemma {:induction false} LowerAgrees(s: string, t: string)
    requires |s| == |t| && forall i | 0 <= i < |s| :: ToLower(s[i]) == ToLower(t[i])
    ensures Lower(s) == Lower(t)
  {
    if s != [] {
      LowerAgrees(s[1..], t[1..]);
    }
  }

  /** The same character, or a letter and the other case of it: those lie 32 apart. */
  ghost predicate SameLetter(a: char, b: char) {
    || a == b
    || ('A' <= a <= 'Z' && b as int == a as int + 32)
    || ('A' <= b <= 'Z' && a as int == b as int + 32)
  }

  ghost predicate SameLetters(s: string, t: string) {
    |s| == |t| && forall i | 0 <= i < |s| :: SameLetter(s[i], t[i])
  }

  lemma ToLowerIs(a: char, b: char)
    ensures ToLower(a) == ToLower(b) <==> SameLetter(a, b)
  {}

  lemma LowerIs(s: string, t: string)
    ensures Lower(s) == Lower(t) <==> SameLetters(s, t)
  {
    hide ToLower, SameLetter, Lower;
    LowerLength(s);
    LowerLength(t);
    forall i | 0 <= i < |s| && i < |t| ensures Lower(s)[i] == Lower(t)[i] <==> SameLetter(s[i], t[i]) {
      LowerAt(s, i);
      LowerAt(t, i);
      ToLowerIs(s[i], t[i]);
    }
  }

  /** cJSON_strcasecmp. */
  method StrCaseCmp(s1: array?<char>, s2: array?<char>) returns (d: int)
    requires s1 != null ==> Terminated(s1)
    requires s2 != null ==> Terminated(s2)
    ensures d == 0 <==> SameName(s1, s2)
    ensures s1 != null && s2 != null ==> (d == 0 <==> SameLetters(CString(s1), CString(s2)))
  {
    LowerIs(CString(s1), CString(s2));
    hide Lower, UpToNul, SameLetters, SameLetter;
    if s1 == null {
      return if s2 == null then 0 else 1;
    }
    if s2 == null {
      return 1;
    }
    ghost var s, t := CString(s1), CString(s2);
    UpToNulIs(s1[..]);
    UpToNulIs(s2[..]);
    assert forall i | 0 <= i < |s| :: s[i] == s1[i];
    assert forall i | 0 <= i < |t| :: t[i] == s2[i];
    var i := 0;
    while ToLower(s1[i]) == ToLower(s2[i])
      invariant i <= |s| && i <= |t| && forall k | 0 <= k < i :: ToLower(s[k]) == ToLower(t[k])
      decreases |s| - i
    {
      if s1[i] == '\0' {
        LowerAgrees(s, t);
        return 0;
      }
      i := i + 1;
    }
    LowerDiffers(s, t, i);
    d := ToLower(s1[i]) as int - ToLower(s2[i]) as int;
  }

  ghost predicate NamesTerminated(ts: seq<Tree>)
    reads StringsOf(ts)
  {
    ts != [] ==> (ts[0].name != null ==> Terminated(ts[0].name)) && NamesTerminated(ts[1..])
  }

  /** The position of the first item of this name, or the number of items. */
  ghost function PositionOf(ts: seq<Tree>, name: array?<char>): (i: nat)
    reads StringsOf(ts), name
    ensures i <= |ts|
  {
    if ts == [] || SameName(ts[0].name, name) then 0 else 1 + PositionOf(ts[1..], name)
  }

  /** It is the first one of that name. */
  lemma {:induction false} PositionOfIs(ts: seq<Tree>, name: array?<char>)
    ensures var i := PositionOf(ts, name);
      (forall k | 0 <= k < i :: !SameName(ts[k].name, name)) && (i < |ts| ==> SameName(ts[i].name, name))
  {
    hide SameName;
    if ts != [] && !SameName(ts[0].name, name) {
      PositionOfIs(ts[1..], name);
    }
  }

  lemma {:induction false} PositionStep(ts: seq<Tree>, i: nat, name: array?<char>)
    requires i < |ts| && NamesTerminated(ts[i..])
    ensures ts[i].name != null ==> Terminated(ts[i].name)
    ensures NamesTerminated(ts[i + 1..])
    ensures PositionOf(ts[i..], name) == if SameName(ts[i].name, name) then 0 else 1 + PositionOf(ts[i + 1..], name)
  {
    assert ts[i..][1..] == ts[i + 1..];
  }

  /** The search of cJSON_GetObjectItem, with the position that the detaching and the replacing functions count. */
  method FindName(list: Node, name: array?<char>, ghost ts: seq<Tree>, ghost follow: bool) returns (c: Node?, i: nat)
    requires Children(list, ts, follow) && NamesTerminated(ts) && (name != null ==> Terminated(name))
    ensures i == PositionOf(ts, name) && c == if i < |ts| then ts[i].node else null
  {
    hide SameName, PositionOf, NamesTerminated, Segment, SeparateList, Linked, NodesOf, NodesIn, StringsOf, StringsIn,
      BlocksOf, Blocks, Terminated;
    i, c := 0, list.child;
    assert ts[0..] == ts;
    while c != null
      invariant i <= |ts| && c == FirstOr(ts[i..], null) && Segment(ts, null, null, follow)
      invariant NamesTerminated(ts[i..]) && i + PositionOf(ts[i..], name) == PositionOf(ts, name)
      decreases |ts| - i
    {
      assert allocated(NodesOf(ts)) && allocated(StringsOf(ts));
      assert allocated(StringsOf(ts[i + 1..])) && allocated(StringsOf(ts[i..]));
      SegmentAt(ts, i, null, null, follow);
      NameOf(ts[i], follow);
      PositionStep(ts, i, name);
      var d := StrCaseCmp(c.name, name);
      if d == 0 {
        return;
      }
      i, c := i + 1, c.next;
    }
    NoPosition(name);
  }

  lemma NameOf(t: Tree, follow: bool)
    requires Linked(t, follow)
    ensures t.node.name == t.name
  {}

  lemma NoPosition(name: array?<char>)
    ensures PositionOf([], name) == 0
  {}

  /** cJSON_GetObjectItem: the first item of that name. */
  method GetObjectItem(list: Node, name: array?<char>, ghost ts: seq<Tree>, ghost follow: bool) returns (c: Node?)
    requires Children(list, ts, follow) && NamesTerminated(ts) && (name != null ==> Terminated(name))
    ensures c == if PositionOf(ts, name) < |ts| then ts[PositionOf(ts, name)].node else null
    ensures c == null ==> forall k | 0 <= k < |ts| :: !SameName(ts[k].name, name)
    ensures c != null ==> exists i | 0 <= i < |ts| ::
      c == ts[i].node && SameName(ts[i].name, name) && forall k | 0 <= k < i :: !SameName(ts[k].name, name)
  {
    hide SameName, PositionOf;
    var i;
    c, i := FindName(list, name, ts, follow);
    PositionOfIs(ts, name);
  }

  // ---- relinking ----

  /** The last node of a run is linked to a node behind it. */
  method SetNext(c: Node, next: Node?, ghost ts: seq<Tree>, ghost before: Node?, ghost follow: bool)
    requires ts != [] && c == ts[|ts| - 1].node && Segment(ts, before, c.next, follow) && SeparateList(ts)
    modifies c`next
    ensures c.next == next && Segment(ts, before, next, follow)
  {
    hide Linked, Segment, SeparateList, NodesOf, BlocksOf;
    LastApart(ts, before, c.next, follow);
    c.next := next;
    ghost var init, last := ts[..|ts| - 1], ts[|ts| - 1];
    assert ts == init + [last];
    RunWithLast(init, last, before, next, follow);
  }

  /** The first node of a run is linked to a node before it. */
  method SetPrev(c: Node, prev: Node?, ghost ts: seq<Tree>, ghost next: Node?, ghost follow: bool)
    requires ts != [] && c == ts[0].node && Segment(ts, c.prev, next, follow) && SeparateList(ts)
    modifies c`prev
    ensures c.prev == prev && Segment(ts, prev, next, follow)
  {
    hide Linked;
    FirstApart(ts);
    c.prev := prev;
  }

  lemma FirstApart(ts: seq<Tree>)
    requires ts != [] && SeparateList(ts)
    ensures ts[0].node !in NodesOf(ts[1..]) && ts[0].node !in NodesOf(ts[0].kids)
  {
    assert ts[0].node in Blocks(ts[0]) && ts[0].node !in BlocksOf(ts[0].kids);
  }

  // ---- adding ----

  /** The node that the next child is linked behind. */
  function LastNode(ts: seq<Tree>): set<Node> {
    if ts == [] then {} else {ts[|ts| - 1].node}
  }

  lemma LastNodeIn(ts: seq<Tree>)
    ensures LastNode(ts) <= NodesOf(ts)
  {
    if ts != [] {
      LastBlock(ts);
    }
  }

  lemma LastBlock(ts: seq<Tree>)
    requires ts != []
    ensures ts[|ts| - 1].node in NodesOf(ts)
  {
    if |ts| > 1 {
      LastBlock(ts[1..]);
    }
  }

  /** The last of the siblings. */
  method LastSibling(first: Node, ghost ts: seq<Tree>, ghost follow: bool) returns (c: Node)
    requires ts != [] && first == ts[0].node && Segment(ts, null, null, follow)
    ensures c == ts[|ts| - 1].node && c.next == null
  {
    hide Linked;
    c := first;
    ghost var i := 0;
    SegmentAt(ts, i, null, null, follow);
    while c.next != null
      invariant i < |ts| && c == ts[i].node && Segment(ts, null, null, follow) && c.next == FirstOr(ts[i + 1..], null)
      decreases |ts| - i
    {
      i, c := i + 1, c.next;
      SegmentAt(ts, i, null, null, follow);
    }
  }

  lemma AppendedTree(list: Node, ts: seq<Tree>, t: Tree, follow: bool)
    requires ts != [] && list.child == ts[0].node && list !in BlocksOf(ts) && list !in Blocks(t)
    requires Segment(ts, null, t.node, follow) && SeparateList(ts) && Blocks(t) !! BlocksOf(ts)
    requires Linked(t, follow) && Separate(t) && t.node.prev == ts[|ts| - 1].node && t.node.next == null
    ensures Children(list, ts + [t], follow)
  {
    hide Linked, Blocks, Separate;
    RunGrows(ts, t, null, follow);
    assert FirstOr(ts + [t], null) == FirstOr(ts, null);
  }

  /** The item is linked behind the last child. */
  method AppendAfter(c: Node, item: Node, ghost t: Tree, ghost ts: seq<Tree>, ghost follow: bool)
    requires ts != [] && c == ts[|ts| - 1].node && Segment(ts, null, null, follow) && SeparateList(ts)
    requires item == t.node && Alone(t, follow) && Blocks(t) !! BlocksOf(ts)
    modifies c`next, item`prev
    ensures Segment(ts, null, item, follow) && Linked(t, follow) && item.prev == c && item.next == null
  {
    hide Linked, Segment, SeparateList, Blocks, BlocksOf, NodesOf, NodesIn, StringsIn, StringsOf, Separate;
    NodeOutsideKids(t);
    LastBlock(ts);
    assert allocated(NodesIn(t)) && allocated(NodesOf(t.kids));
    assert forall n | n in NodesOf(t.kids) :: n in NodesIn(t) && n in Blocks(t);
    assert c in BlocksOf(ts) && c !in Blocks(t) && c !in NodesOf(t.kids) && c != item;
    SuffixObject(c, item, ts, null, follow);
  }

  /** The walk to the last child, and the link behind it. */
  method AppendItem(list: Node, item: Node, ghost t: Tree, ghost ts: seq<Tree>, ghost follow: bool)
    requires ts != [] && list.child == ts[0].node && Segment(ts, null, null, follow) && SeparateList(ts)
    requires list !in BlocksOf(ts) && list !in Blocks(t)
    requires item == t.node && Alone(t, follow) && Blocks(t) !! BlocksOf(ts)
    modifies LastNode(ts)`next, item`prev
    ensures Segment(ts, null, item, follow) && Linked(t, follow) && item.prev == ts[|ts| - 1].node && item.next == null
  {
    hide Linked, Segment, SeparateList, Blocks, BlocksOf, NodesOf, NodesIn, StringsIn, StringsOf, Separate;
    LastBlock(ts);
    assert allocated(NodesOf(ts)) && allocated(NodesIn(t)) && allocated(NodesOf(t.kids));
    var c := LastSibling(list.child, ts, follow);
    AppendAfter(c, item, t, ts, follow);
  }

  /** The item, if there is one. */
  ghost function Just(item: Node?): set<Node> {
    if item == null then {} else {item}
  }

  /** A node whose list is known to end at p gets one more child, as its first one when the list is empty. */
  method LinkLast(a: Node, p: Node?, n: Node, ghost t: Tree, ghost ts: seq<Tree>)
    requires Children(a, ts, false) && p == LastOr(ts, null)
    requires n == t.node && Alone(t, false) && Blocks(t) !! BlocksOf(ts) && a !in Blocks(t)
    modifies a`child, NodesOf(ts)`next, n`prev
    ensures Children(a, ts + [t], false) && BlocksOf(ts + [t]) == BlocksOf(ts) + Blocks(t)
  {
    BlocksOfAppend(ts, [t]);
    OneTree(t, null, false);
    NodeOutsideKids(t);
    hide Linked, Segment, SeparateList, Blocks, BlocksOf, NodesOf, NodesIn, Separate;
    if p == null {
      assert ts == [] && ts + [t] == [t];
      a.child := n;
      OneTree(t, null, false);
    } else {
      LastBlock(ts);
      AppendAfter(p, n, t, ts, false);
      AppendedTree(a, ts, t, false);
    }
  }

  /** The links of cJSON_AddItemToArray, with an item. */
  method LinkItem(list: Node, item: Node, ghost t: Tree, ghost ts: seq<Tree>, ghost follow: bool)
    requires Children(list, ts, follow)
    requires item == t.node && Alone(t, follow) && Blocks(t) !! BlocksOf(ts) && list !in Blocks(t)
    modifies list`child, LastNode(ts)`next, item`prev
    ensures Children(list, ts + [t], follow)
  {
    if list.child == null {
      OneTree(t, null, follow);
      list.child := item;
      assert ts + [t] == [t];
    } else {
      hide Linked, Segment, SeparateList, Blocks, BlocksOf, NodesOf, NodesIn, Separate;
      AppendItem(list, item, t, ts, follow);
      AppendedTree(list, ts, t, follow);
    }
  }

  // ---- detaching ----

  /** A run around one of its trees. */
  lemma Around(ts: seq<Tree>, k: nat, follow: bool)
    requires k < |ts| && Segment(ts, null, null, follow) && SeparateList(ts)
    ensures var a, t, b := ts[..k], ts[k], ts[k + 1..];
      && Segment(a, null, t.node, follow) && Segment(b, t.node, null, follow) && Linked(t, follow)
      && SeparateList(a) && SeparateList(b) && Separate(t)
      && t.node.prev == LastOr(a, null) && t.node.next == FirstOr(b, null)
      && BlocksOf(a) !! Blocks(t) && BlocksOf(b) !! Blocks(t) && BlocksOf(a) !! BlocksOf(b)
      && BlocksOf(ts) == BlocksOf(a) + Blocks(t) + BlocksOf(b)
  {
    hide Linked, Blocks, Separate;
    var a, t, b := ts[..k], ts[k], ts[k + 1..];
    assert ts == a + ([t] + b);
    SegmentAppend(a, [t] + b, null, null, follow);
    SeparateListAppend(a, [t] + b);
    BlocksOfAppend(a, [t] + b);
    assert ([t] + b)[1..] == b;
  }

  /** Two runs next to each other. */
  lemma Joined(a: seq<Tree>, b: seq<Tree>, follow: bool)
    requires Segment(a, null, FirstOr(b, null), follow) && Segment(b, LastOr(a, null), null, follow)
    requires SeparateList(a) && SeparateList(b) && BlocksOf(a) !! BlocksOf(b)
    ensures Segment(a + b, null, null, follow) && SeparateList(a + b) && BlocksOf(a + b) == BlocksOf(a) + BlocksOf(b)
  {
    hide Linked, Blocks, Separate;
    SegmentAppend(a, b, null, null, follow);
    SeparateListAppend(a, b);
    BlocksOfAppend(a, b);
  }

  /** The neighbours of a node between two runs are linked to each other. */
  method Bypass(c: Node, ghost a: seq<Tree>, ghost b: seq<Tree>, ghost follow: bool)
    requires Segment(a, null, c, follow) && Segment(b, c, null, follow) && SeparateList(a) && SeparateList(b)
    requires c.prev == LastOr(a, null) && c.next == FirstOr(b, null) && BlocksOf(a) !! BlocksOf(b)
    requires c !in BlocksOf(a) && c !in BlocksOf(b)
    modifies NodesOf(a)`next, NodesOf(b)`prev
    ensures Segment(a, null, FirstOr(b, null), follow) && Segment(b, LastOr(a, null), null, follow)
    ensures c.prev == old(c.prev) && c.next == old(c.next)
  {
    hide Linked, Separate, Blocks, BlocksOf, SeparateList, NodesOf;
    if a != [] {
      LastBlock(a);
      LastLink(a, c, follow);
    }
    assert forall n | n in NodesOf(a) :: n !in NodesOf(b) && n != c;
    assert forall n | n in NodesOf(b) :: n != c && n !in NodesOf(a);
    assert allocated(NodesOf(a)) && allocated(NodesOf(b));
    if c.prev != null {
      SetNext(c.prev, c.next, a, null, follow);
    }
    if c.next != null {
      SetPrev(c.next, c.prev, b, null, follow);
    }
  }

  lemma LastLink(ts: seq<Tree>, next: Node?, follow: bool)
    requires ts != [] && Segment(ts, null, next, follow)
    ensures ts[|ts| - 1].node.next == next
  {
    hide Linked;
    SegmentAt(ts, |ts| - 1, null, next, follow);
  }

  lemma ChildrenAround(list: Node, ts: seq<Tree>, k: nat, follow: bool)
    requires k < |ts| && Segment(ts[..k], null, FirstOr(ts[k + 1..], null), follow)
    requires Segment(ts[k + 1..], LastOr(ts[..k], null), null, follow)
    requires SeparateList(ts[..k]) && SeparateList(ts[k + 1..]) && BlocksOf(ts[..k]) !! BlocksOf(ts[k + 1..])
    requires list !in BlocksOf(ts[..k]) && list !in BlocksOf(ts[k + 1..])
    requires list.child == FirstOr(ts[..k], FirstOr(ts[k + 1..], null))
    ensures Children(list, Without(ts, k), follow)
    ensures BlocksOf(Without(ts, k)) == BlocksOf(ts[..k]) + BlocksOf(ts[k + 1..])
  {
    hide Linked, Blocks, Separate;
    Joined(ts[..k], ts[k + 1..], follow);
  }

  /** cJSON_DetachItemFromArray: the child at that position leaves the list, and stands alone with its own tree. */
  method DetachItemFromArray(list: Node, which: int, ghost ts: seq<Tree>, ghost follow: bool) returns (c: Node?)
    requires Children(list, ts, follow)
    modifies list`child, NodesOf(ts)`next, NodesOf(ts)`prev
    ensures Position(which) >= |ts| ==> c == null && Children(list, ts, follow)
    ensures Position(which) < |ts| ==>
      && c == ts[Position(which)].node && Alone(ts[Position(which)], follow)
      && Children(list, Without(ts, Position(which)), follow)
    ensures Position(which) < |ts| ==>
      BlocksOf(ts) == BlocksOf(Without(ts, Position(which))) + Blocks(ts[Position(which)])
      && Blocks(ts[Position(which)]) !! BlocksOf(Without(ts, Position(which)))
  {
    hide Linked, Separate, Blocks, BlocksOf, SeparateList, NodesOf, NodesIn, Segment;
    assert allocated(NodesOf(ts));
    c := GetArrayItem(list, which, ts, follow);
    if c == null {
      return;
    }
    ghost var k := Position(which);
    ghost var a, t, b := ts[..k], ts[k], ts[k + 1..];
    Around(ts, k, follow);
    NodesAround(ts, k);
    NodeOutsideKids(t);
    Bypass(c, a, b, follow);
    if c == list.child {
      list.child := c.next;
    }
    c.prev, c.next := null, null;
    ChildrenAround(list, ts, k, follow);
  }

  /** The nodes of the three parts of a run. */
  lemma NodesAround(ts: seq<Tree>, k: nat)
    requires k < |ts|
    ensures NodesOf(ts[..k]) + NodesIn(ts[k]) + NodesOf(ts[k + 1..]) == NodesOf(ts)
  {
    hide NodesIn, NodesOf;
    var a, x, b := ts[..k], ts[k], ts[k + 1..];
    WholeOf(ts, k);
    NodesOfAppend(a, [x] + b);
    NodesOfAppend([x], b);
    OneTree(x, null, false);
  }

  lemma {:induction false} NodesOfAppend(a: seq<Tree>, b: seq<Tree>)
    ensures NodesOf(a + b) == NodesOf(a) + NodesOf(b)
  {
    hide NodesIn;
    if a == [] {
      assert a + b == b;
    } else {
      assert (a + b)[1..] == a[1..] + b;
      NodesOfAppend(a[1..], b);
    }
  }

  /** cJSON_DetachItemFromObject: it detaches the very node that cJSON_GetObjectItem finds. */
  method DetachItemFromObject(list: Node, name: array?<char>, ghost ts: seq<Tree>, ghost follow: bool)
      returns (c: Node?, ghost k: nat)
    requires Children(list, ts, follow) && NamesTerminated(ts) && (name != null ==> Terminated(name))
    modifies list`child, NodesOf(ts)`next, NodesOf(ts)`prev
    ensures k == old(PositionOf(ts, name))
    ensures k == |ts| ==> c == null && Children(list, ts, follow)
    ensures k < |ts| ==> c == ts[k].node && Alone(ts[k], follow) && Children(list, Without(ts, k), follow)
    ensures k < |ts| ==>
      BlocksOf(ts) == BlocksOf(Without(ts, k)) + Blocks(ts[k]) && Blocks(ts[k]) !! BlocksOf(Without(ts, k))
  {
    hide Linked, Segment, SeparateList, Separate, Blocks, BlocksOf, NodesOf, NodesIn, StringsIn, StringsOf, PositionOf,
      NamesTerminated;
    assert allocated(NodesOf(ts)) && allocated(StringsOf(ts));
    var i;
    c, i := FindName(list, name, ts, follow);
    k := i;
    if c != null {
      c := DetachItemFromArray(list, i, ts, follow);
    }
  }

  // ---- what a list shows ----

  /** A tree under another name. */
  function Renamed(t: Tree, name: array?<char>): Tree {
    t.(name := name)
  }

  /** The fields of a node, but for its name and its sibling links. */
  datatype Fields = Fields(kind: int, isReference: bool, child: Node?, valuestring: array?<char>, valueint: int,
    valuedouble: real)

  /** What a child is under any name and in any list: its nodes and strings and what they hold, the value that it shows
      of what it owns, and whether it is complete and has no reference. */
  datatype Item = Item(shape: Tree, fields: map<Node, Fields>, texts: map<array<char>, string>, value: Json,
    complete: bool, proper: bool)

  /** A child: its name, if it has one, and what it is. */
  datatype Entry = Entry(name: Option<string>, item: Item)

  ghost function FieldsOf(n: Node): Fields
    reads n`kind, n`isReference, n`child, n`valuestring, n`valueint, n`valuedouble
  {
    Fields(n.kind, n.isReference, n.child, n.valuestring, n.valueint, n.valuedouble)
  }

  ghost function ItemOf(t: Tree): Item
    reads NodesIn(t)`kind, NodesIn(t)`isReference, NodesIn(t)`child, NodesIn(t)`valuestring, NodesIn(t)`valueint
    reads NodesIn(t)`valuedouble, StringsIn(Renamed(t, null))
  {
    var bare := Renamed(t, null);
    Item(bare, map n | n in NodesIn(t) :: FieldsOf(n), map a | a in StringsIn(bare) :: a[..], Value(bare),
      Complete(bare), Proper(bare))
  }

  ghost function EntryOf(t: Tree): Entry
    reads NodesIn(t)`kind, NodesIn(t)`isReference, NodesIn(t)`child, NodesIn(t)`valuestring, NodesIn(t)`valueint
    reads NodesIn(t)`valuedouble, StringsIn(t)
  {
    Entry(if t.name == null then None else Some(CString(t.name)), ItemOf(t))
  }

  ghost function Entries(ts: seq<Tree>): (es: seq<Entry>)
    reads NodesOf(ts)`kind, NodesOf(ts)`isReference, NodesOf(ts)`child, NodesOf(ts)`valuestring, NodesOf(ts)`valueint
    reads NodesOf(ts)`valuedouble, StringsOf(ts)
    ensures |es| == |ts|
  {
    if ts == [] then [] else [EntryOf(ts[0])] + Entries(ts[1..])
  }

  ghost function ItemsIn(es: seq<Entry>): seq<Json> {
    seq(|es|, i requires 0 <= i < |es| => es[i].item.value)
  }

  ghost function MembersIn(es: seq<Entry>): seq<Member> {
    seq(|es|, i requires 0 <= i < |es| =>
      Member(if es[i].name.Some? then es[i].name.value else "", es[i].item.value))
  }

  /** The items and the members of a list are those of its entries. */
  lemma {:induction false} EntriesShow(ts: seq<Tree>)
    ensures Items(ts) == ItemsIn(Entries(ts)) && Members(ts) == MembersIn(Entries(ts))
  {
    hide Value, CString, ItemOf;
    if ts != [] {
      EntriesShow(ts[1..]);
      assert Entries(ts)[1..] == Entries(ts[1..]);
      NameShown(ts[0]);
      BareShows(ts[0]);
    }
  }

  /** The name of a node is no part of its value. */
  lemma BareShows(t: Tree)
    ensures ItemOf(t).value == Value(t)
  {
    hide Complete, Proper, FieldsOf;
  }

  lemma NameShown(t: Tree)
    ensures CString(t.name) == if EntryOf(t).name.Some? then EntryOf(t).name.value else ""
  {
    hide Value, ItemOf;
  }

  lemma {:induction false} EntriesAppend(a: seq<Tree>, b: seq<Tree>)
    ensures Entries(a + b) == Entries(a) + Entries(b)
    ensures NamesTerminated(a + b) <==> NamesTerminated(a) && NamesTerminated(b)
    ensures StringsOf(a + b) == StringsOf(a) + StringsOf(b)
  {
    hide EntryOf, StringsIn, Terminated;
    if a == [] {
      assert a + b == b;
    } else {
      assert (a + b)[1..] == a[1..] + b;
      EntriesAppend(a[1..], b);
    }
  }

  lemma OneEntry(t: Tree)
    ensures Entries([t]) == [EntryOf(t)] && (NamesTerminated([t]) <==> NameTerminated(t))
  {
    hide EntryOf, Terminated;
  }

  lemma Parts<T>(a: seq<T>, x: T, b: seq<T>)
    ensures var s := a + ([x] + b); s[..|a|] == a && s[|a|] == x && s[|a| + 1..] == b
  {}

  lemma WholeOf<T>(s: seq<T>, k: nat)
    requires k < |s|
    ensures s == s[..k] + ([s[k]] + s[k + 1..])
  {}

  lemma Update<T>(s: seq<T>, k: nat, x: T)
    requires k < |s|
    ensures s[k := x] == s[..k] + [x] + s[k + 1..]
  {}

  lemma EntriesSplit(ts: seq<Tree>, k: nat)
    requires k < |ts|
    ensures Entries(ts[..k]) == Entries(ts)[..k] && Entries(ts)[k] == EntryOf(ts[k])
    ensures Entries(ts[k + 1..]) == Entries(ts)[k + 1..]
    ensures NamesTerminated(ts)
       <==> NamesTerminated(ts[..k]) && NameTerminated(ts[k]) && NamesTerminated(ts[k + 1..])
  {
    hide EntryOf, Entries, NamesTerminated, NameTerminated, StringsOf, StringsIn;
    var a, x, b := ts[..k], ts[k], ts[k + 1..];
    EntriesAppend(a, [x] + b);
    EntriesAppend([x], b);
    OneEntry(x);
    WholeOf(ts, k);
    Parts(Entries(a), EntryOf(x), Entries(b));
  }

  /** The entries of a list that has gained a tree. */
  lemma EntriesAdded(ts: seq<Tree>, t: Tree)
    ensures Entries(ts + [t]) == Entries(ts) + [EntryOf(t)]
    ensures NamesTerminated(ts + [t]) <==> NamesTerminated(ts) && NameTerminated(t)
  {
    hide EntryOf, NameTerminated;
    EntriesAppend(ts, [t]);
    OneEntry(t);
  }

  /** The entries of a list that has lost a tree. */
  lemma EntriesWithout(ts: seq<Tree>, k: nat)
    requires k < |ts|
    ensures Entries(Without(ts, k)) == Without(Entries(ts), k)
    ensures NamesTerminated(ts) ==> NamesTerminated(Without(ts, k)) && NameTerminated(ts[k])
  {
    hide EntryOf, Entries, NamesTerminated, NameTerminated, StringsOf;
    var a, b := ts[..k], ts[k + 1..];
    EntriesSplit(ts, k);
    EntriesAppend(a, b);
    assert Without(ts, k) == a + b && Without(Entries(ts), k) == Entries(a) + Entries(b);
    hide Without;
  }

  /** The entries of a list that has got a tree for another. */
  lemma EntriesReplaced(ts: seq<Tree>, t: Tree, k: nat)
    requires k < |ts|
    ensures Entries(ts[k := t]) == Entries(ts)[k := EntryOf(t)]
    ensures NamesTerminated(ts) && NameTerminated(t) ==> NamesTerminated(ts[k := t])
  {
    hide EntryOf, Entries, NamesTerminated, NameTerminated, StringsOf;
    var a, b := ts[..k] + [t], ts[k + 1..];
    Update(ts, k, t);
    Update(Entries(ts), k, EntryOf(t));
    EntriesSplit(ts, k);
    EntriesAdded(ts[..k], t);
    EntriesAppend(a, b);
  }

  /** The entries of a list that has been linked to one more item. */
  method LinkEntry(list: Node, item: Node, ghost t: Tree, ghost ts: seq<Tree>, ghost follow: bool)
    requires Children(list, ts, follow) && list !in NodesOf(ts + [t])
    requires item == t.node && Alone(t, follow) && Blocks(t) !! BlocksOf(ts) && list !in Blocks(t)
    modifies list`child, LastNode(ts)`next, item`prev
    ensures Children(list, ts + [t], follow)
    ensures Entries(ts + [t]) == old(Entries(ts + [t])) && NamesTerminated(ts + [t]) == old(NamesTerminated(ts + [t]))
  {
    hide Children, Alone, Blocks, BlocksOf, NodesOf, StringsOf, Entries, NamesTerminated, LastNode;
    assert allocated(NodesOf(ts + [t])) && allocated(StringsOf(ts + [t]));
    LinkItem(list, item, t, ts, follow);
  }

  /** cJSON_AddItemToArray: the item becomes the last child, and the list shows it behind what it showed. */
  method AddItemToArray(list: Node, item: Node?, ghost t: Tree, ghost ts: seq<Tree>, ghost follow: bool)
    requires Children(list, ts, follow)
    requires item != null ==> item == t.node && Alone(t, follow) && Blocks(t) !! BlocksOf(ts) && list !in Blocks(t)
    modifies list`child, LastNode(ts)`next, Just(item)`prev
    ensures Children(list, if item == null then ts else ts + [t], follow)
    ensures item == null ==> list.child == old(list.child) && forall n | n in LastNode(ts) :: n.next == old(n.next)
    ensures item != null ==> Entries(ts + [t]) == old(Entries(ts)) + [old(EntryOf(t))]
    ensures item != null && old(NamesTerminated(ts)) && old(NameTerminated(t)) ==> NamesTerminated(ts + [t])
  {
    if item != null {
      assert list !in BlocksOf(ts);
      hide Children, Alone, Blocks, BlocksOf, NodesOf, StringsOf, Entries, EntryOf, NamesTerminated, NameTerminated,
        LastNode;
      OutsideNodes(list, ts, t);
      EntriesAdded(ts, t);
      LinkEntry(list, item, t, ts, follow);
    }
  }

  lemma OutsideNodes(list: Node, ts: seq<Tree>, t: Tree)
    requires list !in BlocksOf(ts) && list !in Blocks(t)
    ensures list !in NodesOf(ts + [t])
  {
    NodesOfAppend(ts, [t]);
    OneTree(t, null, false);
  }

  // ---- deleting ----

  /** cJSON_Delete of a node that stands alone; other trees stay as they are. */
  method DeleteAlone(mem: Memory, c: Node, ghost t: Tree, ghost others: seq<Tree>)
    requires c == t.node && Alone(t, false) && Blocks(t) <= mem.live && Blocks(t) !! BlocksOf(others)
    modifies mem`live, Blocks(t)
    ensures mem.live == old(mem.live) - Blocks(t) && mem.failures == old(mem.failures)
    ensures forall n | n in NodesOf(others) :: n !in Blocks(t) && n as object != mem
    ensures Entries(others) == old(Entries(others)) && (old(NamesTerminated(others)) ==> NamesTerminated(others))
  {
    hide Linked, Segment, SeparateList, Separate, Blocks, BlocksOf, NodesOf, NodesIn, StringsIn, StringsOf, Entries,
      NamesTerminated;
    OneTree(t, null, false);
    NotMemory(t, others, mem);
    assert allocated(NodesOf(others)) && allocated(StringsOf(others));
    Delete(mem, c, null, [t]);
  }

  /** No node is the allocator. */
  lemma NotMemory(t: Tree, others: seq<Tree>, mem: Memory)
    requires Blocks(t) !! BlocksOf(others)
    ensures mem !in Blocks(t) && forall n | n in NodesOf(others) :: n !in Blocks(t) && n as object != mem
    ensures forall n | n in StringsOf(others) :: n !in Blocks(t) && n as object != mem
  {
    BlocksTyped(t, mem);
  }

  lemma {:induction false} BlocksTyped(t: Tree, o: object)
    requires !(o is Node) && !(o is array<char>)
    ensures o !in Blocks(t)
    decreases t, 0
  {
    ListTyped(t.kids, o);
  }

  lemma {:induction false} ListTyped(ts: seq<Tree>, o: object)
    requires !(o is Node) && !(o is array<char>)
    ensures o !in BlocksOf(ts)
    decreases ts, 1
  {
    hide Blocks;
    if ts != [] {
      BlocksTyped(ts[0], o);
      ListTyped(ts[1..], o);
    }
  }

  /** The blocks that deleting or replacing the child at a position frees. */
  ghost function Doomed(ts: seq<Tree>, k: nat): set<object> {
    if k < |ts| then Blocks(ts[k]) else {}
  }

  lemma ShownWithout(ts: seq<Tree>, k: nat, es: seq<Entry>)
    requires k < |ts| == |es| && Entries(Without(ts, k)) == Without(es, k)
    ensures Items(Without(ts, k)) == Without(ItemsIn(es), k) && Members(Without(ts, k)) == Without(MembersIn(es), k)
  {
    hide Entries, Items, Members;
    EntriesShow(Without(ts, k));
  }

  /** cJSON_DeleteItemFromArray: the child at that position and all that it owns is freed; of the other children nothing
      but their links changes. */
  method DeleteItemFromArray(mem: Memory, list: Node, which: int, ghost ts: seq<Tree>)
    requires Children(list, ts, false) && BlocksOf(ts) <= mem.live
    modifies mem`live, list`child, NodesOf(ts)`next, NodesOf(ts)`prev, Doomed(ts, Position(which))
    ensures mem.failures == old(mem.failures)
    ensures Position(which) >= |ts| ==> mem.live == old(mem.live) && Children(list, ts, false)
    ensures Position(which) < |ts| ==> mem.live == old(mem.live) - Blocks(ts[Position(which)])
    ensures Position(which) < |ts| ==> Children(list, Without(ts, Position(which)), false)
    ensures Position(which) < |ts| ==>
      Entries(Without(ts, Position(which))) == Without(old(Entries(ts)), Position(which))
    ensures Position(which) < |ts| ==> Items(Without(ts, Position(which))) == Without(old(Items(ts)), Position(which))
    ensures Position(which) < |ts| ==>
      Members(Without(ts, Position(which))) == Without(old(Members(ts)), Position(which))
    ensures Position(which) < |ts| && old(NamesTerminated(ts)) ==> NamesTerminated(Without(ts, Position(which)))
  {
    hide Linked, Segment, SeparateList, Separate, Blocks, BlocksOf, NodesOf, NodesIn, StringsIn, StringsOf, Entries,
      Items, Members, NamesTerminated;
    ghost var k, es := Position(which), Entries(ts);
    if k < |ts| {
      EntriesShow(ts);
      EntriesWithout(ts, k);
      assert allocated(NodesOf(Without(ts, k))) && allocated(StringsOf(Without(ts, k)));
    }
    var c := DetachItemFromArray(list, which, ts, false);
    if c != null {
      DeleteAlone(mem, c, ts[k], Without(ts, k));
      ShownWithout(ts, k, es);
    }
  }

  /** cJSON_DeleteItemFromObject: the same for the first child of that name. */
  method DeleteItemFromObject(mem: Memory, list: Node, name: array?<char>, ghost ts: seq<Tree>) returns (ghost k: nat)
    requires Children(list, ts, false) && BlocksOf(ts) <= mem.live
    requires NamesTerminated(ts) && (name != null ==> Terminated(name))
    modifies mem`live, list`child, NodesOf(ts)`next, NodesOf(ts)`prev, Doomed(ts, PositionOf(ts, name))
    ensures k == old(PositionOf(ts, name)) && mem.failures == old(mem.failures)
    ensures k == |ts| ==> mem.live == old(mem.live) && Children(list, ts, false)
    ensures k < |ts| ==> mem.live == old(mem.live) - Blocks(ts[k]) && Children(list, Without(ts, k), false)
    ensures k < |ts| ==> Entries(Without(ts, k)) == Without(old(Entries(ts)), k) && NamesTerminated(Without(ts, k))
    ensures k < |ts| ==> Items(Without(ts, k)) == Without(old(Items(ts)), k)
    ensures k < |ts| ==> Members(Without(ts, k)) == Without(old(Members(ts)), k)
  {
    hide Linked, Segment, SeparateList, Separate, Blocks, BlocksOf, NodesOf, NodesIn, StringsIn, StringsOf, PositionOf,
      NamesTerminated, Entries, Items, Members;
    ghost var at, es := PositionOf(ts, name), Entries(ts);
    if at < |ts| {
      EntriesShow(ts);
      EntriesWithout(ts, at);
      assert allocated(NodesOf(Without(ts, at))) && allocated(StringsOf(Without(ts, at)));
    }
    var c;
    c, k := DetachItemFromObject(list, name, ts, false);
    if c != null {
      DeleteAlone(mem, c, ts[k], Without(ts, k));
      ShownWithout(ts, k, es);
    }
  }

  // ---- replacing ----

  /** newitem takes the place of c between two runs: the links around it. */
  method Exchange(list: Node, c: Node, newitem: Node, ghost a: seq<Tree>, ghost b: seq<Tree>, ghost follow: bool)
    requires Segment(a, null, c, follow) && Segment(b, c, null, follow) && SeparateList(a) && SeparateList(b)
    requires c.prev == LastOr(a, null) && c.next == FirstOr(b, null) && BlocksOf(a) !! BlocksOf(b)
    requires c !in BlocksOf(a) + BlocksOf(b) && newitem !in BlocksOf(a) + BlocksOf(b) && c != newitem
    requires list.child == FirstOr(a, c) && list !in BlocksOf(a) + BlocksOf(b)
    modifies list`child, NodesOf(a)`next, NodesOf(b)`prev, newitem`next, newitem`prev
    ensures list.child == FirstOr(a, newitem)
    ensures Segment(a, null, newitem, follow) && Segment(b, newitem, null, follow)
    ensures newitem.prev == c.prev == old(c.prev) && newitem.next == c.next == old(c.next)
  {
    hide Linked, Separate, Blocks, BlocksOf, SeparateList, NodesOf;
    if a != [] {
      LastBlock(a);
      LastLink(a, c, follow);
    }
    assert forall n | n in NodesOf(a) :: n !in NodesOf(b) && n != c && n != newitem && n != list;
    assert forall n | n in NodesOf(b) :: n != c && n !in NodesOf(a) && n != newitem && n != list;
    assert allocated(NodesOf(a)) && allocated(NodesOf(b));
    newitem.next := c.next;
    newitem.prev := c.prev;
    if newitem.next != null {
      SetPrev(newitem.next, newitem, b, null, follow);
    }
    if c == list.child {
      list.child := newitem;
    } else {
      SetNext(newitem.prev, newitem, a, null, follow);
    }
  }

  lemma ChildrenReplaced(list: Node, ts: seq<Tree>, k: nat, t: Tree, follow: bool)
    requires k < |ts| && Segment(ts[..k], null, t.node, follow) && Segment(ts[k + 1..], t.node, null, follow)
    requires SeparateList(ts[..k]) && SeparateList(ts[k + 1..]) && BlocksOf(ts[..k]) !! BlocksOf(ts[k + 1..])
    requires Linked(t, follow) && Separate(t)
    requires t.node.prev == LastOr(ts[..k], null) && t.node.next == FirstOr(ts[k + 1..], null)
    requires Blocks(t) !! BlocksOf(ts[..k]) && Blocks(t) !! BlocksOf(ts[k + 1..])
    requires list !in BlocksOf(ts[..k]) && list !in BlocksOf(ts[k + 1..]) && list !in Blocks(t)
    requires list.child == FirstOr(ts[..k], t.node)
    ensures Children(list, ts[k := t], follow)
    ensures BlocksOf(ts[k := t]) == BlocksOf(ts[..k]) + Blocks(t) + BlocksOf(ts[k + 1..])
  {
    hide Linked, Blocks, Separate;
    var a, b := ts[..k], ts[k + 1..];
    RunGrows(a, t, null, follow);
    Joined(a + [t], b, follow);
    assert a + [t] + b == ts[k := t];
  }

  /** The links of cJSON_ReplaceItemInArray: c is left alone, and newitem stands where it stood. */
  method ExchangeAt(list: Node, c: Node, newitem: Node, ghost k: nat, ghost t: Tree, ghost ts: seq<Tree>)
    requires Children(list, ts, false) && k < |ts| && c == ts[k].node
    requires newitem == t.node && Linked(t, false) && Separate(t) && Blocks(t) !! BlocksOf(ts) && list !in Blocks(t)
    modifies list`child, NodesOf(ts)`next, NodesOf(ts)`prev, newitem`next, newitem`prev
    ensures Children(list, ts[k := t], false) && Alone(ts[k], false)
    ensures Blocks(ts[k]) !! BlocksOf(ts[k := t]) && Blocks(ts[k]) <= BlocksOf(ts)
  {
    hide Linked, Separate, Blocks, BlocksOf, SeparateList, NodesOf, NodesIn, Segment;
    assert allocated(NodesOf(ts));
    ghost var a, b := ts[..k], ts[k + 1..];
    Around(ts, k, false);
    NodesAround(ts, k);
    NodeOutsideKids(ts[k]);
    NodeOutsideKids(t);
    assert allocated(NodesIn(t)) && allocated(NodesOf(t.kids));
    assert forall n | n in NodesIn(t) :: n !in NodesOf(a) && n !in NodesOf(b) && n != list && n != c;
    assert forall n | n in NodesOf(t.kids) :: n in NodesIn(t) && n != newitem;
    Exchange(list, c, newitem, a, b, false);
    c.next, c.prev := null, null;
    ChildrenReplaced(list, ts, k, t, false);
  }

  lemma ShownReplaced(ts: seq<Tree>, t: Tree, k: nat, es: seq<Entry>, e: Entry)
    requires k < |ts| == |es| && Entries(ts[k := t]) == es[k := e]
    ensures Items(ts[k := t]) == ItemsIn(es)[k := e.item.value]
    ensures Members(ts[k := t]) == MembersIn(es)[k := MembersIn([e])[0]]
  {
    hide Entries, Items, Members;
    EntriesShow(ts[k := t]);
  }

  /** cJSON_ReplaceItemInArray: the child at that position is freed with all that it owns, and the new item stands
      where it stood; of the others nothing but their links changes. Without such a child nothing happens. */
  method ReplaceItemInArray(mem: Memory, list: Node, which: int, newitem: Node, ghost t: Tree, ghost ts: seq<Tree>)
    requires Children(list, ts, false) && BlocksOf(ts) <= mem.live
    requires newitem == t.node && Linked(t, false) && Separate(t) && Blocks(t) !! BlocksOf(ts) && list !in Blocks(t)
    modifies mem`live, list`child, NodesOf(ts)`next, NodesOf(ts)`prev, Doomed(ts, Position(which))
    modifies newitem`next, newitem`prev
    ensures mem.failures == old(mem.failures)
    ensures Position(which) >= |ts| ==> mem.live == old(mem.live) && Children(list, ts, false) && Linked(t, false)
    ensures Position(which) >= |ts| ==> newitem.next == old(newitem.next) && newitem.prev == old(newitem.prev)
    ensures Position(which) < |ts| ==> mem.live == old(mem.live) - Blocks(ts[Position(which)])
    ensures Position(which) < |ts| ==> Children(list, ts[Position(which) := t], false)
    ensures Position(which) < |ts| ==>
      Entries(ts[Position(which) := t]) == old(Entries(ts))[Position(which) := old(EntryOf(t))]
    ensures Position(which) < |ts| ==>
      Items(ts[Position(which) := t]) == old(Items(ts))[Position(which) := old(Value(t))]
    ensures Position(which) < |ts| ==>
      Members(ts[Position(which) := t])
      == old(Members(ts))[Position(which) := Member(old(CString(t.name)), old(Value(t)))]
    ensures Position(which) < |ts| && old(NamesTerminated(ts)) && old(NameTerminated(t)) ==>
      NamesTerminated(ts[Position(which) := t])
  {
    hide Linked, Segment, SeparateList, Separate, Blocks, BlocksOf, NodesOf, NodesIn, StringsIn, StringsOf, Entries,
      Items, Members, NamesTerminated, NameTerminated, EntryOf, Value, CString;
    assert allocated(NodesOf(ts)) && allocated(NodesIn(t));
    ghost var k, es, e := Position(which), Entries(ts), EntryOf(t);
    if k < |ts| {
      EntriesShow(ts);
      EntriesReplaced(ts, t, k);
      EntryShows(t);
      assert allocated(NodesOf(ts[k := t])) && allocated(StringsOf(ts[k := t]));
    }
    var c := GetArrayItem(list, which, ts, false);
    if c == null {
      return;
    }
    ExchangeAt(list, c, newitem, k, t, ts);
    DeleteAlone(mem, c, ts[k], ts[k := t]);
    ShownReplaced(ts, t, k, es, e);
  }

  lemma EntryShows(t: Tree)
    ensures EntryOf(t).item == ItemOf(t) && EntryOf(t).item.value == Value(t)
    ensures MembersIn([EntryOf(t)])[0] == Member(CString(t.name), Value(t))
  {
    BareShows(t);
    hide Value, Complete, Proper;
  }

  // ---- names for items ----

  /** A tree whose node has another name. */
  lemma RenamedTree(t: Tree, name: array?<char>, follow: bool)
    requires Separate(t) && (name != null ==> name !in Blocks(t))
    ensures Separate(Renamed(t, name)) && NodesIn(Renamed(t, name)) == NodesIn(t)
    ensures Blocks(Renamed(t, name)) <= Blocks(t) + StringBlock(name)
    ensures t.node.name == name ==> (Linked(Renamed(t, name), follow) <==> LinkedButName(t, follow))
  {}

  /** Linked, but for the name. */
  ghost predicate LinkedButName(t: Tree, follow: bool)
    reads NodesIn(t)`name, NodesIn(t)`isReference, NodesIn(t)`valuestring, NodesIn(t)`child
    reads NodesOf(t.kids)`prev, NodesOf(t.kids)`next, NodesOf(t.kids)`name
  {
    if t.node.isReference && !follow then t.value == null && t.kids == []
    else
      && t.node.valuestring == t.value
      && t.node.child == FirstOr(t.kids, null)
      && Segment(t.kids, null, null, follow)
  }

  /** The item has another name, or none. */
  method SetName(item: Node, name: array?<char>, ghost t: Tree)
    requires item == t.node && Linked(t, false) && Separate(t) && (name != null ==> name !in Blocks(t))
    modifies item`name
    ensures item.name == name && Linked(Renamed(t, name), false) && Separate(Renamed(t, name))
    ensures NodesIn(Renamed(t, name)) == NodesIn(t)
    ensures Blocks(Renamed(t, name)) <= Blocks(t) + StringBlock(name) && ItemOf(t) == old(ItemOf(t))
  {
    NodeOutsideKids(t);
    assert LinkedButName(t, false);
    hide Linked, Separate, Blocks, NodesIn, NodesOf, StringsIn, StringsOf, ItemOf;
    item.name := name;
    RenamedTree(t, name, false);
  }

  lemma RenamedShows(t: Tree, name: array?<char>)
    ensures EntryOf(Renamed(t, name)) == Entry(if name == null then None else Some(CString(name)), ItemOf(t))
  {
    hide Value, Complete, Proper, FieldsOf;
  }

  /** The item gets a copy of the name; the name that it had is not freed. Without memory it has no name then. */
  method CopyName(mem: Memory, item: Node, name: array<char>, ghost t: Tree)
    requires item == t.node && Linked(t, false) && Separate(t) && Terminated(name)
    modifies mem`live, mem`failures, item`name
    ensures Linked(Renamed(t, item.name), false) && Separate(Renamed(t, item.name))
    ensures NodesIn(Renamed(t, item.name)) == NodesIn(t)
    ensures Blocks(Renamed(t, item.name)) <= Blocks(t) + StringBlock(item.name)
    ensures mem.failures >= old(mem.failures) && (item.name == null <==> mem.failures > old(mem.failures))
    ensures mem.live == old(mem.live) + StringBlock(item.name) && StringBlock(item.name) !! old(mem.live)
    ensures item.name != null ==> fresh(item.name) && Terminated(item.name) && CString(item.name) == old(CString(name))
    ensures ItemOf(t) == old(ItemOf(t))
  {
    assert allocated(Blocks(t)) && allocated(NodesIn(t)) && allocated(StringsIn(Renamed(t, null)));
    hide Linked, Separate, Blocks, NodesIn, NodesOf, StringsIn, StringsOf, BlocksOf, Terminated, CString,
      Renamed, ItemOf;
    var copy := StrDup(mem, name);
    SetName(item, copy, t);
  }

  /** The name of an item is no other part of it. */
  lemma NameApart(t: Tree)
    requires Separate(t)
    ensures NodesIn(Renamed(t, null)) == NodesIn(t) && StringsIn(Renamed(t, null)) !! StringBlock(t.name)
  {}

  lemma NamesApart(t: Tree, ts: seq<Tree>)
    requires Blocks(t) !! BlocksOf(ts)
    ensures StringsOf(ts) !! StringBlock(t.name)
  {}

  /** The name of an item is freed, if it has one. */
  method DropName(mem: Memory, item: Node, ghost t: Tree)
    requires item == t.node && Alone(t, false) && Blocks(t) <= mem.live
    modifies mem`live, StringBlock(t.name)
    ensures mem.live == old(mem.live) - StringBlock(t.name) && mem.failures == old(mem.failures) && Alone(t, false)
    ensures ItemOf(t) == old(ItemOf(t))
  {
    NameApart(t);
    RenamedShows(t, null);
    assert item.name == t.name && StringBlock(t.name) <= Blocks(t);
    hide Alone, Blocks, NodesIn, NodesOf, StringsIn, StringsOf, BlocksOf, Renamed, EntryOf, Value, ItemOf;
    ghost var bare := Renamed(t, null);
    assert allocated(NodesIn(bare)) && allocated(StringsIn(bare)) && allocated(NodesIn(t));
    if item.name != null {
      mem.FreeChars(item.name);
    }
  }

  /** The renaming of cJSON_AddItemToObject: the old name is freed first. */
  method Rename(mem: Memory, item: Node, name: array<char>, ghost t: Tree)
    requires item == t.node && Alone(t, false) && Terminated(name) && name !in Blocks(t) && Blocks(t) <= mem.live
    modifies mem`live, mem`failures, item`name, StringBlock(t.name)
    ensures Alone(Renamed(t, item.name), false) && NodesIn(Renamed(t, item.name)) == NodesIn(t)
    ensures Blocks(Renamed(t, item.name)) <= Blocks(t) + StringBlock(item.name)
    ensures mem.failures >= old(mem.failures) && (item.name == null <==> mem.failures > old(mem.failures))
    ensures mem.live == old(mem.live) - StringBlock(t.name) + StringBlock(item.name)
    ensures item.name != null ==> fresh(item.name) && Terminated(item.name) && CString(item.name) == old(CString(name))
    ensures EntryOf(Renamed(t, item.name))
         == Entry(if item.name == null then None else Some(old(CString(name))), old(ItemOf(t)))
  {
    assert allocated(Blocks(t)) && allocated(NodesIn(t));
    hide Linked, Separate, Blocks, NodesIn, NodesOf, StringsIn, StringsOf, BlocksOf, Terminated, CString,
      Renamed, EntryOf, ItemOf, StringBlock;
    DropName(mem, item, t);
    CopyName(mem, item, name, t);
    RenamedShows(t, item.name);
  }

  /** Renaming an item leaves a list alone that the item is not in. */
  lemma RenameApart(item: Node, t: Tree, ts: seq<Tree>)
    requires item == t.node && Blocks(t) !! BlocksOf(ts)
    ensures item !in NodesOf(ts) && StringBlock(t.name) !! BlocksOf(ts)
  {
    hide BlocksOf, NodesOf;
  }

  method RenameBeside(mem: Memory, list: Node, item: Node, name: array<char>, ghost t: Tree, ghost ts: seq<Tree>)
    requires Children(list, ts, false) && Blocks(t) !! BlocksOf(ts) && list !in Blocks(t)
    requires item == t.node && Alone(t, false) && Terminated(name) && name !in Blocks(t) && Blocks(t) <= mem.live
    modifies mem`live, mem`failures, item`name, StringBlock(t.name)
    ensures Children(list, ts, false) && Alone(Renamed(t, item.name), false)
    ensures NodesIn(Renamed(t, item.name)) == NodesIn(t)
    ensures Blocks(Renamed(t, item.name)) !! BlocksOf(ts) && list !in Blocks(Renamed(t, item.name))
    ensures mem.failures >= old(mem.failures) && (item.name == null <==> mem.failures > old(mem.failures))
    ensures mem.live == old(mem.live) - StringBlock(t.name) + StringBlock(item.name)
    ensures item.name != null ==> fresh(item.name) && Terminated(item.name) && CString(item.name) == old(CString(name))
    ensures EntryOf(Renamed(t, item.name))
         == Entry(if item.name == null then None else Some(old(CString(name))), old(ItemOf(t)))
  {
    hide Children, Alone, Linked, Separate, Blocks, NodesIn, NodesOf, StringsIn, StringsOf, BlocksOf, Terminated,
      CString, Renamed, EntryOf, ItemOf, Segment, SeparateList, Value;
    assert allocated(NodesOf(ts)) && allocated(BlocksOf(ts));
    RenameApart(item, t, ts);
    Rename(mem, item, name, t);
  }

  /** The part of cJSON_AddItemToObject for an item that is there: it loses its old name, gets a copy of the new one,
      and becomes the last child. */
  method AddUnderName(mem: Memory, list: Node, name: array<char>, item: Node, ghost t: Tree, ghost ts: seq<Tree>)
    requires Children(list, ts, false) && Terminated(name)
    requires item == t.node && Alone(t, false) && Blocks(t) !! BlocksOf(ts) && list !in Blocks(t)
    requires name !in Blocks(t) && Blocks(t) <= mem.live
    modifies mem`live, mem`failures, list`child, LastNode(ts)`next, item`prev, item`name, StringBlock(t.name)
    ensures Children(list, ts + [Renamed(t, item.name)], false)
    ensures mem.failures >= old(mem.failures) && (item.name == null <==> mem.failures > old(mem.failures))
    ensures mem.live == old(mem.live) - StringBlock(t.name) + StringBlock(item.name)
    ensures item.name != null ==> fresh(item.name) && Terminated(item.name) && CString(item.name) == old(CString(name))
    ensures Entries(ts + [Renamed(t, item.name)])
         == old(Entries(ts)) + [Entry(if item.name == null then None else Some(old(CString(name))), old(ItemOf(t)))]
    ensures old(NamesTerminated(ts)) ==> NamesTerminated(ts + [Renamed(t, item.name)])
  {
    LastNodeIn(ts);
    hide Linked, Separate, Blocks, NodesIn, NodesOf, StringsIn, StringsOf, BlocksOf, Terminated, CString, Segment,
      SeparateList, Children, Alone, Entries, EntryOf, NamesTerminated, Value, ItemOf;
    assert allocated(NodesOf(ts)) && allocated(StringsOf(ts));
    NamesApart(t, ts);
    RenameBeside(mem, list, item, name, t, ts);
    ghost var t' := Renamed(t, item.name);
    assert allocated(item.name);
    AddItemToArray(list, item, t', ts, false);
  }

  /** cJSON_AddItemToObject: the item gets a copy of the name, loses the name that it had, and becomes the last child.
      Without an item nothing happens. */
  method AddItemToObject(mem: Memory, list: Node, name: array<char>, item: Node?, ghost t: Tree, ghost ts: seq<Tree>)
      returns (ghost t': Tree)
    requires Children(list, ts, false) && Terminated(name)
    requires item != null ==> item == t.node && Alone(t, false) && Blocks(t) !! BlocksOf(ts) && list !in Blocks(t)
    requires item != null ==> name !in Blocks(t) && Blocks(t) <= mem.live
    modifies mem`live, mem`failures, list`child, LastNode(ts)`next, Just(item)`prev, Just(item)`name
    modifies StringBlock(t.name)
    ensures item == null ==> mem.live == old(mem.live) && Children(list, ts, false)
    ensures item != null ==> t' == Renamed(t, item.name) && Children(list, ts + [t'], false)
    ensures mem.failures >= old(mem.failures) && (item == null ==> mem.failures == old(mem.failures))
    ensures item != null ==> (item.name == null <==> mem.failures > old(mem.failures))
    ensures item != null ==> mem.live == old(mem.live) - StringBlock(t.name) + StringBlock(item.name)
    ensures item != null && item.name != null ==>
      fresh(item.name) && Terminated(item.name) && CString(item.name) == old(CString(name))
    ensures item != null ==>
      Entries(ts + [t'])
      == old(Entries(ts)) + [Entry(if item.name == null then None else Some(old(CString(name))), old(ItemOf(t)))]
    ensures item != null && old(NamesTerminated(ts)) ==> NamesTerminated(ts + [t'])
  {
    t' := t;
    if item != null {
      hide Linked, Separate, Blocks, NodesIn, NodesOf, StringsIn, StringsOf, BlocksOf, Terminated, CString, Segment,
        SeparateList, Children, Alone, Entries, EntryOf, NamesTerminated, Value, ItemOf, Renamed;
      AddUnderName(mem, list, name, item, t, ts);
      t' := Renamed(t, item.name);
    }
  }

  /** What is live after a replacement by name, against what the trees have: the old name of the new item. */
  lemma LostName(t: Tree, name: array?<char>, live: set<object>, dead: set<object>)
    requires Separate(t) && Blocks(t) <= live && Blocks(t) !! dead && dead <= live && StringBlock(name) !! live
    ensures live + StringBlock(name) - dead == live - Blocks(t) - dead + Blocks(Renamed(t, name)) + StringBlock(t.name)
    ensures live + StringBlock(name) - dead == live - Blocks(t) - dead + Blocks(Renamed(t, name)) <==> t.name == null
  {
    var core := {t.node} + StringBlock(t.value) + BlocksOf(t.kids);
    assert Blocks(t) == core + StringBlock(t.name) && Blocks(Renamed(t, name)) == core + StringBlock(name);
    if t.name != null {
      assert t.name in live + StringBlock(name) - dead;
      assert t.name !in live - Blocks(t) - dead + Blocks(Renamed(t, name));
    }
  }

  lemma {:induction false} BlocksWithin(ts: seq<Tree>, k: nat)
    requires k < |ts|
    ensures Blocks(ts[k]) <= BlocksOf(ts)
  {
    hide Blocks;
    if k > 0 {
      BlocksWithin(ts[1..], k - 1);
    }
  }

  /** The new item gets a copy of the name and takes the place of a child. */
  method RenameAndReplace(mem: Memory, list: Node, i: nat, name: array<char>, newitem: Node, ghost t: Tree,
        ghost ts: seq<Tree>)
    requires Children(list, ts, false) && BlocksOf(ts) <= mem.live && NamesTerminated(ts) && Terminated(name)
    requires newitem == t.node && Linked(t, false) && Separate(t) && Blocks(t) !! BlocksOf(ts)
    requires list !in Blocks(t) && i < |ts|
    modifies mem`live, mem`failures, list`child, NodesOf(ts)`next, NodesOf(ts)`prev, Blocks(ts[i])
    modifies newitem`next, newitem`prev, newitem`name
    ensures newitem.name == null <==> mem.failures > old(mem.failures)
    ensures newitem.name != null ==> fresh(newitem.name)
    ensures mem.failures >= old(mem.failures) && StringBlock(newitem.name) !! old(mem.live)
    ensures mem.live == old(mem.live) + StringBlock(newitem.name) - Blocks(ts[i])
    ensures Children(list, ts[i := Renamed(t, newitem.name)], false)
    ensures NamesTerminated(ts[i := Renamed(t, newitem.name)])
    ensures Entries(ts[i := Renamed(t, newitem.name)])
         == old(Entries(ts))[
              i := Entry(if newitem.name == null then None else Some(old(CString(name))), old(ItemOf(t)))]
  {
    hide Linked, Segment, SeparateList, Separate, Blocks, BlocksOf, NodesOf, NodesIn, StringsIn, StringsOf,
      NamesTerminated, CString, Terminated, Alone, Entries, Items, Members, EntryOf, Value, ItemOf;
    assert allocated(NodesOf(ts)) && allocated(StringsOf(ts)) && allocated(NodesIn(t)) && allocated(BlocksOf(ts));
    assert allocated(StringsIn(t)) && allocated(StringsIn(Renamed(t, null)));
    assert forall n | n in NodesOf(ts) :: n != newitem;
    BlocksWithin(ts, i);
    assert newitem !in Blocks(ts[i]) && newitem in NodesIn(t);
    CopyName(mem, newitem, name, t);
    RenamedShows(t, newitem.name);
    ReplaceItemInArray(mem, list, i, newitem, Renamed(t, newitem.name), ts);
  }

  /** What cJSON_ReplaceItemInObject does when it has found the name: the new item gets a copy of it, and takes the
      place of the child. */
  method ReplaceNamed(mem: Memory, list: Node, i: nat, name: array<char>, newitem: Node, ghost t: Tree,
        ghost ts: seq<Tree>)
    requires Children(list, ts, false) && BlocksOf(ts) <= mem.live && NamesTerminated(ts) && Terminated(name)
    requires newitem == t.node && Linked(t, false) && Separate(t) && Blocks(t) !! BlocksOf(ts)
    requires list !in Blocks(t) && i < |ts|
    requires Blocks(t) <= mem.live
    modifies mem`live, mem`failures, list`child, NodesOf(ts)`next, NodesOf(ts)`prev, Blocks(ts[i])
    modifies newitem`next, newitem`prev, newitem`name
    ensures newitem.name == null <==> mem.failures > old(mem.failures)
    ensures newitem.name != null ==> fresh(newitem.name)
    ensures mem.failures >= old(mem.failures) && StringBlock(newitem.name) !! old(mem.live)
    ensures mem.live
         == old(mem.live) - Blocks(t) - Blocks(ts[i]) + Blocks(Renamed(t, newitem.name)) + StringBlock(t.name)
    ensures mem.live == old(mem.live) - Blocks(t) - Blocks(ts[i]) + Blocks(Renamed(t, newitem.name)) <==> t.name == null
    ensures Children(list, ts[i := Renamed(t, newitem.name)], false)
    ensures NamesTerminated(ts[i := Renamed(t, newitem.name)])
    ensures Entries(ts[i := Renamed(t, newitem.name)])
         == old(Entries(ts))[
              i := Entry(if newitem.name == null then None else Some(old(CString(name))), old(ItemOf(t)))]
  {
    ghost var live := mem.live;
    hide Linked, Segment, SeparateList, Separate, Blocks, BlocksOf, NodesOf, NodesIn, StringsIn, StringsOf,
      NamesTerminated, CString, Terminated, Alone, Children, Renamed, StringBlock, Entries, EntryOf, Value, ItemOf;
    BlocksWithin(ts, i);
    RenameAndReplace(mem, list, i, name, newitem, t, ts);
    LostName(t, newitem.name, live, Blocks(ts[i]));
  }

  /** cJSON_ReplaceItemInObject: as cJSON_ReplaceItemInArray at the position of the name, with a copy of the name for
      the new item. What is live afterwards is what the trees have if and only if the new item had no name: the code
      does not free that name, and no tree has it any more. */
  method ReplaceItemInObject(mem: Memory, list: Node, name: array<char>, newitem: Node, ghost t: Tree,
        ghost ts: seq<Tree>)
      returns (ghost k: nat)
    requires Children(list, ts, false) && BlocksOf(ts) <= mem.live && NamesTerminated(ts) && Terminated(name)
    requires newitem == t.node && Linked(t, false) && Separate(t) && Blocks(t) !! BlocksOf(ts) && list !in Blocks(t)
    requires Blocks(t) <= mem.live
    modifies mem`live, mem`failures, list`child, NodesOf(ts)`next, NodesOf(ts)`prev, Doomed(ts, PositionOf(ts, name))
    modifies newitem`next, newitem`prev, newitem`name
    ensures k == old(PositionOf(ts, name)) && mem.failures >= old(mem.failures)
    ensures k == |ts| ==> mem.live == old(mem.live) && mem.failures == old(mem.failures)
    ensures k == |ts| ==> Children(list, ts, false) && Linked(t, false) && newitem.name == old(newitem.name)
    ensures k == |ts| ==> newitem.next == old(newitem.next) && newitem.prev == old(newitem.prev)
    ensures k < |ts| ==> (newitem.name == null <==> mem.failures > old(mem.failures))
    ensures k < |ts| ==>
      mem.live == old(mem.live) - Blocks(t) - Blocks(ts[k]) + Blocks(Renamed(t, newitem.name)) + StringBlock(t.name)
    ensures k < |ts| ==>
      (mem.live == old(mem.live) - Blocks(t) - Blocks(ts[k]) + Blocks(Renamed(t, newitem.name)) <==> t.name == null)
    ensures k < |ts| ==> Children(list, ts[k := Renamed(t, newitem.name)], false)
    ensures k < |ts| ==> NamesTerminated(ts[k := Renamed(t, newitem.name)])
    ensures k < |ts| ==> StringBlock(newitem.name) !! old(mem.live)
    ensures k < |ts| && newitem.name != null ==> fresh(newitem.name)
    ensures k < |ts| ==>
      Entries(ts[k := Renamed(t, newitem.name)])
      == old(Entries(ts))[k := Entry(if newitem.name == null then None else Some(old(CString(name))), old(ItemOf(t)))]
  {
    hide Linked, Segment, SeparateList, Separate, Blocks, BlocksOf, NodesOf, NodesIn, StringsIn, StringsOf, PositionOf,
      NamesTerminated, CString, Terminated, Alone, Children, Renamed, StringBlock, Entries, EntryOf, Value, ItemOf;
    assert allocated(NodesOf(ts)) && allocated(StringsOf(ts)) && allocated(NodesIn(t)) && allocated(StringsIn(t));
    assert allocated(StringsIn(Renamed(t, null)));
    var c, i := FindName(list, name, ts, false);
    k := i;
    if c != null {
      ReplaceNamed(mem, list, i, name, newitem, t, ts);
    }
  }

  // ---- references ----

  /** A reference has the fields of the item, but for the name and the sibling links. */
  ghost predicate Refers(ref: Node, item: Node)
    reads ref, item`child, item`kind, item`valuestring, item`valueint, item`valuedouble
  {
    && ref.child == item.child && ref.kind == item.kind && ref.valuestring == item.valuestring
    && ref.valueint == item.valueint && ref.valuedouble == item.valuedouble
    && ref.name == null && ref.isReference && ref.next == ref.prev == null
  }

  /** What a reference owns: itself. */
  function OwnTree(ref: Node): Tree {
    Tree(ref, null, null, [])
  }

  /** What a reference shows: the item's string and children. */
  function ShownTree(ref: Node, t: Tree): Tree {
    Tree(ref, t.value, null, t.kids)
  }

  /** create_reference. */
  method CreateReference(mem: Memory, item: Node) returns (ref: Node?)
    modifies mem`live, mem`failures
    ensures mem.failures >= old(mem.failures) && (ref == null <==> mem.failures > old(mem.failures))
    ensures ref == null ==> mem.live == old(mem.live)
    ensures ref != null ==>
      fresh(ref) && ref !in old(mem.live) && mem.live == old(mem.live) + {ref} && Refers(ref, item)
  {
    ref := mem.NewItem();
    if ref != null {
      ref.child, ref.kind, ref.valuestring := item.child, item.kind, item.valuestring;
      ref.valueint, ref.valuedouble := item.valueint, item.valuedouble;
      ref.name := null;
      ref.isReference := true;
      ref.next, ref.prev := null, null;
    }
  }

  /** A reference shows the value of the item, and owns no block but itself: deleting it leaves the item's string and
      children alone. */
  lemma ReferenceTrees(ref: Node, t: Tree)
    requires Refers(ref, t.node) && Linked(t, true)
    ensures Linked(ShownTree(ref, t), true) && Value(ShownTree(ref, t)) == Value(t)
    ensures Complete(t) ==> Complete(ShownTree(ref, t))
    ensures Alone(OwnTree(ref), false) && Blocks(OwnTree(ref)) == {ref}
  {}

  /** The children as they look when references are followed. */
  ghost predicate Shows(list: Node, sts: seq<Tree>)
    reads list`child
    reads NodesOf(sts)`name, NodesOf(sts)`isReference, NodesOf(sts)`valuestring, NodesOf(sts)`child
    reads NodesOf(sts)`prev, NodesOf(sts)`next
  {
    list.child == FirstOr(sts, null) && Segment(sts, null, null, true)
  }

  /** The nodes below those of a list. */
  ghost function Below(ts: seq<Tree>): set<Node> {
    if ts == [] then {} else NodesOf(ts[0].kids) + Below(ts[1..])
  }

  /** The node that adding an item writes to: the last child, or the parent. */
  function Touched(list: Node, ts: seq<Tree>): set<Node> {
    if ts == [] then {list} else LastNode(ts)
  }

  lemma {:induction false} BelowAppend(a: seq<Tree>, b: seq<Tree>)
    ensures Below(a + b) == Below(a) + Below(b)
  {
    if a == [] {
      assert a + b == b;
    } else {
      assert (a + b)[1..] == a[1..] + b;
      BelowAppend(a[1..], b);
    }
  }

  lemma {:induction false} SameChildren(ts: seq<Tree>, sts: seq<Tree>, prev: Node?)
    requires Segment(ts, prev, null, false) && Segment(sts, prev, null, true) && FirstOr(ts, null) == FirstOr(sts, null)
    ensures |ts| == |sts| && forall i | 0 <= i < |ts| :: ts[i].node == sts[i].node
  {
    hide Linked;
    if ts != [] {
      SameChildren(ts[1..], sts[1..], ts[0].node);
    }
  }

  lemma {:induction false} OutsideShown(sts: seq<Tree>, n: Node)
    requires n !in Below(sts) && forall i | 0 <= i < |sts| :: sts[i].node != n
    ensures n !in NodesOf(sts)
  {
    if sts != [] {
      OutsideShown(sts[1..], n);
    }
  }

  /** The last child is neither another child nor below one. */
  lemma LastOutsideShown(ts: seq<Tree>, sts: seq<Tree>)
    requires ts != [] && SeparateList(ts) && |ts| == |sts| && forall i | 0 <= i < |ts| :: ts[i].node == sts[i].node
    requires LastNode(ts) !! Below(sts)
    ensures var k, last := |ts| - 1, ts[|ts| - 1].node; last !in NodesOf(sts[..k]) && last !in NodesOf(sts[k].kids)
  {
    hide Separate, Blocks, NodesOf;
    var k := |ts| - 1;
    assert ts == ts[..k] + [ts[k]] && sts == sts[..k] + [sts[k]];
    SeparateListAppend(ts[..k], [ts[k]]);
    OneTree(ts[k], null, false);
    BelowAppend(sts[..k], [sts[k]]);
    assert Below([sts[k]]) == NodesOf(sts[k].kids) + Below([]);
    forall i | 0 <= i < k ensures sts[..k][i].node != ts[k].node {
      BlocksWithin(ts[..k], i);
      assert ts[..k][i].node in Blocks(ts[..k][i]);
    }
    OutsideShown(sts[..k], ts[k].node);
  }

  /** All but the last. */
  function Init(ts: seq<Tree>): seq<Tree> {
    if ts == [] then [] else ts[..|ts| - 1]
  }

  /** The children of the last. */
  function LastKids(ts: seq<Tree>): seq<Tree> {
    if ts == [] then [] else ts[|ts| - 1].kids
  }

  /** Siblings, but for the link behind the last. */
  ghost predicate Open(sts: seq<Tree>)
    reads NodesOf(Init(sts)), NodesOf(LastKids(sts)), LastNode(sts)`name, LastNode(sts)`isReference
    reads LastNode(sts)`valuestring, LastNode(sts)`child, LastNode(sts)`prev
  {
    && sts != []
    && var k := |sts| - 1;
    && Segment(sts[..k], null, sts[k].node, true) && Linked(sts[k], true) && sts[k].node.prev == LastOr(sts[..k], null)
  }

  lemma ShownGrows(list: Node, sts: seq<Tree>, t: Tree)
    requires Open(sts) && list.child == sts[0].node && Linked(t, true) && t.node.next == null
    requires sts[|sts| - 1].node.next == t.node && t.node.prev == sts[|sts| - 1].node
    ensures Shows(list, sts + [t])
  {
    hide Linked;
    var k := |sts| - 1;
    assert sts == sts[..k] + [sts[k]];
    RunWithLast(sts[..k], sts[k], null, t.node, true);
    RunWithLast(sts, t, null, null, true);
  }

  lemma ShownLast(sts: seq<Tree>)
    requires sts != [] && Segment(sts, null, null, true)
    ensures var k := |sts| - 1;
      Segment(sts[..k], null, sts[k].node, true) && Linked(sts[k], true) && sts[k].node.prev == LastOr(sts[..k], null)
  {
    hide Linked;
    var k := |sts| - 1;
    assert sts == sts[..k] + [sts[k]];
    SegmentAppend(sts[..k], [sts[k]], null, null, true);
  }

  lemma LinkedBehind(list: Node, ts: seq<Tree>, t: Tree)
    requires Children(list, ts + [t], false)
    ensures list.child == FirstOr(ts, t.node) && t.node.prev == LastOr(ts, null) && t.node.next == null
    ensures ts != [] ==> ts[|ts| - 1].node.next == t.node && ts[|ts| - 1].node.prev == LastOr(ts[..|ts| - 1], null)
  {
    hide Linked, Separate;
    var all, k := ts + [t], |ts|;
    SegmentAt(all, k, null, null, false);
    if ts != [] {
      SegmentAt(all, k - 1, null, null, false);
      assert all[k..] == [t];
    }
  }

  /** The list shows these trees, and the place where a reference to an item of tree t would be linked is not below one
      of them, nor below the item. */
  ghost predicate ShowsApart(list: Node, t: Tree, ts: seq<Tree>, sts: seq<Tree>)
    reads list`child
    reads NodesOf(sts)`name, NodesOf(sts)`isReference, NodesOf(sts)`valuestring, NodesOf(sts)`child
    reads NodesOf(sts)`prev, NodesOf(sts)`next
  {
    Shows(list, sts) && Touched(list, ts) !! Below(sts) + NodesOf(t.kids)
  }

  method LinkFirstReference(list: Node, ref: Node, ghost t: Tree, ghost sts: seq<Tree>)
    requires Children(list, [], false) && Alone(OwnTree(ref), false) && ref != list
    requires Linked(ShownTree(ref, t), true) && ref !in NodesOf(t.kids)
    modifies list`child, ref`prev
    ensures Children(list, [OwnTree(ref)], false)
    ensures old(ShowsApart(list, t, [], sts)) ==> Shows(list, sts + [ShownTree(ref, t)])
  {
    assert sts == [] ==> sts + [ShownTree(ref, t)] == [ShownTree(ref, t)];
    assert Blocks(OwnTree(ref)) == {ref} && NodesIn(ShownTree(ref, t)) == {ref} + NodesOf(t.kids);
    hide Linked, Segment, SeparateList, Separate, Blocks, BlocksOf, NodesOf, NodesIn;
    assert allocated(NodesIn(ShownTree(ref, t))) && allocated(NodesOf(t.kids));
    assert [] + [OwnTree(ref)] == [OwnTree(ref)];
    LinkItem(list, ref, OwnTree(ref), [], false);
    LinkedBehind(list, [], OwnTree(ref));
    OneTree(ShownTree(ref, t), null, true);
  }

  /** What is known before the link behind the last child: the links of the others, and that it does not touch them. */
  lemma BeforeLink(list: Node, ref: Node, t: Tree, ts: seq<Tree>, sts: seq<Tree>)
    requires ts != [] && Children(list, ts, false) && ShowsApart(list, t, ts, sts)
    requires ref !in BlocksOf(ts) && ref !in NodesOf(sts)
    ensures Open(sts) && LastNode(sts) == LastNode(ts) && ref !in LastNode(ts)
    ensures list.child == sts[0].node == ts[0].node
    ensures sts[|sts| - 1].node == ts[|ts| - 1].node
    ensures LastNode(ts) + {ref} !! NodesOf(Init(sts)) + NodesOf(LastKids(sts)) && LastNode(ts) !! NodesOf(t.kids)
  {
    hide Linked, Segment, SeparateList, Separate, Blocks, BlocksOf, Below, NodesIn, NodesOf;
    SameChildren(ts, sts, null);
    LastOutsideShown(ts, sts);
    ShownLast(sts);
    LastBlock(ts);
    ShownParts(sts);
  }

  lemma ShownParts(sts: seq<Tree>)
    requires sts != []
    ensures NodesOf(sts) == NodesOf(Init(sts)) + NodesIn(sts[|sts| - 1])
    ensures NodesOf(LastKids(sts)) <= NodesIn(sts[|sts| - 1])
  {
    assert sts == Init(sts) + [sts[|sts| - 1]];
    NodesOfAppend(Init(sts), [sts[|sts| - 1]]);
    OneTree(sts[|sts| - 1], null, true);
  }

  lemma ShownNodes(ref: Node, t: Tree)
    ensures NodesIn(ShownTree(ref, t)) == {ref} + NodesOf(t.kids)
  {}

  /** The links around a new last child. */
  method LinkBehind(list: Node, ref: Node, ghost ts: seq<Tree>)
    requires Children(list, ts, false) && Alone(OwnTree(ref), false) && ref !in BlocksOf(ts) && ref != list && ts != []
    modifies list`child, LastNode(ts)`next, ref`prev
    ensures Children(list, ts + [OwnTree(ref)], false) && list.child == ts[0].node
    ensures ts[|ts| - 1].node.next == ref && ref.prev == ts[|ts| - 1].node && ref.next == null
  {
    LeafBlocks(OwnTree(ref));
    hide Linked, Segment, SeparateList, Separate, Blocks, BlocksOf, NodesOf, NodesIn, Children;
    LinkItem(list, ref, OwnTree(ref), ts, false);
    LinkedBehind(list, ts, OwnTree(ref));
  }

  method LinkNextReference(list: Node, ref: Node, ghost t: Tree, ghost ts: seq<Tree>, ghost sts: seq<Tree>)
    requires Children(list, ts, false) && Alone(OwnTree(ref), false) && ref !in BlocksOf(ts) && ref != list
    requires Linked(ShownTree(ref, t), true) && ref !in NodesOf(sts) && ref !in NodesOf(t.kids) && ts != []
    modifies list`child, LastNode(ts)`next, ref`prev
    ensures Children(list, ts + [OwnTree(ref)], false)
    ensures old(ShowsApart(list, t, ts, sts)) ==> Shows(list, sts + [ShownTree(ref, t)])
  {
    hide Linked, Segment, SeparateList, Separate, Blocks, BlocksOf, NodesOf, NodesIn, Below, Children, Open, Init,
      LastKids, Alone, Shows, ShowsApart;
    ghost var apart := ShowsApart(list, t, ts, sts);
    if apart {
      BeforeLink(list, ref, t, ts, sts);
    }
    ShownNodes(ref, t);
    assert allocated(NodesIn(ShownTree(ref, t))) && allocated(NodesOf(t.kids)) && allocated(NodesOf(Init(sts)));
    assert allocated(NodesOf(LastKids(sts))) && allocated(LastNode(sts));
    LinkBehind(list, ref, ts);
    if apart {
      ShownGrows(list, sts, ShownTree(ref, t));
    }
  }

  /** A reference becomes the last child; what the list shows gains what the reference shows. */
  method LinkReference(list: Node, ref: Node, ghost t: Tree, ghost ts: seq<Tree>, ghost sts: seq<Tree>)
    requires Children(list, ts, false) && Alone(OwnTree(ref), false) && ref !in BlocksOf(ts) && ref != list
    requires Linked(ShownTree(ref, t), true) && ref !in NodesOf(sts) && ref !in NodesOf(t.kids)
    modifies list`child, LastNode(ts)`next, ref`prev
    ensures Children(list, ts + [OwnTree(ref)], false)
    ensures old(ShowsApart(list, t, ts, sts)) ==> Shows(list, sts + [ShownTree(ref, t)])
  {
    hide Linked, Segment, SeparateList, Separate, Blocks, BlocksOf, NodesOf, NodesIn, Below, Alone, ShowsApart;
    if list.child == null {
      assert ts == [] && ts + [OwnTree(ref)] == [OwnTree(ref)];
      LinkFirstReference(list, ref, t, sts);
    } else {
      LinkNextReference(list, ref, t, ts, sts);
    }
  }

  lemma ItemsAdded(sts: seq<Tree>, t: Tree)
    ensures Items(sts + [t]) == Items(sts) + [Value(t)]
  {
    hide Value;
    ItemsAppend(sts, [t]);
  }

  /** cJSON_AddItemReferenceToArray: whatever the item is, the list gains one node, with the item's fields. When
      references are followed and the list showed these trees, it shows the item's value behind them, unless the item
      hangs above the place of the link. */
  method AddItemReferenceToArray(mem: Memory, list: Node, item: Node, ghost t: Tree, ghost ts: seq<Tree>,
        ghost sts: seq<Tree>)
      returns (ghost ref: Node?)
    requires Children(list, ts, false) && item == t.node && Linked(t, true) && BlocksOf(ts) + {list} <= mem.live
    modifies mem`live, mem`failures, list`child, LastNode(ts)`next
    ensures mem.failures >= old(mem.failures) && (ref == null <==> mem.failures > old(mem.failures))
    ensures ref == null ==> mem.live == old(mem.live) && Children(list, ts, false) && list.child == old(list.child)
    ensures ref != null ==> mem.live == old(mem.live) + {ref} && Children(list, ts + [OwnTree(ref)], false)
    ensures ref != null ==> fresh(ref) && ref.isReference && ref.name == null
    ensures ref != null ==> FieldsOf(ref) == old(FieldsOf(item)).(isReference := true)
    ensures ref != null && old(ShowsApart(list, t, ts, sts)) ==> Shows(list, sts + [ShownTree(ref, t)])
    ensures ref != null ==> Items(sts + [ShownTree(ref, t)]) == old(Items(sts)) + [old(Value(t))]
  {
    hide Linked, Segment, SeparateList, Separate, Blocks, BlocksOf, NodesOf, NodesIn, StringsIn, StringsOf, Value,
      Complete, Alone, Items, Below, Children, ShowsApart;
    assert allocated(NodesOf(ts)) && allocated(NodesIn(t)) && allocated(NodesOf(sts)) && allocated(StringsOf(sts));
    assert allocated(NodesOf(t.kids)) && allocated(BlocksOf(ts)) && allocated(StringsIn(t));
    var new_item := CreateReference(mem, item);
    ref := new_item;
    if new_item != null {
      ghost var all := sts + [ShownTree(new_item, t)];
      ReferenceTrees(new_item, t);
      ItemsAdded(sts, ShownTree(new_item, t));
      assert allocated(NodesOf(all)) && allocated(StringsOf(all));
      LinkReference(list, new_item, t, ts, sts);
    } else {
      AddItemToArray(list, null, t, ts, false);
    }
  }

  // ---- arrays of numbers ----

  /** cJSON_CreateNumber. */
  method CreateNumber(mem: Memory, num: real) returns (item: Node?)
    modifies mem`live, mem`failures
    ensures mem.failures >= old(mem.failures) && (item == null <==> mem.failures > old(mem.failures))
    ensures item == null ==> mem.live == old(mem.live)
    ensures item != null ==> fresh(item) && item !in old(mem.live) && mem.live == old(mem.live) + {item}
    ensures item != null ==> var t := Tree(item, null, null, []);
      Alone(t, false) && Complete(t) && Value(t) == Number(Truncate(num), num) && Blocks(t) == {item}
  {
    item := mem.NewItem();
    if item != null {
      item.kind := NUMBER;
      item.valuedouble := num;
      item.valueint := Truncate(num);
    }
  }

  function Numbers(ns: seq<int>): (r: seq<Json>)
    ensures |r| == |ns|
  {
    if ns == [] then [] else Numbers(ns[..|ns| - 1]) + [Number(ns[|ns| - 1], ns[|ns| - 1] as real)]
  }

  lemma NumbersStep(ns: seq<int>, i: nat)
    requires i < |ns|
    ensures Numbers(ns[..i + 1]) == Numbers(ns[..i]) + [Number(ns[i], ns[i] as real)]
    ensures Truncate(ns[i] as real) == ns[i]
  {
    assert ns[..i + 1][..i] == ns[..i];
  }

  /** The numbers so far are the children, and they are what is live beyond the blocks before. */
  ghost predicate NumberRow(mem: Memory, before: set<object>, a: Node, p: Node?, ts: seq<Tree>)
    reads mem`live, a`child
    reads NodesOf(ts)`name, NodesOf(ts)`isReference, NodesOf(ts)`valuestring, NodesOf(ts)`child
    reads NodesOf(ts)`prev, NodesOf(ts)`next
    reads NodesOf(ts)`kind, StringsOf(ts)
  {
    && Children(a, ts, false) && p == LastOr(ts, null) && CompleteList(ts, false)
    && a in before && before !! BlocksOf(ts) && mem.live == before + BlocksOf(ts)
  }

  lemma LeafBlocks(t: Tree)
    requires t.value == null && t.name == null && t.kids == []
    ensures Blocks(t) == {t.node} && NodesIn(t) == {t.node} && StringsIn(t) == {} && NodesOf(t.kids) == {}
  {}

  /** The first number becomes the first child. */
  method FirstNumber(mem: Memory, a: Node, n: Node, ghost t: Tree, ghost before: set<object>)
    requires a in before && n !in before && mem.live == before + {n}
    requires t == Tree(n, null, null, []) && Alone(t, false) && Complete(t)
    modifies a`child
    ensures NumberRow(mem, before, a, n, [t]) && BlocksOf([t]) == {n} && Items([t]) == [old(Value(t))]
  {
    LeafBlocks(t);
    OneTree(t, null, false);
    hide Linked, Separate, Blocks, BlocksOf, NodesOf, NodesIn, StringsIn, StringsOf, Complete, CompleteList, Value,
      Items, Segment, SeparateList;
    a.child := n;
    NoTrees();
    OneTree(t, null, false);
    RunGrows([], t, null, false);
    assert [] + [t] == [t];
  }

  /** Every other number: suffix_object(p, n) */
  method NextNumber(mem: Memory, a: Node, p: Node, n: Node, ghost t: Tree, ghost ts: seq<Tree>,
        ghost before: set<object>)
    requires Children(a, ts, false) && p == LastOr(ts, null) && CompleteList(ts, false)
    requires a in before && before !! BlocksOf(ts) && mem.live == before + BlocksOf(ts) + {n}
    requires n !in before + BlocksOf(ts)
    requires ts != [] && t == Tree(n, null, null, []) && Alone(t, false) && Complete(t)
    modifies NodesOf(ts)`next, n`prev
    ensures NumberRow(mem, before, a, n, ts + [t]) && BlocksOf(ts + [t]) == BlocksOf(ts) + {n}
    ensures Items(ts + [t]) == old(Items(ts)) + [old(Value(t))]
  {
    hide Linked, Separate, Blocks, BlocksOf, NodesOf, NodesIn, StringsIn, StringsOf, Complete, CompleteList, Value,
      Items, Segment, SeparateList;
    LeafBlocks(t);
    LastBlock(ts);
    SuffixObject(p, n, ts, null, false);
    AppendedTree(a, ts, t, false);
    RunGrows(ts, t, null, false);
  }

  /** One pass of the loop with a new node: it becomes the last child. */
  method AddNumber(mem: Memory, a: Node, p: Node?, n: Node, ghost t: Tree, ghost ts: seq<Tree>,
        ghost before: set<object>)
    requires Children(a, ts, false) && p == LastOr(ts, null) && CompleteList(ts, false)
    requires a in before && before !! BlocksOf(ts) && mem.live == before + BlocksOf(ts) + {n}
    requires n !in before + BlocksOf(ts)
    requires t == Tree(n, null, null, []) && Alone(t, false) && Complete(t)
    modifies a`child, NodesOf(ts)`next, n`prev
    ensures NumberRow(mem, before, a, n, ts + [t]) && BlocksOf(ts + [t]) == BlocksOf(ts) + {n}
    ensures Items(ts + [t]) == old(Items(ts)) + [old(Value(t))]
  {
    hide Linked, Separate, Blocks, BlocksOf, NodesOf, NodesIn, StringsIn, StringsOf, Complete, CompleteList, Value,
      Items, Segment, SeparateList, NumberRow, Alone;
    if p == null {
      assert ts == [] && ts + [t] == [t];
      NoTrees();
      assert forall x: Json :: [] + [x] == [x];
      FirstNumber(mem, a, n, t, before);
    } else {
      NextNumber(mem, a, p, n, t, ts, before);
    }
  }

  /** An array before its first number. */
  lemma NoNumbers(mem: Memory, before: set<object>, a: Node)
    requires a in before && mem.live == before && a.child == null
    ensures NumberRow(mem, before, a, null, []) && Items([]) == Numbers([]) && NodesOf([]) == {}
  {
    NoTrees();
  }

  lemma RowApart(mem: Memory, before: set<object>, a: Node, p: Node?, ts: seq<Tree>)
    requires NumberRow(mem, before, a, p, ts)
    ensures a !in NodesOf(ts) && p == LastOr(ts, null)
  {}

  /** cJSON_CreateIntArray. With memory enough, the children are the numbers in their order, as repeated
      cJSON_AddItemToArray would leave them. The code does not look at what cJSON_CreateNumber returns: if that is
      null, the next link goes through a null pointer, unless the array has no other number. */
  method CreateIntArray(mem: Memory, numbers: array<int>, count: nat)
      returns (a: Node?, crashed: bool, ghost ts: seq<Tree>)
    requires count <= numbers.Length
    modifies mem`live, mem`failures
    ensures mem.failures >= old(mem.failures)
    ensures crashed <==> a != null && mem.failures > old(mem.failures) && count > 1
    ensures a == null ==> mem.live == old(mem.live) && mem.failures > old(mem.failures)
    ensures a != null && !crashed ==> fresh(a) && NumberRow(mem, old(mem.live) + {a}, a, LastOr(ts, null), ts)
    ensures a != null && !crashed ==> a.kind == ARRAY && a.next == a.prev == null && !a.isReference
    ensures mem.failures == old(mem.failures) ==> Items(ts) == Numbers(numbers[..count])
  {
    hide *;
    a, crashed, ts := null, false, [];
    a := mem.NewItem();
    if a == null {
      return;
    }
    a.kind := ARRAY;
    var p: Node? := null;
    ghost var before := mem.live;
    ghost var ns := numbers[..count];
    assert ns[..0] == [] && ns[..count] == ns;
    NoNumbers(mem, before, a);
    for i := 0 to count
      invariant NumberRow(mem, before, a, p, ts)
      invariant mem.failures >= old(mem.failures)
      invariant mem.failures == old(mem.failures) ==> |ts| == i && Items(ts) == Numbers(ns[..i])
      invariant mem.failures > old(mem.failures) ==> i == 1 && ts == []
      invariant a.kind == ARRAY && a.next == a.prev == null && !a.isReference
      invariant forall n | n in NodesOf(ts) :: fresh(n)
    {
      NumbersStep(ns, i);
      RowApart(mem, before, a, p, ts);
      p, crashed, ts := CreateNext(mem, a, p, numbers[i], i, ts, before);
      if crashed {
        return;
      }
    }
    RowApart(mem, before, a, p, ts);
  }

  /** One pass of the loop of cJSON_CreateIntArray. */
  method CreateNext(mem: Memory, a: Node, p: Node?, number: int, i: nat, ghost ts: seq<Tree>, ghost before: set<object>)
      returns (n: Node?, crashed: bool, ghost ts': seq<Tree>)
    requires NumberRow(mem, before, a, p, ts) && (ts == [] ==> i <= 1) && (i == 0 ==> ts == [])
    modifies mem`live, mem`failures, a`child, NodesOf(ts)`next
    ensures mem.failures >= old(mem.failures)
    ensures crashed <==> i > 0 && (ts == [] || mem.failures > old(mem.failures))
    ensures !crashed ==> NumberRow(mem, before, a, n, ts')
    ensures !crashed && mem.failures > old(mem.failures) ==> ts' == ts
    ensures !crashed && mem.failures == old(mem.failures) ==>
      |ts'| == |ts| + 1 && Items(ts') == old(Items(ts)) + [Number(Truncate(number as real), number as real)]
    ensures !crashed ==> forall k | k in NodesOf(ts') :: fresh(k) || k in NodesOf(ts)
  {
    hide Linked, Separate, Blocks, BlocksOf, StringsOf, Complete, CompleteList, Value, Items, Segment, SeparateList,
      Alone;
    assert allocated(NodesOf(ts)) && allocated(StringsOf(ts));
    crashed, ts' := false, ts;
    n := CreateNumber(mem, number as real);
    if i > 0 && (p == null || n == null) {
      crashed := true;
    } else if n == null {
      a.child := null;
    } else {
      ghost var t := Tree(n, null, null, []);
      LeafBlocks(t);
      NodesOfAppend(ts, [t]);
      AddNumber(mem, a, p, n, t, ts, before);
      ts' := ts + [t];
    }
  }

  // ---- a node and the list of its children ----

  lemma ChildrenOf(t: Tree, follow: bool)
    requires Linked(t, follow) && Separate(t) && (follow || !t.node.isReference)
    ensures Children(t.node, t.kids, follow)
  {}

  /** The tree of a node after its list has changed. */
  lemma ParentOf(t: Tree, ts: seq<Tree>, follow: bool)
    requires Children(t.node, ts, follow) && t.node.name == t.name && t.node.valuestring == t.value
    requires !t.node.isReference && StringBlock(t.value) !! BlocksOf(ts) + StringBlock(t.name)
    requires StringBlock(t.name) !! BlocksOf(ts)
    ensures Linked(t.(kids := ts), follow) && Separate(t.(kids := ts))
    ensures t.node.kind == ARRAY ==> Value(t.(kids := ts)) == Array(Items(ts))
    ensures t.node.kind == OBJECT ==> Value(t.(kids := ts)) == Object(Members(ts))
  {}
}
