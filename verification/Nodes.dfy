/** The nodes of cJSON and the allocator. */
module Nodes {
  // What it means for nodes to form a tree, and what deleting one frees.

  import opened CText
  import opened Json

  // The types of src/jdsmart/cJSON.h. The flag cJSON_IsReference, bit 8 of the C field, is a field of its own.
  const FALSE := 0
  const TRUE := 1
  const NULL := 2
  const NUMBER := 3
  const STRING := 4
  const ARRAY := 5
  const OBJECT := 6

  /** struct cJSON. */
  class Node {
    var next: Node?
    var prev: Node?
    var child: Node?
    var kind: int
    var isReference: bool
    var valuestring: array?<char>
    var valueint: int
    var valuedouble: real
    var name: array?<char>

    /** malloc and memset of cJSON_New_Item. */
    constructor ()
      ensures next == prev == child == null && valuestring == name == null
      ensures kind == 0 && !isReference && valueint == 0 && valuedouble == 0.0
    {
      next, prev, child := null, null, null;
      kind, isReference := 0, false;
      valuestring, name := null, null;
      valueint, valuedouble := 0, 0.0;
    }
  }

  /** malloc and free. A block is live from its allocation until it is freed; only a live block can be freed, and what
      a freed block holds is anything. Every allocation may fail. */
  class Memory {
    ghost var live: set<object>
    ghost var failures: nat

    method NewItem() returns (n: Node?)
      modifies this`live, this`failures
      ensures n == null ==> failures > old(failures) && live == old(live)
      ensures n != null ==> fresh(n) && n !in old(live) && live == old(live) + {n} && failures == old(failures)
      ensures n != null ==> n.next == n.prev == n.child == null && n.valuestring == n.name == null
      ensures n != null ==> n.kind == 0 && !n.isReference && n.valueint == 0 && n.valuedouble == 0.0
    {
      if * {
        n := null;
        failures := failures + 1;
      } else {
        n := new Node();
        live := live + {n};
      }
    }

    method AllocChars(size: nat) returns (a: array?<char>)
      modifies this`live, this`failures
      ensures a == null ==> failures > old(failures) && live == old(live)
      ensures a != null ==> fresh(a) && a.Length == size && live == old(live) + {a} && failures == old(failures)
    {
      if * {
        a := null;
        failures := failures + 1;
      } else {
        a := new char[size];
        live := live + {a};
      }
    }

    /** An array of strings, all null: malloc and memset. */
    method AllocStrings(size: nat) returns (a: array?<array?<char>>)
      modifies this`live, this`failures
      ensures a == null ==> failures > old(failures) && live == old(live)
      ensures a != null ==> fresh(a) && a.Length == size && live == old(live) + {a} && failures == old(failures)
      ensures a != null ==> forall i | 0 <= i < size :: a[i] == null
    {
      if * {
        a := null;
        failures := failures + 1;
      } else {
        a := new array?<char>[size](_ => null);
        live := live + {a};
      }
    }

    method FreeItem(n: Node)
      requires n in live
      modifies this`live, n
      ensures live == old(live) - {n} && failures == old(failures)
    {
      modify n;
      live := live - {n};
    }

    method FreeStrings(a: array<array?<char>>)
      requires a in live
      modifies this`live, a
      ensures live == old(live) - {a} && failures == old(failures)
    {
      modify a;
      live := live - {a};
    }

    method FreeChars(a: array<char>)
      requires a in live
      modifies this`live, a
      ensures live == old(live) - {a} && failures == old(failures)
    {
      modify a;
      live := live - {a};
    }
  }

  /** cJSON_strdup. */
  method StrDup(mem: Memory, str: array<char>) returns (copy: array?<char>)
    requires Terminated(str)
    modifies mem`live, mem`failures
    ensures mem.failures >= old(mem.failures) && (copy == null <==> mem.failures > old(mem.failures))
    ensures copy == null ==> mem.live == old(mem.live)
    ensures copy != null ==> fresh(copy) && copy !in old(mem.live) && mem.live == old(mem.live) + {copy}
    ensures copy != null ==> Terminated(copy) && CString(copy) == old(CString(str))
  {
    var len := StrLen(str);
    copy := mem.AllocChars(len + 1);
    if copy != null {
      StrCpy(copy, 0, str);
      NoNul(str);
      assert copy[..len] == CString(str);
      TerminatedAt(copy, len);
    }
  }

  // ---- trees of nodes ----

  /** The nodes of a tree and their strings, by identity. */
  datatype Tree = Tree(node: Node, value: array?<char>, name: array?<char>, kids: seq<Tree>)

  /** The blocks of a tree: its node, the two strings, and those of its children. */
  ghost function Blocks(t: Tree): (r: set<object>)
    ensures t.node in r
  {
    {t.node} + StringBlock(t.value) + StringBlock(t.name) + BlocksOf(t.kids)
  }

  ghost function StringBlock(a: array?<char>): set<array<char>> {
    if a == null then {} else {a}
  }

  ghost function BlocksOf(ts: seq<Tree>): (r: set<object>)
    ensures ts != [] ==> ts[0].node in r
  {
    if ts == [] then {} else Blocks(ts[0]) + BlocksOf(ts[1..])
  }

  /** The nodes among the blocks. */
  ghost function NodesIn(t: Tree): (r: set<Node>)
    ensures t.node in r && r <= Blocks(t) && NodesOf(t.kids) <= r
  {
    {t.node} + NodesOf(t.kids)
  }

  ghost function NodesOf(ts: seq<Tree>): (r: set<Node>)
    ensures r <= BlocksOf(ts)
    ensures ts != [] ==> ts[0].node in r
  {
    if ts == [] then {} else NodesIn(ts[0]) + NodesOf(ts[1..])
  }

  /** The strings among the blocks. */
  ghost function StringsIn(t: Tree): (r: set<array<char>>)
    ensures StringBlock(t.value) <= r && StringBlock(t.name) <= r && r <= Blocks(t)
  {
    StringBlock(t.value) + StringBlock(t.name) + StringsOf(t.kids)
  }

  ghost function StringsOf(ts: seq<Tree>): (r: set<array<char>>)
    ensures r <= BlocksOf(ts) && (ts != [] ==> StringBlock(ts[0].name) <= r)
  {
    if ts == [] then {} else StringsIn(ts[0]) + StringsOf(ts[1..])
  }

  /** No block occurs twice. */
  ghost predicate Separate(t: Tree) {
    && SeparateList(t.kids)
    && t.node !in BlocksOf(t.kids)
    && StringBlock(t.value) !! BlocksOf(t.kids) + StringBlock(t.name)
    && StringBlock(t.name) !! BlocksOf(t.kids)
  }

  ghost predicate SeparateList(ts: seq<Tree>) {
    ts != [] ==> Separate(ts[0]) && SeparateList(ts[1..]) && Blocks(ts[0]) !! BlocksOf(ts[1..])
  }

  /** The first node of a run, or the one behind it. */
  function FirstOr(ts: seq<Tree>, next: Node?): Node? {
    if ts == [] then next else ts[0].node
  }

  /** The last node of a run, or the one before it. */
  function LastOr(ts: seq<Tree>, prev: Node?): Node? {
    if ts == [] then prev else ts[|ts| - 1].node
  }

  /** The fields of the node are those of the tree. A reference node does not own its value string and its children:
      follow tells whether the tree shows them all the same. */
  ghost predicate Linked(t: Tree, follow: bool)
    reads NodesIn(t)`name, NodesIn(t)`isReference, NodesIn(t)`valuestring, NodesIn(t)`child
    reads NodesOf(t.kids)`prev, NodesOf(t.kids)`next
    decreases t, 0
  {
    && t.node.name == t.name
    && if t.node.isReference && !follow then t.value == null && t.kids == []
       else
         && t.node.valuestring == t.value
         && t.node.child == FirstOr(t.kids, null)
         && Segment(t.kids, null, null, follow)
  }

  /** A run of siblings: each points to the next and back to the one before. */
  ghost predicate Segment(ts: seq<Tree>, prev: Node?, next: Node?, follow: bool)
    reads NodesOf(ts)`name, NodesOf(ts)`isReference, NodesOf(ts)`valuestring, NodesOf(ts)`child
    reads NodesOf(ts)`prev, NodesOf(ts)`next
    decreases ts, 1
  {
    ts != [] ==>
      && Linked(ts[0], follow)
      && ts[0].node.prev == prev
      && ts[0].node.next == FirstOr(ts[1..], next)
      && Segment(ts[1..], ts[0].node, next, follow)
  }

  // ---- the value of a tree ----

  ghost function Value(t: Tree): Json
    reads NodesIn(t)`kind, NodesIn(t)`valueint, NodesIn(t)`valuedouble, StringsIn(t)
    decreases t, 0
  {
    if t.node.kind == FALSE then False
    else if t.node.kind == TRUE then True
    else if t.node.kind == NUMBER then Number(t.node.valueint, t.node.valuedouble)
    else if t.node.kind == STRING then String(CString(t.value))
    else if t.node.kind == ARRAY then Array(Items(t.kids))
    else if t.node.kind == OBJECT then Object(Members(t.kids))
    else Null
  }

  ghost function Items(ts: seq<Tree>): (items: seq<Json>)
    reads NodesOf(ts)`kind, NodesOf(ts)`valueint, NodesOf(ts)`valuedouble, StringsOf(ts)
    ensures |items| == |ts|
    decreases ts, 1
  {
    if ts == [] then [] else [Value(ts[0])] + Items(ts[1..])
  }

  ghost function Members(ts: seq<Tree>): (members: seq<Member>)
    reads NodesOf(ts)`kind, NodesOf(ts)`valueint, NodesOf(ts)`valuedouble, StringsOf(ts)
    ensures |members| == |ts|
    decreases ts, 1
  {
    if ts == [] then [] else [Member(CString(ts[0].name), Value(ts[0]))] + Members(ts[1..])
  }

  /** A tree that shows a value: known types, a string where there should be one, a name for each member. */
  ghost predicate Complete(t: Tree)
    reads NodesIn(t)`kind, StringsIn(t)
    decreases t, 0
  {
    && FALSE <= t.node.kind <= OBJECT
    && (t.node.kind == STRING ==> Terminated(t.value))
    && (t.node.kind == ARRAY || t.node.kind == OBJECT ==> CompleteList(t.kids, t.node.kind == OBJECT))
  }

  ghost predicate CompleteList(ts: seq<Tree>, named: bool)
    reads NodesOf(ts)`kind, StringsOf(ts)
    decreases ts, 1
  {
    ts != [] ==> Complete(ts[0]) && (named ==> Terminated(ts[0].name)) && CompleteList(ts[1..], named)
  }

  /** The type field that goes with a value, by the numbers of cJSON.h. */
  function KindOf(v: Json): int {
    match v
    case False => 0
    case True => 1
    case Null => 2
    case Number(_, _) => 3
    case String(_) => 4
    case Array(_) => 5
    case Object(_) => 6
  }

  lemma KindShown(t: Tree)
    requires Complete(t)
    ensures t.node.kind == KindOf(Value(t))
  {}

  ghost predicate NameTerminated(t: Tree)
    reads StringBlock(t.name)
  {
    t.name != null ==> Terminated(t.name)
  }

  /** Every string of the tree is terminated. */
  ghost predicate StringsTerminated(t: Tree)
    reads StringsIn(t)
    decreases t, 0
  {
    && (t.value != null ==> Terminated(t.value))
    && (t.name != null ==> Terminated(t.name))
    && ListTerminated(t.kids)
  }

  ghost predicate ListTerminated(ts: seq<Tree>)
    reads StringsOf(ts)
    decreases ts, 1
  {
    ts != [] ==> StringsTerminated(ts[0]) && ListTerminated(ts[1..])
  }

  /** No node is a reference, and every string below the name is terminated. */
  ghost predicate Proper(t: Tree)
    reads NodesIn(t)`isReference, StringsIn(t)
    decreases t, 0
  {
    !t.node.isReference && (t.value != null ==> Terminated(t.value)) && ProperList(t.kids)
  }

  ghost predicate ProperList(ts: seq<Tree>)
    reads NodesOf(ts)`isReference, StringsOf(ts)
    decreases ts, 1
  {
    ts != [] ==> Proper(ts[0]) && NameTerminated(ts[0]) && ProperList(ts[1..])
  }

  /** Without references, what a tree owns is what it shows. */
  lemma {:induction false} ProperFollows(t: Tree)
    requires Proper(t)
    ensures Linked(t, true) <==> Linked(t, false)
    decreases t, 0
  {
    ProperListFollows(t.kids, null, null);
  }

  lemma {:induction false} ProperListFollows(ts: seq<Tree>, prev: Node?, next: Node?)
    requires ProperList(ts)
    ensures Segment(ts, prev, next, true) <==> Segment(ts, prev, next, false)
    decreases ts, 1
  {
    hide Linked, Proper;
    if ts != [] {
      ProperFollows(ts[0]);
      ProperListFollows(ts[1..], ts[0].node, next);
    }
  }

  lemma {:induction false} ProperTerminated(t: Tree)
    requires Proper(t) && NameTerminated(t)
    ensures StringsTerminated(t)
    decreases t, 0
  {
    ProperListTerminated(t.kids);
  }

  lemma {:induction false} ProperListTerminated(ts: seq<Tree>)
    requires ProperList(ts)
    ensures ListTerminated(ts)
    decreases ts, 1
  {
    hide Proper, StringsTerminated, NameTerminated;
    if ts != [] {
      ProperTerminated(ts[0]);
      ProperListTerminated(ts[1..]);
    }
  }

  // ---- runs of siblings, put together and taken apart ----

  lemma {:induction false} BlocksOfAppend(a: seq<Tree>, b: seq<Tree>)
    ensures BlocksOf(a + b) == BlocksOf(a) + BlocksOf(b)
  {
    hide Blocks;
    if a == [] {
      assert a + b == b;
    } else {
      assert (a + b)[1..] == a[1..] + b;
      BlocksOfAppend(a[1..], b);
    }
  }

  lemma {:induction false} SeparateListAppend(a: seq<Tree>, b: seq<Tree>)
    ensures SeparateList(a + b) <==> SeparateList(a) && SeparateList(b) && BlocksOf(a) !! BlocksOf(b)
  {
    hide Blocks, Separate;
    if a == [] {
      assert a + b == b;
    } else {
      assert (a + b)[1..] == a[1..] + b;
      SeparateListAppend(a[1..], b);
      BlocksOfAppend(a[1..], b);
    }
  }

  lemma {:induction false} SegmentAppend(a: seq<Tree>, b: seq<Tree>, prev: Node?, next: Node?, follow: bool)
    ensures Segment(a + b, prev, next, follow)
       <==> Segment(a, prev, FirstOr(b, next), follow) && Segment(b, LastOr(a, prev), next, follow)
  {
    hide Linked;
    if a == [] {
      assert a + b == b;
    } else {
      assert (a + b)[1..] == a[1..] + b;
      SegmentAppend(a[1..], b, a[0].node, next, follow);
      assert a[1..] != [] ==> a[1..][|a[1..]| - 1] == a[|a| - 1];
    }
  }

  lemma {:induction false} ItemsAppend(a: seq<Tree>, b: seq<Tree>)
    ensures Items(a + b) == Items(a) + Items(b) && Members(a + b) == Members(a) + Members(b)
  {
    hide Value;
    if a == [] {
      assert a + b == b;
    } else {
      assert (a + b)[1..] == a[1..] + b;
      ItemsAppend(a[1..], b);
    }
  }

  lemma {:induction false} CompleteListAppend(a: seq<Tree>, b: seq<Tree>, named: bool)
    ensures CompleteList(a + b, named) <==> CompleteList(a, named) && CompleteList(b, named)
  {
    hide Complete;
    if a == [] {
      assert a + b == b;
    } else {
      assert (a + b)[1..] == a[1..] + b;
      CompleteListAppend(a[1..], b, named);
    }
  }

  lemma NoTrees()
    ensures BlocksOf([]) == {} && NodesOf([]) == {} && SeparateList([])
    ensures Items([]) == [] && Members([]) == [] && CompleteList([], false) && CompleteList([], true)
    ensures ProperList([])
    ensures forall next: Node? :: Segment([], null, next, false)
  {}

  lemma {:induction false} ProperListAppend(a: seq<Tree>, b: seq<Tree>)
    ensures ProperList(a + b) <==> ProperList(a) && ProperList(b)
  {
    hide Proper, NameTerminated;
    if a == [] {
      assert a + b == b;
    } else {
      assert (a + b)[1..] == a[1..] + b;
      ProperListAppend(a[1..], b);
    }
  }

  // ---- growing a list ----

  lemma NodeOutsideKids(t: Tree)
    requires Separate(t)
    ensures t.node !in NodesOf(t.kids)
  {}

  /** The last node of a run stands outside the rest of it, and outside its own children. */
  lemma LastApart(ts: seq<Tree>, before: Node?, next: Node?, follow: bool)
    requires ts != [] && Segment(ts, before, next, follow) && SeparateList(ts)
    ensures var init, last := ts[..|ts| - 1], ts[|ts| - 1];
      && Segment(init, before, last.node, follow) && Linked(last, follow) && last.node.prev == LastOr(init, before)
      && last.node !in NodesOf(init) && last.node !in NodesOf(last.kids)
      && BlocksOf(ts) == BlocksOf(init) + Blocks(last)
  {
    hide Linked, SeparateList, Separate, Blocks, BlocksOf, NodesOf, NodesIn, StringsOf, StringsIn;
    var init, last := ts[..|ts| - 1], ts[|ts| - 1];
    assert ts == init + [last];
    SegmentAppend(init, [last], before, next, follow);
    SeparateListAppend(init, [last]);
    BlocksOfAppend(init, [last]);
    OneTree(last, LastOr(init, before), follow);
    NodeOutsideKids(last);
  }

  /** And so does a node that is not in the run. */
  lemma LastOutside(ts: seq<Tree>, before: Node?, item: Node, follow: bool)
    requires ts != [] && Segment(ts, before, null, follow) && SeparateList(ts) && item !in BlocksOf(ts)
    ensures var init, last := ts[..|ts| - 1], ts[|ts| - 1];
      && Segment(init, before, last.node, follow) && Linked(last, follow) && last.node.prev == LastOr(init, before)
      && last.node !in NodesOf(init) && last.node !in NodesOf(last.kids)
      && item !in NodesOf(init) && item !in NodesIn(last)
  {
    hide Linked, Segment, SeparateList, Separate, Blocks, BlocksOf, NodesOf, NodesIn, StringsOf, StringsIn;
    LastApart(ts, before, null, follow);
  }

  lemma RunWithLast(init: seq<Tree>, last: Tree, before: Node?, next: Node?, follow: bool)
    requires Segment(init, before, last.node, follow) && Linked(last, follow)
    requires last.node.prev == LastOr(init, before) && last.node.next == next
    ensures Segment(init + [last], before, next, follow)
  {
    hide Linked;
    SegmentAppend(init, [last], before, next, follow);
  }

  /** suffix_object, at the end of a run of siblings. */
  method SuffixObject(prev: Node, item: Node, ghost ts: seq<Tree>, ghost before: Node?, ghost follow: bool)
    requires ts != [] && prev == ts[|ts| - 1].node && item !in BlocksOf(ts)
    requires Segment(ts, before, null, follow) && SeparateList(ts)
    modifies prev`next, item`prev
    ensures prev.next == item && item.prev == prev
    ensures Segment(ts, before, item, follow)
    ensures Items(ts) == old(Items(ts)) && Members(ts) == old(Members(ts))
    ensures CompleteList(ts, false) == old(CompleteList(ts, false))
    ensures CompleteList(ts, true) == old(CompleteList(ts, true))
  {
    hide Linked, Items, Members, CompleteList, Separate, SeparateList, Segment, Blocks, BlocksOf, NodesOf, StringsOf,
      StringsIn;
    LastOutside(ts, before, item, follow);
    prev.next := item;
    item.prev := prev;
    ghost var init, last := ts[..|ts| - 1], ts[|ts| - 1];
    assert ts == init + [last];
    RunWithLast(init, last, before, item, follow);
    assert forall a | a in StringsOf(ts) :: a as object != prev && a as object != item;
  }

  lemma {:induction false} SegmentAt(ts: seq<Tree>, i: nat, before: Node?, next: Node?, follow: bool)
    requires Segment(ts, before, next, follow) && i < |ts|
    ensures Linked(ts[i], follow) && ts[i].node.next == FirstOr(ts[i + 1..], next)
    ensures ts[i].node.prev == if i == 0 then before else ts[i - 1].node
  {
    hide Linked;
    if i > 0 {
      SegmentAt(ts[1..], i - 1, ts[0].node, next, follow);
      assert ts[1..][i..] == ts[i + 1..];
    }
  }

  /** Only nodes and arrays of characters are in trees. */
  lemma Foreign(ts: seq<Tree>, o: object)
    requires !(o is array<char>) && !(o is Node)
    ensures (forall a | a in StringsOf(ts) :: a as object != o) && forall n | n in NodesOf(ts) :: n as object != o
  {}

  lemma OneTree(t: Tree, before: Node?, follow: bool)
    ensures BlocksOf([t]) == Blocks(t) && NodesOf([t]) == NodesIn(t) && StringsOf([t]) == StringsIn(t)
    ensures SeparateList([t]) <==> Separate(t)
    ensures Segment([t], before, t.node.next, follow) <==> Linked(t, follow) && t.node.prev == before
  {}

  /** A new node with its tree joins a run. */
  lemma RunGrows(ts: seq<Tree>, t: Tree, before: Node?, follow: bool)
    requires Segment(ts, before, t.node, follow) && SeparateList(ts)
    requires Linked(t, follow) && Separate(t) && Blocks(t) !! BlocksOf(ts)
    requires t.node.prev == LastOr(ts, before)
    ensures Segment(ts + [t], before, t.node.next, follow) && SeparateList(ts + [t])
    ensures BlocksOf(ts + [t]) == BlocksOf(ts) + Blocks(t)
    ensures Items(ts + [t]) == Items(ts) + [Value(t)]
    ensures Members(ts + [t]) == Members(ts) + [Member(CString(t.name), Value(t))]
    ensures CompleteList(ts + [t], false) <==> CompleteList(ts, false) && Complete(t)
    ensures CompleteList(ts + [t], true) <==> CompleteList(ts, true) && Complete(t) && Terminated(t.name)
  {
    hide Blocks, Separate, Linked, Value, Complete;
    RunWithLast(ts, t, before, t.node.next, follow);
    SeparateListAppend(ts, [t]);
    BlocksOfAppend(ts, [t]);
    ItemsAppend(ts, [t]);
    CompleteListAppend(ts, [t], true);
    CompleteListAppend(ts, [t], false);
    assert BlocksOf([t]) == Blocks(t);
    assert Items([t]) == [Value(t)] && Members([t]) == [Member(CString(t.name), Value(t))];
  }

  // ---- deletion ----

  /** One pass of the loop of cJSON_Delete: a node with what it owns. */
  method DeleteOne(mem: Memory, c: Node, ghost t: Tree)
    requires c == t.node && Linked(t, false) && Separate(t) && Blocks(t) <= mem.live && mem !in Blocks(t)
    modifies mem`live, Blocks(t)
    ensures mem.live == old(mem.live) - Blocks(t) && mem.failures == old(mem.failures)
    decreases t, 0
  {
    if !c.isReference && c.child != null {
      Delete(mem, c.child, null, t.kids);
    }
    if !c.isReference && c.valuestring != null {
      mem.FreeChars(c.valuestring);
    }
    if c.name != null {
      mem.FreeChars(c.name);
    }
    mem.FreeItem(c);
  }

  /** cJSON_Delete: the node, its later siblings and what they own. Each block is freed once, and the children and the
      value string of a reference node are left alone. */
  method Delete(mem: Memory, c: Node?, ghost prev: Node?, ghost ts: seq<Tree>)
    requires c == FirstOr(ts, null) && Segment(ts, prev, null, false) && SeparateList(ts)
    requires BlocksOf(ts) <= mem.live && mem !in BlocksOf(ts)
    modifies mem`live, BlocksOf(ts)
    ensures mem.live == old(mem.live) - BlocksOf(ts) && mem.failures == old(mem.failures)
    decreases ts, 1
  {
    hide Blocks, Separate, Linked;
    var cur := c;
    ghost var i, rest, before := 0, ts, prev;
    while cur != null
      invariant cur == FirstOr(rest, null) && Segment(rest, before, null, false) && SeparateList(rest)
      invariant BlocksOf(rest) <= BlocksOf(ts) && mem.live == old(mem.live) - (BlocksOf(ts) - BlocksOf(rest))
      invariant i <= |ts| && rest == ts[i..] && mem.failures == old(mem.failures)
      decreases |rest|
    {
      var next := cur.next;
      assert rest[0] == ts[i] && BlocksOf(rest) == Blocks(ts[i]) + BlocksOf(rest[1..]);
      assert forall n | n in NodesOf(rest[1..]) :: n !in Blocks(ts[i]);
      DeleteOne(mem, cur, ts[i]);
      i, rest, before := i + 1, rest[1..], cur;
      cur := next;
    }
  }
}
