/** cJSON_Duplicate: a new tree with the same types, numbers and strings, or nothing when memory runs out on the way. */
module JsonDuplicate {
  import opened CText
  import opened Nodes
  import opened JsonLists

  /** A string that is a copy of another: null when that is null. */
  ghost predicate SameString(a: array?<char>, b: array?<char>)
    reads a, b
  {
    (a == null <==> b == null) && (a != null ==> Terminated(a) && Terminated(b) && CString(a) == CString(b))
  }

  /** c is a copy of t: the same fields, but no reference. */
  ghost predicate Copies(c: Tree, t: Tree)
    reads NodesIn(c)`kind, NodesIn(c)`valueint, NodesIn(c)`valuedouble, NodesIn(c)`isReference, StringsIn(c)
    reads NodesIn(t)`kind, NodesIn(t)`valueint, NodesIn(t)`valuedouble, StringsIn(t)
    decreases c, 0
  {
    && SameFields(c, t)
    && CopiesList(c.kids, t.kids)
  }

  ghost predicate SameFields(c: Tree, t: Tree)
    reads c.node`kind, c.node`valueint, c.node`valuedouble, c.node`isReference, StringBlock(c.value)
    reads StringBlock(c.name)
    reads t.node`kind, t.node`valueint, t.node`valuedouble, StringBlock(t.value), StringBlock(t.name)
  {
    && !c.node.isReference
    && c.node.kind == t.node.kind && c.node.valueint == t.node.valueint && c.node.valuedouble == t.node.valuedouble
    && SameString(c.value, t.value) && SameString(c.name, t.name)
  }

  ghost predicate CopiesList(cs: seq<Tree>, ts: seq<Tree>)
    reads NodesOf(cs)`kind, NodesOf(cs)`valueint, NodesOf(cs)`valuedouble, NodesOf(cs)`isReference, StringsOf(cs)
    reads NodesOf(ts)`kind, NodesOf(ts)`valueint, NodesOf(ts)`valuedouble, StringsOf(ts)
    decreases cs, 1
  {
    |cs| == |ts| && (cs != [] ==> Copies(cs[0], ts[0]) && CopiesList(cs[1..], ts[1..]))
  }

  /** Node by node a copy has the type, the numbers, the strings and the children of the original. */
  lemma {:induction false} CopyKeepsFields(c: Tree, t: Tree)
    requires Copies(c, t)
    ensures c.node.kind == t.node.kind && c.node.valueint == t.node.valueint && c.node.valuedouble == t.node.valuedouble
    ensures CString(c.value) == CString(t.value) && (c.value == null <==> t.value == null)
    ensures CString(c.name) == CString(t.name) && (c.name == null <==> t.name == null)
    ensures |c.kids| == |t.kids| && forall i | 0 <= i < |t.kids| :: Copies(c.kids[i], t.kids[i])
  {
    hide Copies, CString;
    KidsCopied(c, t);
    CopiesAt(c.kids, t.kids);
  }

  lemma KidsCopied(c: Tree, t: Tree)
    requires Copies(c, t)
    ensures SameFields(c, t) && CopiesList(c.kids, t.kids)
  {
    hide SameFields, CopiesList;
  }

  lemma {:induction false} CopiesAt(cs: seq<Tree>, ts: seq<Tree>)
    requires CopiesList(cs, ts)
    ensures |cs| == |ts| && forall i | 0 <= i < |ts| :: Copies(cs[i], ts[i])
  {
    hide Copies;
    if cs != [] {
      CopiesAt(cs[1..], ts[1..]);
    }
  }

  /** A copy shows the same value, and is complete when the original is. */
  lemma {:induction false} CopyShowsValue(c: Tree, t: Tree)
    requires Copies(c, t)
    ensures Value(c) == Value(t) && (Complete(t) ==> Complete(c))
    decreases c, 0
  {
    CopyShowsItems(c.kids, t.kids);
  }

  lemma {:induction false} CopyShowsItems(cs: seq<Tree>, ts: seq<Tree>)
    requires CopiesList(cs, ts)
    ensures Items(cs) == Items(ts) && Members(cs) == Members(ts)
    ensures CompleteList(ts, false) ==> CompleteList(cs, false)
    ensures CompleteList(ts, true) ==> CompleteList(cs, true)
    decreases cs, 1
  {
    hide Value, Complete;
    if cs != [] {
      CopyShowsValue(cs[0], ts[0]);
      CopyShowsItems(cs[1..], ts[1..]);
    }
  }

  /** A copy has no reference, and its strings are terminated. */
  lemma {:induction false} CopyIsProper(c: Tree, t: Tree)
    requires Copies(c, t)
    ensures Proper(c) && NameTerminated(c)
    decreases c, 0
  {
    CopiesAreProper(c.kids, t.kids);
  }

  lemma {:induction false} CopiesAreProper(cs: seq<Tree>, ts: seq<Tree>)
    requires CopiesList(cs, ts)
    ensures ProperList(cs)
    decreases cs, 1
  {
    hide Copies, Proper, NameTerminated;
    if cs != [] {
      CopyIsProper(cs[0], ts[0]);
      CopiesAreProper(cs[1..], ts[1..]);
    }
  }

  lemma ChildlessCopyIsProper(c: Tree, t: Tree)
    requires SameFields(c, t) && c.kids == []
    ensures Proper(c) && NameTerminated(c)
  {}

  /** A new node alone: it and its tree are all that has been allocated, and nothing when it is null. */
  twostate predicate Made(mem: Memory, new copy: Node?, new c: Tree)
    reads mem
    reads NodesIn(c)`name, NodesIn(c)`isReference, NodesIn(c)`valuestring, NodesIn(c)`child
    reads NodesIn(c)`prev, NodesIn(c)`next
  {
    && mem.failures >= old(mem.failures) && (copy == null <==> mem.failures > old(mem.failures))
    && (copy == null ==> mem.live == old(mem.live))
    && (copy != null ==>
          && c.node == copy && Alone(c, false) && fresh(Blocks(c)) && Blocks(c) !! old(mem.live)
          && mem.live == old(mem.live) + Blocks(c))
  }

  /** The copy of a string for a new node; the node is deleted when there is no memory for it. */
  method CopyString(mem: Memory, newitem: Node, str: array?<char>, ghost c: Tree) returns (copy: array?<char>, ok: bool)
    requires c.node == newitem && c.kids == [] && Alone(c, false) && Blocks(c) <= mem.live
    requires str != null ==> Terminated(str) && str !in Blocks(c)
    modifies mem`live, mem`failures, Blocks(c)
    ensures mem.failures >= old(mem.failures) && (ok <==> mem.failures == old(mem.failures))
    ensures !ok ==> mem.live == old(mem.live) - Blocks(c)
    ensures ok ==>
      mem.live == old(mem.live) + StringBlock(copy) && SameString(copy, str) && StringBlock(copy) !! old(mem.live)
    ensures ok ==> forall o | o in Blocks(c) :: unchanged(o)
    ensures copy != null ==> fresh(copy)
  {
    copy, ok := null, true;
    if str != null {
      copy := StrDup(mem, str);
      if copy == null {
        OneTree(c, null, false);
        Delete(mem, newitem, null, [c]);
        ok := false;
      }
    }
  }

  lemma ChildlessTree(c: Tree)
    requires c.kids == [] && c.node.child == null && c.node.valuestring == c.value && c.node.name == c.name
    requires c.node.prev == c.node.next == null && !c.node.isReference && (c.value == null || c.value != c.name)
    ensures Alone(c, false) && Blocks(c) == {c.node} + StringBlock(c.value) + StringBlock(c.name)
  {}

  /** A new node with the fields of another, but no strings and no children. */
  method NewCopy(mem: Memory, item: Node) returns (copy: Node?)
    modifies mem`live, mem`failures
    ensures mem.failures >= old(mem.failures) && (copy == null <==> mem.failures > old(mem.failures))
    ensures copy == null ==> mem.live == old(mem.live)
    ensures copy != null ==> fresh(copy) && copy !in old(mem.live) && mem.live == old(mem.live) + {copy}
    ensures copy != null ==>
      copy.kind == item.kind && copy.valueint == item.valueint && copy.valuedouble == item.valuedouble
    ensures copy != null ==> !copy.isReference && copy.child == copy.next == copy.prev == null
    ensures copy != null ==> copy.valuestring == copy.name == null
  {
    copy := mem.NewItem();
    if copy != null {
      copy.kind, copy.isReference := item.kind, false;
      copy.valueint, copy.valuedouble := item.valueint, item.valuedouble;
    }
  }

  /** The new node gets its own copy of the value string, if there is one; without memory for it the node is deleted. */
  method CopyValueString(mem: Memory, copy: Node, str: array?<char>, ghost c: Tree) returns (ok: bool, ghost c': Tree)
    requires c == Tree(copy, null, null, []) && Alone(c, false) && !copy.isReference && copy in mem.live
    requires str != null ==> Terminated(str)
    modifies mem`live, mem`failures, copy
    ensures mem.failures >= old(mem.failures) && (ok <==> mem.failures == old(mem.failures))
    ensures !ok ==> mem.live == old(mem.live) - {copy}
    ensures ok ==> c' == Tree(copy, copy.valuestring, null, []) && Alone(c', false) && SameString(copy.valuestring, str)
    ensures ok ==>
      mem.live == old(mem.live) + StringBlock(copy.valuestring) && StringBlock(copy.valuestring) !! old(mem.live)
    ensures ok && copy.valuestring != null ==> fresh(copy.valuestring)
    ensures ok ==> copy.kind == old(copy.kind) && copy.valueint == old(copy.valueint)
    ensures ok ==> copy.valuedouble == old(copy.valuedouble) && !copy.isReference
    ensures ok ==> copy.child == copy.next == copy.prev == null && copy.name == null
  {
    ChildlessTree(c);
    var dup;
    dup, ok := CopyString(mem, copy, str, c);
    c' := c;
    if ok {
      copy.valuestring := dup;
      c' := Tree(copy, dup, null, []);
      ChildlessTree(c');
    }
  }

  /** The new node gets its own copy of the name, if there is one; without memory for it the node is deleted. */
  method CopyNameString(mem: Memory, copy: Node, str: array?<char>, ghost c: Tree) returns (ok: bool, ghost c': Tree)
    requires c == Tree(copy, c.value, null, []) && Alone(c, false) && !copy.isReference
    requires {copy} + StringBlock(c.value) <= mem.live && (str != null ==> Terminated(str) && str != c.value)
    modifies mem`live, mem`failures, copy, StringBlock(c.value)
    ensures mem.failures >= old(mem.failures) && (ok <==> mem.failures == old(mem.failures))
    ensures !ok ==> mem.live == old(mem.live) - {copy} - StringBlock(c.value)
    ensures ok ==> c' == Tree(copy, c.value, copy.name, []) && Alone(c', false) && SameString(copy.name, str)
    ensures ok ==> mem.live == old(mem.live) + StringBlock(copy.name) && StringBlock(copy.name) !! old(mem.live)
    ensures ok && copy.name != null ==> fresh(copy.name)
    ensures ok ==> copy.kind == old(copy.kind) && copy.valueint == old(copy.valueint)
    ensures ok ==> copy.valuedouble == old(copy.valuedouble) && !copy.isReference && copy.child == null
    ensures ok && c.value != null ==>
      CString(c.value) == old(CString(c.value)) && Terminated(c.value) == old(Terminated(c.value))
    ensures ok ==> copy.valuestring == c.value && copy.next == copy.prev == null
  {
    ChildlessTree(c);
    var dup;
    dup, ok := CopyString(mem, copy, str, c);
    c' := c;
    if ok {
      copy.name := dup;
      c' := Tree(copy, c.value, dup, []);
      ChildlessTree(c');
    }
  }

  /** The node of a duplicate, with its fields and its value string. */
  method DuplicateValue(mem: Memory, item: Node) returns (copy: Node?, ghost c: Tree)
    requires item.valuestring != null ==> Terminated(item.valuestring)
    modifies mem`live, mem`failures
    ensures copy != null ==> c == Tree(copy, copy.valuestring, null, []) && SameString(c.value, item.valuestring)
    ensures copy != null ==>
      copy.kind == item.kind && copy.valueint == item.valueint && copy.valuedouble == item.valuedouble
    ensures copy != null ==> !copy.isReference && Blocks(c) == {copy} + StringBlock(c.value)
    ensures Made(mem, copy, c)
  {
    hide Linked, NodesIn, StringsIn, Alone, CString, Terminated;
    c := Tree(item, null, null, []);
    copy := NewCopy(mem, item);
    if copy == null {
      return;
    }
    c := Tree(copy, null, null, []);
    ChildlessTree(c);
    var ok;
    ok, c := CopyValueString(mem, copy, item.valuestring, c);
    if !ok {
      return null, Tree(item, null, null, []);
    }
    ChildlessTree(c);
  }

  /** The node of a duplicate, with its fields and strings but without children. */
  method DuplicateNode(mem: Memory, item: Node, ghost t: Tree) returns (copy: Node?, ghost c: Tree)
    requires item == t.node && Linked(t, true) && StringsTerminated(t)
    modifies mem`live, mem`failures
    ensures copy != null ==> c.kids == [] && c.node == copy && copy.child == null && SameFields(c, t)
    ensures Made(mem, copy, c)
  {
    assert t.value == item.valuestring && t.name == item.name;
    assert (t.value != null ==> Terminated(t.value)) && (t.name != null ==> Terminated(t.name));
    hide Linked, StringsTerminated, NodesIn, StringsIn, Alone, CString, Terminated;
    copy, c := DuplicateValue(mem, item);
    if copy == null {
      return;
    }
    var ok;
    ok, c := CopyNameString(mem, copy, item.name, c);
    if !ok {
      return null, t;
    }
    ChildlessTree(c);
    assert SameString(c.value, t.value) && SameString(c.name, t.name);
  }

  /** The loop over the children: those made so far are the list of the new parent, and copies of the first ones. */
  ghost predicate Copying(parent: Node, nptr: Node?, cs: seq<Tree>, ts: seq<Tree>, i: nat)
    reads parent`child
    reads NodesOf(cs)`name, NodesOf(cs)`isReference, NodesOf(cs)`valuestring, NodesOf(cs)`child
    reads NodesOf(cs)`prev, NodesOf(cs)`next, NodesOf(cs)`kind, NodesOf(cs)`valueint, NodesOf(cs)`valuedouble
    reads StringsOf(cs)
    reads NodesOf(ts)`name, NodesOf(ts)`isReference, NodesOf(ts)`valuestring, NodesOf(ts)`child
    reads NodesOf(ts)`prev, NodesOf(ts)`next, NodesOf(ts)`kind, NodesOf(ts)`valueint, NodesOf(ts)`valuedouble
    reads StringsOf(ts)
  {
    && Children(parent, cs, false) && nptr == LastOr(cs, null)
    && Segment(ts, null, null, true) && ListTerminated(ts)
    && CopiesFirst(cs, ts, i)
    && parent !in NodesOf(ts) && NodesOf(cs) !! NodesOf(ts)
  }

  ghost predicate CopiesFirst(cs: seq<Tree>, ts: seq<Tree>, i: nat)
    reads NodesOf(cs)`kind, NodesOf(cs)`valueint, NodesOf(cs)`valuedouble, NodesOf(cs)`isReference, StringsOf(cs)
    reads NodesOf(ts)`kind, NodesOf(ts)`valueint, NodesOf(ts)`valuedouble, StringsOf(ts)
    decreases cs
  {
    |cs| == i <= |ts| && (cs != [] ==> Copies(cs[0], ts[0]) && CopiesFirst(cs[1..], ts[1..], i - 1))
  }

  lemma {:induction false} CopiesAppend(cs: seq<Tree>, ts: seq<Tree>, c: Tree, i: nat)
    requires i < |ts| && CopiesFirst(cs, ts, i) && Copies(c, ts[i])
    ensures CopiesFirst(cs + [c], ts, i + 1)
    decreases |cs|
  {
    hide Copies;
    if cs == [] {
      assert cs + [c] == [c];
    } else {
      assert (cs + [c])[1..] == cs[1..] + [c];
      CopiesAppend(cs[1..], ts[1..], c, i - 1);
    }
  }

  lemma {:induction false} CopiesAll(cs: seq<Tree>, ts: seq<Tree>)
    requires CopiesFirst(cs, ts, |ts|)
    ensures CopiesList(cs, ts)
    decreases |cs|
  {
    hide Copies;
    if cs != [] {
      CopiesAll(cs[1..], ts[1..]);
    }
  }

  lemma {:induction false} TerminatedOne(ts: seq<Tree>, i: nat)
    requires ListTerminated(ts) && i < |ts|
    ensures StringsTerminated(ts[i])
  {
    if i > 0 {
      TerminatedOne(ts[1..], i - 1);
    }
  }

  /** What the loop knows about the next child. */
  lemma NextOriginal(parent: Node, nptr: Node?, cs: seq<Tree>, ts: seq<Tree>, i: nat)
    requires Copying(parent, nptr, cs, ts, i) && i < |ts|
    ensures Linked(ts[i], true) && StringsTerminated(ts[i]) && ts[i].node.next == FirstOr(ts[i + 1..], null)
  {
    hide Linked, StringsTerminated;
    SegmentAt(ts, i, null, null, true);
    TerminatedOne(ts, i);
  }

  lemma StillCopying(parent: Node, nptr: Node?, cs: seq<Tree>, ts: seq<Tree>, c: Tree, i: nat)
    requires i < |ts| && CopiesFirst(cs, ts, i) && Copies(c, ts[i])
    requires Children(parent, cs + [c], false) && nptr == c.node && Segment(ts, null, null, true) && ListTerminated(ts)
    requires parent !in NodesOf(ts) && NodesOf(cs) !! NodesOf(ts) && NodesIn(c) !! NodesOf(ts)
    ensures Copying(parent, nptr, cs + [c], ts, i + 1)
  {
    hide Linked, Segment, SeparateList, Copies, NodesIn, BlocksOf, CopiesList, ListTerminated, Blocks, Separate;
    CopiesAppend(cs, ts, c, i);
    NodesOfAppend(cs, [c]);
    assert NodesOf([c]) == NodesIn(c);
  }

  /** The link of a new child, and of the one before it. */
  method AddKid(parent: Node, nptr: Node?, newchild: Node, ghost kid: Tree, ghost i: nat, ghost ts: seq<Tree>,
        ghost cs: seq<Tree>)
    requires Copying(parent, nptr, cs, ts, i) && i < |ts|
    requires newchild == kid.node && Alone(kid, false) && Copies(kid, ts[i])
    requires Blocks(kid) !! BlocksOf(cs) && parent !in Blocks(kid) && NodesIn(kid) !! NodesOf(ts)
    modifies parent`child, NodesOf(cs)`next, newchild`prev
    ensures Copying(parent, newchild, cs + [kid], ts, i + 1) && BlocksOf(cs + [kid]) == BlocksOf(cs) + Blocks(kid)
  {
    hide Linked, Segment, SeparateList, Separate, Blocks, BlocksOf, NodesOf, NodesIn, StringsIn, StringsOf, Copies,
      StringsTerminated, ListTerminated, Alone, CopiesFirst;
    assert allocated(NodesOf(cs)) && allocated(StringsOf(cs)) && allocated(NodesOf(ts)) && allocated(StringsOf(ts));
    assert allocated(NodesIn(kid)) && allocated(StringsIn(kid));
    assert allocated(NodesIn(ts[i])) && allocated(StringsIn(ts[i]));
    assert kid.node in NodesIn(kid);
    LinkLast(parent, nptr, newchild, kid, cs);
    StillCopying(parent, newchild, cs, ts, kid, i);
  }

  /** The duplicate of the next child, not linked yet. */
  method DuplicateNext(mem: Memory, cptr: Node, ghost parent: Node, ghost nptr: Node?, ghost i: nat,
        ghost ts: seq<Tree>, ghost cs: seq<Tree>) returns (newchild: Node?, ghost kid: Tree)
    requires Copying(parent, nptr, cs, ts, i) && i < |ts| && cptr == ts[i].node && parent in mem.live
    modifies mem`live, mem`failures
    ensures Made(mem, newchild, kid) && Copying(parent, nptr, cs, ts, i)
    ensures newchild != null ==> Copies(kid, ts[i]) && NodesIn(kid) !! NodesOf(ts)
    decreases ts, 0
  {
    hide Linked, Segment, SeparateList, Separate, Blocks, BlocksOf, NodesOf, NodesIn, StringsIn, StringsOf, Copies,
      StringsTerminated, ListTerminated, Alone, Copying, SameFields, CString, Terminated, Proper, Value, Complete;
    NextOriginal(parent, nptr, cs, ts, i);
    assert allocated(NodesOf(cs)) && allocated(StringsOf(cs)) && allocated(NodesOf(ts)) && allocated(StringsOf(ts));
    newchild, kid := Duplicate(mem, cptr, true, ts[i]);
  }

  /** One pass of the loop over the children. */
  method NextKid(mem: Memory, cptr: Node, parent: Node, nptr: Node?, ghost i: nat,
        ghost ts: seq<Tree>, ghost cs: seq<Tree>, ghost before: set<object>)
      returns (newchild: Node?, ghost cs': seq<Tree>)
    requires Copying(parent, nptr, cs, ts, i) && i < |ts| && cptr == ts[i].node
    requires parent in before && before !! BlocksOf(cs) && mem.live == before + BlocksOf(cs)
    modifies mem`live, mem`failures, parent`child, NodesOf(cs)`next
    ensures mem.failures >= old(mem.failures) && (newchild == null <==> mem.failures > old(mem.failures))
    ensures before !! BlocksOf(cs') && mem.live == before + BlocksOf(cs')
    ensures newchild == null ==> cs' == cs && Copying(parent, nptr, cs, ts, i)
    ensures newchild != null ==> Copying(parent, newchild, cs', ts, i + 1)
    ensures forall o | o in BlocksOf(cs') :: o in BlocksOf(cs) || fresh(o)
    decreases ts, 1
  {
    hide Linked, Segment, SeparateList, Separate, Blocks, BlocksOf, NodesOf, NodesIn, StringsIn, StringsOf, Copies,
      StringsTerminated, ListTerminated, Alone, Copying;
    cs' := cs;
    ghost var kid;
    newchild, kid := DuplicateNext(mem, cptr, parent, nptr, i, ts, cs);
    if newchild != null {
      AddKid(parent, nptr, newchild, kid, i, ts, cs);
      cs' := cs + [kid];
    }
  }

  lemma NoKids(parent: Node, ts: seq<Tree>)
    requires parent.child == null && Segment(ts, null, null, true) && ListTerminated(ts) && parent !in NodesOf(ts)
    ensures Copying(parent, null, [], ts, 0) && NodesOf([]) == {} && BlocksOf([]) == {} && ts[0..] == ts
  {
    NoTrees();
  }

  lemma WhatIsCopied(parent: Node, nptr: Node?, cs: seq<Tree>, ts: seq<Tree>, i: nat)
    requires Copying(parent, nptr, cs, ts, i)
    ensures Children(parent, cs, false) && (i == |ts| ==> CopiesList(cs, ts)) && i <= |ts|
  {
    if i == |ts| {
      CopiesAll(cs, ts);
    }
  }

  /** The children of a duplicate. When one of them cannot be made, those made so far are in the list. */
  method DuplicateKids(mem: Memory, first: Node?, parent: Node, ghost ts: seq<Tree>)
      returns (ok: bool, ghost cs: seq<Tree>)
    requires first == FirstOr(ts, null) && Segment(ts, null, null, true) && ListTerminated(ts)
    requires parent in mem.live && parent.child == null && parent !in NodesOf(ts)
    modifies mem`live, mem`failures, parent`child
    ensures mem.failures >= old(mem.failures) && (ok <==> mem.failures == old(mem.failures))
    ensures (forall o | o in BlocksOf(cs) :: fresh(o)) && Children(parent, cs, false)
    ensures old(mem.live) !! BlocksOf(cs) && mem.live == old(mem.live) + BlocksOf(cs)
    ensures ok ==> CopiesList(cs, ts)
    decreases ts, 2
  {
    hide Linked, Segment, SeparateList, Separate, Blocks, BlocksOf, NodesOf, NodesIn, StringsIn, StringsOf, Copies,
      CopiesList, StringsTerminated, ListTerminated, Copying, Children;
    ok, cs := true, [];
    var cptr, nptr: Node? := first, null;
    ghost var i, before := 0, mem.live;
    NoKids(parent, ts);
    while cptr != null
      invariant i <= |ts| && cptr == FirstOr(ts[i..], null) && Copying(parent, nptr, cs, ts, i)
      invariant before !! BlocksOf(cs) && mem.live == before + BlocksOf(cs)
      invariant (forall o | o in BlocksOf(cs) :: fresh(o))
      invariant mem.failures == old(mem.failures)
      decreases |ts| - i
    {
      NextOriginal(parent, nptr, cs, ts, i);
      var newchild;
      newchild, cs := NextKid(mem, cptr, parent, nptr, i, ts, cs, before);
      if newchild == null {
        ok := false;
        WhatIsCopied(parent, nptr, cs, ts, i);
        return;
      }
      nptr := newchild;
      NextSame(parent, nptr, cs, ts, i);
      i, cptr := i + 1, cptr.next;
    }
    WhatIsCopied(parent, nptr, cs, ts, i);
  }

  lemma NextSame(parent: Node, nptr: Node?, cs: seq<Tree>, ts: seq<Tree>, i: nat)
    requires Copying(parent, nptr, cs, ts, i + 1) && i < |ts|
    ensures ts[i].node.next == FirstOr(ts[i + 1..], null)
  {
    hide Linked;
    SegmentAt(ts, i, null, null, true);
  }

  lemma AloneIs(c: Tree)
    requires Alone(c, false)
    ensures Linked(c, false)
  {}

  /** cJSON_Duplicate: a new tree that shares no block with the original and has no reference, or null, with nothing
      left allocated, when an allocation fails. */
  method Duplicate(mem: Memory, item: Node?, recurse: bool, ghost t: Tree) returns (copy: Node?, ghost c: Tree)
    requires item != null ==> item == t.node && Linked(t, true) && StringsTerminated(t)
    modifies mem`live, mem`failures
    ensures item == null ==> copy == null && mem.live == old(mem.live)
    ensures item != null ==> Made(mem, copy, c)
    ensures copy != null ==> if recurse then Copies(c, t) else SameFields(c, t) && c.kids == []
    ensures copy != null ==> Proper(c) && Linked(c, true)
    decreases t, 3
  {
    hide Linked, StringsTerminated, NodesIn, StringsIn, Blocks, Alone, Copies, SameFields, Proper;
    copy, c := null, t;
    if item != null {
      copy, c := DuplicateItem(mem, item, recurse, t);
      if copy != null {
        AloneIs(c);
        if recurse {
          CopyIsProper(c, t);
        } else {
          ChildlessCopyIsProper(c, t);
        }
        ProperFollows(c);
      }
    }
  }

  method DuplicateItem(mem: Memory, item: Node, recurse: bool, ghost t: Tree) returns (copy: Node?, ghost c: Tree)
    requires item == t.node && Linked(t, true) && StringsTerminated(t)
    modifies mem`live, mem`failures
    ensures Made(mem, copy, c)
    ensures copy != null ==> if recurse then Copies(c, t) else SameFields(c, t) && c.kids == []
    decreases t, 2
  {
    hide Linked, Segment, SeparateList, Separate, NodesOf, NodesIn, StringsIn, StringsOf, StringsTerminated,
      ListTerminated, Alone, Blocks, BlocksOf, SameFields, Copies, CString, Terminated;
    copy, c := DuplicateBeside(mem, item, t);
    if copy != null && recurse {
      copy, c := FinishItem(mem, item.child, copy, c, t);
    }
  }

  /** The node of a duplicate, and the children that it is going to have copies of. */
  method DuplicateBeside(mem: Memory, item: Node, ghost t: Tree) returns (copy: Node?, ghost c: Tree)
    requires item == t.node && Linked(t, true) && StringsTerminated(t)
    modifies mem`live, mem`failures
    ensures Made(mem, copy, c)
    ensures item.child == FirstOr(t.kids, null) && Segment(t.kids, null, null, true) && ListTerminated(t.kids)
    ensures copy != null ==> copy !in NodesOf(t.kids) && c.kids == [] && copy.child == null && SameFields(c, t)
  {
    KidsLinked(t);
    assert allocated(NodesOf(t.kids)) && allocated(StringsOf(t.kids));
    hide Linked, Segment, SeparateList, Separate, NodesOf, NodesIn, StringsIn, StringsOf, StringsTerminated,
      ListTerminated, Alone, Blocks, BlocksOf, SameFields;
    copy, c := DuplicateNode(mem, item, t);
  }

  lemma KidsLinked(t: Tree)
    requires Linked(t, true) && StringsTerminated(t)
    ensures t.node.child == FirstOr(t.kids, null) && Segment(t.kids, null, null, true) && ListTerminated(t.kids)
  {}

  /** The children of a duplicate; when one of them cannot be made, the duplicate is deleted. */
  method FinishItem(mem: Memory, first: Node?, newitem: Node, ghost leaf: Tree, ghost t: Tree)
      returns (copy: Node?, ghost c: Tree)
    requires first == FirstOr(t.kids, null) && Segment(t.kids, null, null, true) && ListTerminated(t.kids)
    requires leaf.node == newitem && leaf.kids == [] && Alone(leaf, false) && newitem.child == null
    requires SameFields(leaf, t)
    requires Blocks(leaf) <= mem.live && newitem !in NodesOf(t.kids)
    modifies mem`live, mem`failures, Blocks(leaf)
    ensures mem.failures >= old(mem.failures) && (copy == null <==> mem.failures > old(mem.failures))
    ensures copy == null ==> mem.live == old(mem.live) - Blocks(leaf)
    ensures copy != null ==> c.node == copy && Alone(c, false) && Copies(c, t)
    ensures copy != null ==> forall o | o in Blocks(c) :: o in Blocks(leaf) || fresh(o)
    ensures copy != null ==> mem.live == old(mem.live) + Blocks(c) && Blocks(leaf) <= Blocks(c)
    ensures copy != null ==> Blocks(c) !! old(mem.live) - Blocks(leaf)
    decreases t, 1
  {
    hide Linked, Segment, SeparateList, Separate, NodesOf, NodesIn, StringsIn, StringsOf, StringsTerminated,
      ListTerminated, Alone, Blocks, BlocksOf, SameFields, Copies;
    var ok;
    ok, c := WithKids(mem, first, newitem, leaf, t);
    copy := newitem;
    if !ok {
      NoBlocks();
      DeleteAlone(mem, newitem, c, []);
      copy := null;
    }
  }

  lemma NoBlocks()
    ensures BlocksOf([]) == {}
  {}

  /** The children of a duplicate, and the tree that it has with them. */
  method WithKids(mem: Memory, first: Node?, copy: Node, ghost leaf: Tree, ghost t: Tree)
      returns (ok: bool, ghost c: Tree)
    requires first == FirstOr(t.kids, null) && Segment(t.kids, null, null, true) && ListTerminated(t.kids)
    requires leaf.node == copy && leaf.kids == [] && Alone(leaf, false) && copy.child == null && SameFields(leaf, t)
    requires Blocks(leaf) <= mem.live && copy !in NodesOf(t.kids)
    modifies mem`live, mem`failures, copy`child
    ensures mem.failures >= old(mem.failures) && (ok <==> mem.failures == old(mem.failures))
    ensures c.node == copy && Alone(c, false) && Blocks(leaf) <= Blocks(c)
    ensures forall o | o in Blocks(c) :: o in Blocks(leaf) || fresh(o)
    ensures mem.live == old(mem.live) + Blocks(c) && Blocks(c) !! old(mem.live) - Blocks(leaf)
    ensures ok ==> Copies(c, t)
    decreases t, 0
  {
    ChildlessTree(leaf);
    hide Linked, Segment, SeparateList, Separate, NodesOf, NodesIn, StringsIn, StringsOf, StringsTerminated,
      ListTerminated, CopiesList, Blocks, BlocksOf, Children;
    ghost var before, cs := mem.live, [];
    ok, cs := DuplicateKids(mem, first, copy, t.kids);
    c := leaf.(kids := cs);
    DuplicateTree(mem, before, leaf, cs);
  }

  lemma DuplicateTree(mem: Memory, before: set<object>, leaf: Tree, cs: seq<Tree>)
    requires leaf.kids == [] && Blocks(leaf) <= before && Separate(leaf) && Children(leaf.node, cs, false)
    requires before !! BlocksOf(cs) && mem.live == before + BlocksOf(cs)
    requires leaf.node.name == leaf.name && leaf.node.valuestring == leaf.value && !leaf.node.isReference
    requires leaf.node.next == leaf.node.prev == null
    ensures Alone(leaf.(kids := cs), false) && Blocks(leaf.(kids := cs)) == Blocks(leaf) + BlocksOf(cs)
    ensures mem.live == before + Blocks(leaf.(kids := cs)) && Blocks(leaf.(kids := cs)) !! before - Blocks(leaf)
  {
    ParentOf(leaf, cs, false);
  }
}
