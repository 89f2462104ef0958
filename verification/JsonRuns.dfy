/** Runs of the list operations. */
module JsonRuns {
  // A caller holds some items in hand, and adds, detaches, deletes and replaces, by position or by name, in any
  // order. Every run refines the same operations on the sequence of what the children show.

  import opened CText
  import opened Json
  import opened Nodes
  import opened JsonLists

  // ---- the operations on sequences ----

  /** A call; j is the position of an item in hand. A null pointer for a name finds the items without one. */
  datatype Operation =
    | Add(j: nat)
    | AddNamed(name: string, j: nat)
    | Detach(which: int)
    | DetachNamed(key: Option<string>)
    | Delete(which: int)
    | DeleteNamed(key: Option<string>)
    | Replace(which: int, j: nat)
    | ReplaceNamed(name: string, j: nat)

  /** The children, and the items in hand. */
  datatype View = View(list: seq<Entry>, hand: seq<Entry>)

  /** The same name but for the case of letters. */
  predicate Alike(a: Option<string>, b: Option<string>) {
    if a.None? || b.None? then a == b else Lower(a.value) == Lower(b.value)
  }

  /** The position of the first entry of this name, or the number of entries. */
  function FirstNamed(es: seq<Entry>, key: Option<string>): (k: nat)
    ensures k <= |es|
  {
    if es == [] || Alike(es[0].name, key) then 0 else 1 + FirstNamed(es[1..], key)
  }

  function Lose(s: View, k: nat): View {
    if k < |s.list| then s.(list := Without(s.list, k)) else s
  }

  function TakeOut(s: View, k: nat): View {
    if k < |s.list| then View(Without(s.list, k), s.hand + [s.list[k]]) else s
  }

  /** The name under which an item joins the list: its own, or another one or none. */
  datatype Naming = AsIs | Under(name: Option<string>)

  function Given(e: Entry, naming: Naming): Entry {
    if naming.AsIs? then e else Entry(naming.name, e.item)
  }

  /** A new name, or none when there was no memory for it. */
  function NewName(name: string, ok: bool): Naming {
    Under(if ok then Some(name) else None)
  }

  function PutAt(s: View, k: nat, j: nat, naming: Naming): View {
    if k < |s.list| && j < |s.hand| then View(s.list[k := Given(s.hand[j], naming)], Without(s.hand, j)) else s
  }

  function PutLast(s: View, j: nat, naming: Naming): View {
    if j < |s.hand| then View(s.list + [Given(s.hand[j], naming)], Without(s.hand, j)) else s
  }

  /** One call; ok tells whether its allocations succeed. A call for an item that is not in hand changes nothing. */
  function Step(s: View, op: Operation, ok: bool): View {
    match op
    case Add(j) => PutLast(s, j, AsIs)
    case AddNamed(name, j) => PutLast(s, j, NewName(name, ok))
    case Detach(which) => TakeOut(s, Position(which))
    case DetachNamed(key) => TakeOut(s, FirstNamed(s.list, key))
    case Delete(which) => Lose(s, Position(which))
    case DeleteNamed(key) => Lose(s, FirstNamed(s.list, key))
    case Replace(which, j) => PutAt(s, Position(which), j, AsIs)
    case ReplaceNamed(name, j) => PutAt(s, FirstNamed(s.list, Some(name)), j, NewName(name, ok))
  }

  /** The number of blocks that a call leaves live although no tree has them: the name of an item that replaces another
      by name. */
  function Leaked(s: View, op: Operation): nat {
    if && op.ReplaceNamed? && FirstNamed(s.list, Some(op.name)) < |s.list| && op.j < |s.hand|
       && s.hand[op.j].name.Some?
    then 1 else 0
  }

  /** A run of calls. */
  function Run(s: View, ops: seq<Operation>, oks: seq<bool>): View
    requires |ops| == |oks|
    decreases |ops|
  {
    if ops == [] then s else Run(Step(s, ops[0], oks[0]), ops[1..], oks[1..])
  }

  function LeakedBy(s: View, ops: seq<Operation>, oks: seq<bool>): nat
    requires |ops| == |oks|
    decreases |ops|
  {
    if ops == [] then 0 else Leaked(s, ops[0]) + LeakedBy(Step(s, ops[0], oks[0]), ops[1..], oks[1..])
  }

  /** Two runs, one behind the other. */
  lemma {:induction false} RunAppend(s: View, ops: seq<Operation>, oks: seq<bool>, more: seq<Operation>,
        moreOks: seq<bool>)
    requires |ops| == |oks| && |more| == |moreOks|
    ensures Run(s, ops + more, oks + moreOks) == Run(Run(s, ops, oks), more, moreOks)
    ensures LeakedBy(s, ops + more, oks + moreOks) == LeakedBy(s, ops, oks) + LeakedBy(Run(s, ops, oks), more, moreOks)
    decreases |ops|
  {
    hide Step, Leaked;
    if ops == [] {
      assert ops + more == more && oks + moreOks == moreOks;
    } else {
      assert (ops + more)[1..] == ops[1..] + more && (oks + moreOks)[1..] == oks[1..] + moreOks;
      RunAppend(Step(s, ops[0], oks[0]), ops[1..], oks[1..], more, moreOks);
    }
  }

  /** Only a replacement by name can leave a block behind. */
  lemma {:induction false} NothingLeaked(s: View, ops: seq<Operation>, oks: seq<bool>)
    requires |ops| == |oks| && forall op | op in ops :: !op.ReplaceNamed?
    ensures LeakedBy(s, ops, oks) == 0
    decreases |ops|
  {
    hide Step;
    if ops != [] {
      NothingLeaked(Step(s, ops[0], oks[0]), ops[1..], oks[1..]);
    }
  }

  lemma WithoutKeeps<T>(s: seq<T>, k: nat)
    requires k < |s|
    ensures multiset(Without(s, k)) + multiset{s[k]} == multiset(s)
  {
    WholeOf(s, k);
  }

  predicate Moves(op: Operation) {
    op.Add? || op.Detach? || op.DetachNamed?
  }

  lemma MoveKeeps(s: View, op: Operation, ok: bool)
    requires Moves(op)
    ensures var e := Step(s, op, ok); multiset(e.list) + multiset(e.hand) == multiset(s.list) + multiset(s.hand)
  {
    hide FirstNamed, Without;
    match op
    case Add(j) =>
      if j < |s.hand| {
        WithoutKeeps(s.hand, j);
      }
    case Detach(which) =>
      if Position(which) < |s.list| {
        WithoutKeeps(s.list, Position(which));
      }
    case DetachNamed(key) =>
      if FirstNamed(s.list, key) < |s.list| {
        WithoutKeeps(s.list, FirstNamed(s.list, key));
      }
  }

  /** What is detached and added again, in any order, is neither lost nor doubled. */
  lemma {:induction false} NothingDropped(s: View, ops: seq<Operation>, oks: seq<bool>)
    requires |ops| == |oks| && forall op | op in ops :: Moves(op)
    ensures var e := Run(s, ops, oks); multiset(e.list) + multiset(e.hand) == multiset(s.list) + multiset(s.hand)
    decreases |ops|
  {
    hide Step;
    if ops != [] {
      assert ops[0] in ops;
      MoveKeeps(s, ops[0], oks[0]);
      NothingDropped(Step(s, ops[0], oks[0]), ops[1..], oks[1..]);
    }
  }

  lemma FoundNext(a: Entry, es: seq<Entry>, key: Option<string>)
    requires !Alike(a.name, key)
    ensures FirstNamed([a] + es, key) == 1 + FirstNamed(es, key)
  {
    assert ([a] + es)[1..] == es;
  }

  lemma FoundHere(a: Entry, es: seq<Entry>, key: Option<string>)
    requires Alike(a.name, key)
    ensures FirstNamed([a] + es, key) == 0
  {}

  /** Two items get names, and one of them is detached again. */
  lemma ARunWithNames(v: Item, w: Item)
    ensures Run(View([], [Entry(None, v), Entry(None, w)]),
      [AddNamed("a", 0), AddNamed("b", 0), DetachNamed(Some("b"))],
      [true, true, true])
         == View([Entry(Some("a"), v)], [Entry(Some("b"), w)])
  {
    var ops := [AddNamed("a", 0), AddNamed("b", 0), DetachNamed(Some("b"))];
    var a, b := Entry(Some("a"), v), Entry(Some("b"), w);
    assert Lower("a") == "a" && Lower("b") == "b";
    assert Alike(b.name, Some("b")) && !Alike(a.name, Some("b"));
    hide FirstNamed, Alike, Lower;
    FoundNext(a, [b], Some("b"));
    FoundHere(b, [], Some("b"));
    assert [a] + [b] == [a, b] && [b] + [] == [b];
    var s1, s2, s3 := View([a], [Entry(None, w)]), View([a, b], []), View([a], [b]);
    assert Step(View([], [Entry(None, v), Entry(None, w)]), ops[0], true) == s1;
    assert Step(s1, ops[1], true) == s2 && Step(s2, ops[2], true) == s3;
  }

  lemma LeakOfOne(s: View, op: Operation, ok: bool)
    ensures LeakedBy(s, [op], [ok]) == Leaked(s, op)
  {
    hide Leaked, Step;
  }

  /** A run that leaves a block behind: the detached item takes the place of the other. */
  lemma ARunThatLeaks(v: Item, w: Item)
    ensures var ops := [AddNamed("a", 0), AddNamed("b", 0), DetachNamed(Some("b")), ReplaceNamed("a", 0)];
      LeakedBy(View([], [Entry(None, v), Entry(None, w)]), ops, [true, true, true, true]) == 1
  {
    var s := View([], [Entry(None, v), Entry(None, w)]);
    var ops := [AddNamed("a", 0), AddNamed("b", 0), DetachNamed(Some("b"))];
    var a, b := Entry(Some("a"), v), Entry(Some("b"), w);
    FoundHere(a, [], Some("a"));
    assert [a] + [] == [a];
    hide FirstNamed, Alike, Lower, Step, Run, LeakedBy;
    ARunWithNames(v, w);
    NothingLeaked(s, ops, [true, true, true]);
    RunAppend(s, ops, [true, true, true], [ReplaceNamed("a", 0)], [true]);
    LeakOfOne(View([a], [b]), ReplaceNamed("a", 0), true);
    assert ops + [ReplaceNamed("a", 0)]
        == [AddNamed("a", 0), AddNamed("b", 0), DetachNamed(Some("b")), ReplaceNamed("a", 0)];
    assert [true, true, true] + [true] == [true, true, true, true];
  }

  // ---- the state of a run ----

  /** The items in hand: each stands alone, and no block occurs twice. */
  ghost predicate AllAlone(hs: seq<Tree>)
    reads NodesOf(hs)
  {
    hs != [] ==> Alone(hs[0], false) && AllAlone(hs[1..])
  }

  ghost predicate InHand(hand: seq<Node>, hs: seq<Tree>)
    reads NodesOf(hs), StringsOf(hs)
  {
    && AllAlone(hs) && SeparateList(hs) && NamesTerminated(hs)
    && |hand| == |hs| && forall i | 0 <= i < |hs| :: hand[i] == hs[i].node
  }

  /** The list and the items in hand have nothing in common. */
  ghost predicate Arranged(list: Node, hand: seq<Node>, ts: seq<Tree>, hs: seq<Tree>)
    reads list`child, Holdings(ts, hs)
  {
    && Children(list, ts, false) && NamesTerminated(ts) && InHand(hand, hs)
    && BlocksOf(ts) !! BlocksOf(hs) && list !in BlocksOf(hs)
  }

  ghost function ViewOf(ts: seq<Tree>, hs: seq<Tree>): View
    reads Holdings(ts, hs)
  {
    View(Entries(ts), Entries(hs))
  }

  lemma {:induction false} AllAloneAppend(a: seq<Tree>, b: seq<Tree>)
    ensures AllAlone(a + b) <==> AllAlone(a) && AllAlone(b)
  {
    hide Alone;
    if a == [] {
      assert a + b == b;
    } else {
      assert (a + b)[1..] == a[1..] + b;
      AllAloneAppend(a[1..], b);
    }
  }

  /** What taking an item out of the hand leaves, or a child out of a list. */
  lemma Taken(ts: seq<Tree>, k: nat)
    requires k < |ts| && SeparateList(ts)
    ensures Separate(ts[k]) && SeparateList(Without(ts, k)) && Blocks(ts[k]) !! BlocksOf(Without(ts, k))
    ensures BlocksOf(ts) == BlocksOf(Without(ts, k)) + Blocks(ts[k])
  {
    hide Blocks, Separate;
    var a, x, b := ts[..k], ts[k], ts[k + 1..];
    WholeOf(ts, k);
    assert ([x] + b)[1..] == b;
    SeparateListAppend(a, [x] + b);
    SeparateListAppend(a, b);
    BlocksOfAppend(a, [x] + b);
    BlocksOfAppend(a, b);
  }

  lemma AloneWithout(hs: seq<Tree>, j: nat)
    requires j < |hs|
    ensures AllAlone(hs) <==> AllAlone(Without(hs, j)) && Alone(hs[j], false)
  {
    hide Alone;
    var a, x, b := hs[..j], hs[j], hs[j + 1..];
    WholeOf(hs, j);
    AllAloneAppend(a, [x] + b);
    AllAloneAppend([x], b);
    AllAloneAppend(a, b);
    assert AllAlone([x]) <==> Alone(x, false);
  }

  lemma TakenFromHand(hand: seq<Node>, hs: seq<Tree>, j: nat)
    requires j < |hs| && InHand(hand, hs)
    ensures |hand| == |hs| && hand[j] == hs[j].node
    ensures Alone(hs[j], false) && Separate(hs[j]) && NameTerminated(hs[j])
    ensures InHand(Without(hand, j), Without(hs, j))
    ensures BlocksOf(hs) == BlocksOf(Without(hs, j)) + Blocks(hs[j]) && Blocks(hs[j]) !! BlocksOf(Without(hs, j))
    ensures Entries(Without(hs, j)) == Without(Entries(hs), j) && Entries(hs)[j] == EntryOf(hs[j])
  {
    hide Alone, AllAlone, SeparateList, Separate, Blocks, BlocksOf, NamesTerminated, NameTerminated, EntryOf, Entries;
    Taken(hs, j);
    EntriesSplit(hs, j);
    EntriesWithout(hs, j);
    AloneWithout(hs, j);
  }

  lemma PutInHand(hand: seq<Node>, hs: seq<Tree>, t: Tree)
    requires InHand(hand, hs) && Alone(t, false) && NameTerminated(t) && Blocks(t) !! BlocksOf(hs)
    ensures InHand(hand + [t.node], hs + [t]) && BlocksOf(hs + [t]) == BlocksOf(hs) + Blocks(t)
    ensures Entries(hs + [t]) == Entries(hs) + [EntryOf(t)]
  {
    assert Separate(t);
    hide Alone, Separate, Blocks, NamesTerminated, NameTerminated, EntryOf, Entries;
    EntriesAdded(hs, t);
    AllAloneAppend(hs, [t]);
    assert AllAlone([t]);
    SeparateListAppend(hs, [t]);
    BlocksOfAppend(hs, [t]);
    OneTree(t, null, false);
  }

  /** What a name shows. */
  ghost function Key(name: array?<char>): Option<string>
    reads name
  {
    if name == null then None else Some(CString(name))
  }

  /** The search for a name is the search among the entries. */
  lemma {:induction false} PositionShown(ts: seq<Tree>, name: array?<char>)
    ensures PositionOf(ts, name) == FirstNamed(Entries(ts), Key(name))
  {
    hide Value, CString, Lower;
    if ts != [] {
      PositionShown(ts[1..], name);
      assert Entries(ts)[1..] == Entries(ts[1..]);
    }
  }

  ghost function Holdings(ts: seq<Tree>, hs: seq<Tree>): set<object> {
    BlocksOf(ts) + BlocksOf(hs)
  }

  /** What every call keeps, and what is to be seen after it. */
  ghost predicate Reached(list: Node, hand: seq<Node>, ts: seq<Tree>, hs: seq<Tree>, s: View)
    reads list`child, Holdings(ts, hs)
  {
    Arranged(list, hand, ts, hs) && ViewOf(ts, hs) == s
  }

  /** A detached child joins the items in hand. */
  lemma Caught(list: Node, hand: seq<Node>, c: Node, ts: seq<Tree>, hs: seq<Tree>, s: View, k: nat)
    requires k < |ts| && NamesTerminated(ts) && InHand(hand, hs) && c == ts[k].node
    requires Alone(ts[k], false) && Children(list, Without(ts, k), false)
    requires BlocksOf(ts) == BlocksOf(Without(ts, k)) + Blocks(ts[k])
    requires Blocks(ts[k]) !! BlocksOf(Without(ts, k))
    requires BlocksOf(ts) !! BlocksOf(hs) && list !in BlocksOf(ts) + BlocksOf(hs)
    requires s.list == Entries(ts) && s.hand == Entries(hs)
    ensures Reached(list, hand + [c], Without(ts, k), hs + [ts[k]], TakeOut(s, k))
    ensures Holdings(Without(ts, k), hs + [ts[k]]) == Holdings(ts, hs)
  {
    hide Alone, Children, InHand, NamesTerminated, NameTerminated, Entries, EntryOf, Blocks, BlocksOf, NodesOf,
      StringsOf;
    EntriesSplit(ts, k);
    EntriesWithout(ts, k);
    PutInHand(hand, hs, ts[k]);
  }

  /** What is known before a call, and the disjointness that the frames need. */
  lemma Before(list: Node, hand: seq<Node>, ts: seq<Tree>, hs: seq<Tree>)
    requires Arranged(list, hand, ts, hs)
    ensures ViewOf(ts, hs).list == Entries(ts) && ViewOf(ts, hs).hand == Entries(hs)
    ensures SeparateList(ts)
  {
    hide InHand, NamesTerminated, BlocksOf, Segment, SeparateList, Entries;
  }

  lemma StartOf(list: Node, hand: seq<Node>, ts: seq<Tree>, hs: seq<Tree>)
    requires Arranged(list, hand, ts, hs)
    ensures Children(list, ts, false) && NamesTerminated(ts) && InHand(hand, hs)
    ensures BlocksOf(ts) !! BlocksOf(hs) && list !in BlocksOf(ts) + BlocksOf(hs)
    ensures forall n | n in NodesOf(hs) :: n !in NodesOf(ts) && n !in BlocksOf(ts) && n != list
    ensures forall n | n in StringsOf(hs) :: n !in BlocksOf(ts)
  {
    hide InHand, NamesTerminated, BlocksOf, Segment, SeparateList;
  }

  lemma EndOf(list: Node, hand: seq<Node>, ts: seq<Tree>, hs: seq<Tree>, s: View)
    requires Children(list, ts, false) && NamesTerminated(ts) && InHand(hand, hs)
    requires BlocksOf(ts) !! BlocksOf(hs) && list !in BlocksOf(hs)
    requires s.list == Entries(ts) && s.hand == Entries(hs)
    ensures Reached(list, hand, ts, hs, s)
  {
    hide Children, InHand, NamesTerminated, BlocksOf, Entries;
  }

  method PerformDetach(list: Node, hand: seq<Node>, which: int, ghost ts: seq<Tree>, ghost hs: seq<Tree>)
      returns (hand': seq<Node>, ghost ts': seq<Tree>, ghost hs': seq<Tree>)
    requires Arranged(list, hand, ts, hs)
    modifies list`child, NodesOf(ts)`next, NodesOf(ts)`prev
    ensures Reached(list, hand', ts', hs', TakeOut(old(ViewOf(ts, hs)), Position(which)))
    ensures Holdings(ts', hs') == Holdings(ts, hs)
  {
    hide Alone, Children, InHand, NamesTerminated, NameTerminated, ViewOf, Arranged, Reached, Blocks, BlocksOf, NodesOf,
      StringsOf, NodesIn;
    StartOf(list, hand, ts, hs);
    Before(list, hand, ts, hs);
    ghost var s := ViewOf(ts, hs);
    assert allocated(NodesOf(ts)) && allocated(StringsOf(ts)) && allocated(NodesOf(hs)) && allocated(StringsOf(hs));
    assert allocated(BlocksOf(ts)) && allocated(BlocksOf(hs));
    var c := DetachItemFromArray(list, which, ts, false);
    if c == null {
      EndOf(list, hand, ts, hs, s);
      hand', ts', hs' := hand, ts, hs;
    } else {
      Caught(list, hand, c, ts, hs, s, Position(which));
      hand', ts', hs' := hand + [c], Without(ts, Position(which)), hs + [ts[Position(which)]];
    }
  }

  method PerformDetachNamed(list: Node, hand: seq<Node>, name: array?<char>, ghost ts: seq<Tree>, ghost hs: seq<Tree>)
      returns (hand': seq<Node>, ghost ts': seq<Tree>, ghost hs': seq<Tree>)
    requires Arranged(list, hand, ts, hs) && (name != null ==> Terminated(name))
    modifies list`child, NodesOf(ts)`next, NodesOf(ts)`prev
    ensures Reached(list, hand', ts', hs', TakeOut(old(ViewOf(ts, hs)), old(FirstNamed(Entries(ts), Key(name)))))
    ensures Holdings(ts', hs') == Holdings(ts, hs)
  {
    hide Alone, Children, InHand, NamesTerminated, NameTerminated, ViewOf, Arranged, Reached, Blocks, BlocksOf, NodesOf,
      StringsOf, NodesIn, PositionOf, FirstNamed, CString, Terminated, Key;
    StartOf(list, hand, ts, hs);
    Before(list, hand, ts, hs);
    ghost var s := ViewOf(ts, hs);
    PositionShown(ts, name);
    assert allocated(NodesOf(ts)) && allocated(StringsOf(ts)) && allocated(NodesOf(hs)) && allocated(StringsOf(hs));
    assert allocated(BlocksOf(ts)) && allocated(BlocksOf(hs));
    ghost var k;
    var c;
    c, k := DetachItemFromObject(list, name, ts, false);
    if c == null {
      EndOf(list, hand, ts, hs, s);
      hand', ts', hs' := hand, ts, hs;
    } else {
      Caught(list, hand, c, ts, hs, s, k);
      hand', ts', hs' := hand + [c], Without(ts, k), hs + [ts[k]];
    }
  }

  /** What calls do to the live blocks: those of the list and of the hand change, and the lost ones belong to neither
      any more. */
  predicate Balanced(was: set<object>, live: set<object>, owned: set<object>, owned': set<object>, lost: set<object>) {
    live == was - owned + owned' + lost && lost !! owned' && (owned' + lost) - owned !! was
  }

  /** The list without the tree at a position, if there is one. */
  ghost function LeftOver(ts: seq<Tree>, k: nat): seq<Tree> {
    if k < |ts| then Without(ts, k) else ts
  }

  lemma Lost(ts: seq<Tree>, hs: seq<Tree>, k: nat, was: set<object>)
    requires SeparateList(ts) && Holdings(ts, hs) <= was && BlocksOf(ts) !! BlocksOf(hs)
    ensures Balanced(was, was - Doomed(ts, k), Holdings(ts, hs), Holdings(LeftOver(ts, k), hs), {})
    ensures Holdings(LeftOver(ts, k), hs) <= Holdings(ts, hs)
    ensures BlocksOf(LeftOver(ts, k)) <= BlocksOf(ts) <= was && Doomed(ts, k) <= BlocksOf(ts) && BlocksOf(hs) <= was
  {
    hide Blocks, BlocksOf, SeparateList;
    if k < |ts| {
      Taken(ts, k);
    }
  }

  lemma Dropped(list: Node, hand: seq<Node>, ts: seq<Tree>, hs: seq<Tree>, s: View, k: nat)
    requires |ts| == |s.list| && Children(list, LeftOver(ts, k), false) && NamesTerminated(LeftOver(ts, k))
    requires InHand(hand, hs) && BlocksOf(LeftOver(ts, k)) !! BlocksOf(hs) && list !in BlocksOf(hs)
    requires Entries(LeftOver(ts, k)) == (if k < |ts| then Without(s.list, k) else s.list) && Entries(hs) == s.hand
    ensures Reached(list, hand, LeftOver(ts, k), hs, Lose(s, k))
  {
    hide Children, InHand, NamesTerminated, BlocksOf, Entries;
  }

  method PerformDelete(mem: Memory, list: Node, hand: seq<Node>, which: int, ghost ts: seq<Tree>, ghost hs: seq<Tree>)
      returns (ghost ts': seq<Tree>)
    requires Arranged(list, hand, ts, hs) && Holdings(ts, hs) <= mem.live
    modifies mem`live, list`child, NodesOf(ts)`next, NodesOf(ts)`prev, Doomed(ts, Position(which))
    ensures Reached(list, hand, ts', hs, Lose(old(ViewOf(ts, hs)), Position(which)))
    ensures Holdings(ts', hs) <= Holdings(ts, hs)
    ensures Balanced(old(mem.live), mem.live, Holdings(ts, hs), Holdings(ts', hs), {})
    ensures mem.failures == old(mem.failures)
  {
    hide Alone, Children, InHand, NamesTerminated, NameTerminated, Arranged, Reached, Blocks, BlocksOf, NodesOf,
      StringsOf, NodesIn, Entries, SeparateList, ViewOf, Balanced, Position, Without, Holdings;
    ghost var k, s := Position(which), ViewOf(ts, hs);
    StartOf(list, hand, ts, hs);
    Before(list, hand, ts, hs);
    Lost(ts, hs, k, mem.live);
    assert allocated(NodesOf(ts)) && allocated(StringsOf(ts)) && allocated(NodesOf(hs)) && allocated(StringsOf(hs));
    assert allocated(BlocksOf(ts)) && allocated(BlocksOf(hs));
    ts' := LeftOver(ts, k);
    DeleteItemFromArray(mem, list, which, ts);
    assert mem.live == old(mem.live) - Doomed(ts, k);
    Dropped(list, hand, ts, hs, s, k);
  }

  method PerformDeleteNamed(mem: Memory, list: Node, hand: seq<Node>, name: array?<char>, ghost ts: seq<Tree>,
        ghost hs: seq<Tree>)
      returns (ghost ts': seq<Tree>)
    requires Arranged(list, hand, ts, hs) && Holdings(ts, hs) <= mem.live && (name != null ==> Terminated(name))
    modifies mem`live, list`child, NodesOf(ts)`next, NodesOf(ts)`prev, Doomed(ts, PositionOf(ts, name))
    ensures Reached(list, hand, ts', hs, Lose(old(ViewOf(ts, hs)), old(FirstNamed(Entries(ts), Key(name)))))
    ensures Holdings(ts', hs) <= Holdings(ts, hs)
    ensures Balanced(old(mem.live), mem.live, Holdings(ts, hs), Holdings(ts', hs), {})
    ensures mem.failures == old(mem.failures)
  {
    hide Alone, Children, InHand, NamesTerminated, NameTerminated, Arranged, Reached, Blocks, BlocksOf, NodesOf,
      StringsOf, NodesIn, Entries, SeparateList, ViewOf, Balanced, Without, Holdings, PositionOf, FirstNamed, CString,
      Terminated, Key;
    ghost var k, s := PositionOf(ts, name), ViewOf(ts, hs);
    StartOf(list, hand, ts, hs);
    Before(list, hand, ts, hs);
    PositionShown(ts, name);
    Lost(ts, hs, k, mem.live);
    assert allocated(NodesOf(ts)) && allocated(StringsOf(ts)) && allocated(NodesOf(hs)) && allocated(StringsOf(hs));
    assert allocated(BlocksOf(ts)) && allocated(BlocksOf(hs));
    ts' := LeftOver(ts, k);
    ghost var i := DeleteItemFromObject(mem, list, name, ts);
    assert mem.live == old(mem.live) - Doomed(ts, k);
    Dropped(list, hand, ts, hs, s, k);
  }

  // ---- adding ----

  lemma Joining(list: Node, hand: seq<Node>, ts: seq<Tree>, hs: seq<Tree>, j: nat)
    requires Arranged(list, hand, ts, hs) && j < |hs|
    ensures |hand| == |hs| && hand[j] == hs[j].node && Alone(hs[j], false) && NameTerminated(hs[j]) && Separate(hs[j])
    ensures Children(list, ts, false) && NamesTerminated(ts) && InHand(Without(hand, j), Without(hs, j))
    ensures Blocks(hs[j]) !! BlocksOf(ts) && Blocks(hs[j]) !! BlocksOf(Without(hs, j))
    ensures BlocksOf(hs) == BlocksOf(Without(hs, j)) + Blocks(hs[j]) && BlocksOf(ts) !! BlocksOf(Without(hs, j))
    ensures list !in BlocksOf(ts) + Blocks(hs[j]) + BlocksOf(Without(hs, j))
    ensures ViewOf(ts, hs).list == Entries(ts) && |ViewOf(ts, hs).hand| == |hs|
    ensures ViewOf(ts, hs).hand[j] == EntryOf(hs[j])
    ensures Entries(Without(hs, j)) == Without(ViewOf(ts, hs).hand, j)
  {
    hide InHand, NamesTerminated, NameTerminated, BlocksOf, Blocks, Segment, SeparateList, Entries, EntryOf, Alone;
    TakenFromHand(hand, hs, j);
  }

  lemma ApartFrom(t: Tree, ts: seq<Tree>, hs: seq<Tree>)
    requires Blocks(t) !! BlocksOf(hs) && BlocksOf(ts) !! BlocksOf(hs)
    ensures forall n | n in NodesOf(hs) :: n !in NodesOf(ts) && n !in BlocksOf(ts) && n !in Blocks(t)
    ensures forall a | a in StringsOf(hs) :: a !in BlocksOf(ts) && a !in Blocks(t)
    ensures forall a | a in StringBlock(t.name) :: a in Blocks(t)
  {
    hide BlocksOf, NodesOf, StringsOf;
  }

  lemma Added(list: Node, hand: seq<Node>, ts: seq<Tree>, t: Tree, hs: seq<Tree>, s: View, j: nat, naming: Naming)
    requires j < |s.hand| && Children(list, ts + [t], false) && NamesTerminated(ts + [t])
    requires InHand(hand, hs) && list !in BlocksOf(hs) && BlocksOf(ts) !! BlocksOf(hs) && Blocks(t) !! BlocksOf(hs)
    requires Entries(ts + [t]) == s.list + [Given(s.hand[j], naming)] && Entries(hs) == Without(s.hand, j)
    ensures Reached(list, hand, ts + [t], hs, PutLast(s, j, naming))
    ensures BlocksOf(ts + [t]) == BlocksOf(ts) + Blocks(t)
  {
    hide Children, InHand, NamesTerminated, NameTerminated, BlocksOf, Blocks, Entries, EntryOf;
    BlocksOfAppend(ts, [t]);
    OneTree(t, null, false);
  }

  method PerformAdd(list: Node, hand: seq<Node>, j: nat, ghost ts: seq<Tree>, ghost hs: seq<Tree>)
    requires Arranged(list, hand, ts, hs) && j < |hand| == |hs|
    modifies list`child, NodesOf(ts)`next, Just(hand[j])`prev
    ensures Reached(list, Without(hand, j), ts + [hs[j]], Without(hs, j),
      PutLast(old(ViewOf(ts, hs)), j, AsIs))
    ensures Holdings(ts + [hs[j]], Without(hs, j)) == Holdings(ts, hs)
  {
    LastNodeIn(ts);
    hide Alone, Children, InHand, NamesTerminated, NameTerminated, Arranged, Reached, Blocks, BlocksOf, NodesOf,
      StringsOf, NodesIn, Entries, SeparateList, ViewOf, Without, EntryOf, PutLast;
    Joining(list, hand, ts, hs, j);
    ghost var t, hs', s := hs[j], Without(hs, j), ViewOf(ts, hs);
    ApartFrom(t, ts, hs');
    assert allocated(NodesOf(ts)) && allocated(StringsOf(ts)) && allocated(NodesOf(hs')) && allocated(StringsOf(hs'));
    assert allocated(BlocksOf(hs'));
    assert allocated(NodesIn(t)) && allocated(StringsIn(t));
    AddItemToArray(list, hand[j], t, ts, false);
    Added(list, Without(hand, j), ts, t, hs', s, j, AsIs);
  }

  lemma BalancedName(core: set<object>, old_name: set<object>, new_name: set<object>, rest: set<object>,
        was: set<object>)
    requires core !! old_name && core + old_name !! rest && core + old_name + rest <= was && new_name !! was
    ensures Balanced(was, was - old_name + new_name, rest + (core + old_name), rest + (core + new_name), {})
  {}

  /** The blocks of an item, but for its name. */
  ghost function Core(t: Tree): set<object> {
    {t.node} + StringBlock(t.value) + BlocksOf(t.kids)
  }

  lemma CoreAndName(t: Tree, name: array?<char>)
    ensures Blocks(t) == Core(t) + StringBlock(t.name) && Blocks(Renamed(t, name)) == Core(t) + StringBlock(name)
    ensures Separate(t) ==> Core(t) !! StringBlock(t.name)
  {}

  /** An item under a new name has the blocks that it had, but for the name. */
  lemma Relabelled(t: Tree, name: array?<char>, ts: seq<Tree>, hs: seq<Tree>, hs': seq<Tree>, was: set<object>)
    requires Separate(t) && BlocksOf(hs) == BlocksOf(hs') + Blocks(t) && Holdings(ts, hs) <= was
    requires Blocks(t) !! BlocksOf(ts) && Blocks(t) !! BlocksOf(hs') && StringBlock(name) !! was
    ensures Balanced(was, was - StringBlock(t.name) + StringBlock(name), Holdings(ts, hs),
      BlocksOf(ts) + Blocks(Renamed(t, name)) + BlocksOf(hs'), {})
    ensures Blocks(Renamed(t, name)) !! BlocksOf(hs') && Blocks(Renamed(t, name)) <= Blocks(t) + StringBlock(name)
  {
    hide Blocks, BlocksOf, StringBlock, Separate, Balanced, Renamed, Core;
    CoreAndName(t, name);
    var rest := BlocksOf(ts) + BlocksOf(hs');
    assert Holdings(ts, hs) == rest + (Core(t) + StringBlock(t.name));
    assert BlocksOf(ts) + Blocks(Renamed(t, name)) + BlocksOf(hs') == rest + (Core(t) + StringBlock(name));
    BalancedName(Core(t), StringBlock(t.name), StringBlock(name), rest, was);
  }

  method PerformAddNamed(mem: Memory, list: Node, hand: seq<Node>, j: nat, name: array<char>, ghost ts: seq<Tree>,
        ghost hs: seq<Tree>)
      returns (ghost t': Tree)
    requires Arranged(list, hand, ts, hs) && j < |hand| == |hs| && Holdings(ts, hs) <= mem.live
    requires Terminated(name) && name !in mem.live
    modifies mem`live, mem`failures, list`child, NodesOf(ts)`next, Just(hand[j])`prev, Just(hand[j])`name
    modifies StringBlock(hs[j].name)
    ensures mem.failures >= old(mem.failures)
    ensures Reached(list, Without(hand, j), ts + [t'], Without(hs, j),
      PutLast(old(ViewOf(ts, hs)), j,
        NewName(old(CString(name)), mem.failures == old(mem.failures))))
    ensures Balanced(old(mem.live), mem.live, Holdings(ts, hs), Holdings(ts + [t'], Without(hs, j)), {})
    ensures forall o | o in Holdings(ts + [t'], Without(hs, j)) :: o in Holdings(ts, hs) || fresh(o)
  {
    LastNodeIn(ts);
    hide Alone, Children, InHand, NamesTerminated, NameTerminated, Arranged, Reached, Blocks, BlocksOf, NodesOf,
      StringsOf, NodesIn, Entries, SeparateList, ViewOf, Without, EntryOf, PutLast, CString, Terminated, Value,
      Balanced, Renamed, Separate;
    Joining(list, hand, ts, hs, j);
    ghost var t, hs', s := hs[j], Without(hs, j), ViewOf(ts, hs);
    ApartFrom(t, ts, hs');
    EntryShows(t);
    assert allocated(NodesOf(ts)) && allocated(StringsOf(ts)) && allocated(NodesOf(hs')) && allocated(StringsOf(hs'));
    assert allocated(BlocksOf(hs'));
    assert allocated(NodesIn(t)) && allocated(StringsIn(t));
    AddUnderName(mem, list, name, hand[j], t, ts);
    t' := Renamed(t, hand[j].name);
    Relabelled(t, hand[j].name, ts, hs, hs', old(mem.live));
    Added(list, Without(hand, j), ts, t', hs', s, j,
      NewName(old(CString(name)), mem.failures == old(mem.failures)));
  }

  // ---- replacing ----

  lemma AloneParts(t: Tree)
    requires Alone(t, false)
    ensures Linked(t, false) && Separate(t) && t.node.next == t.node.prev == null
  {}

  lemma AloneAgain(t: Tree)
    requires Linked(t, false) && Separate(t) && t.node.next == t.node.prev == null
    ensures Alone(t, false)
  {}

  lemma BackInHand(hand: seq<Node>, hs: seq<Tree>, j: nat)
    requires j < |hs| && SeparateList(hs) && NamesTerminated(hs) && Alone(hs[j], false)
    requires |hand| == |hs| && forall i | 0 <= i < |hs| :: hand[i] == hs[i].node
    requires InHand(Without(hand, j), Without(hs, j))
    ensures InHand(hand, hs)
  {
    hide Alone, AllAlone, SeparateList, NamesTerminated;
    AloneWithout(hs, j);
  }

  lemma SwappedBlocks(ts: seq<Tree>, k: nat, t: Tree)
    requires k < |ts|
    ensures BlocksOf(ts[k := t]) == BlocksOf(Without(ts, k)) + Blocks(t)
  {
    hide Blocks, BlocksOf;
    var a, b := ts[..k], ts[k + 1..];
    Update(ts, k, t);
    BlocksOfAppend(a + [t], b);
    BlocksOfAppend(a, [t]);
    BlocksOfAppend(a, b);
    OneTree(t, null, false);
  }

  lemma Swapped(list: Node, hand: seq<Node>, ts: seq<Tree>, k: nat, t: Tree, hs: seq<Tree>, s: View, j: nat,
        naming: Naming)
    requires k < |ts| == |s.list| && j < |s.hand|
    requires Children(list, ts[k := t], false) && NamesTerminated(ts[k := t])
    requires InHand(hand, hs) && list !in BlocksOf(hs)
    requires BlocksOf(Without(ts, k)) !! BlocksOf(hs) && Blocks(t) !! BlocksOf(hs)
    requires Entries(ts[k := t]) == s.list[k := Given(s.hand[j], naming)] && Entries(hs) == Without(s.hand, j)
    ensures Reached(list, hand, ts[k := t], hs, PutAt(s, k, j, naming))
  {
    hide Children, InHand, NamesTerminated, BlocksOf, Blocks, Entries, EntryOf;
    SwappedBlocks(ts, k, t);
  }

  lemma BalancedSwap(core: set<object>, old_name: set<object>, new_name: set<object>, kept: set<object>,
        gone: set<object>, hand: set<object>, was: set<object>)
    requires core !! old_name && core + old_name !! kept + gone + hand && kept + hand !! gone
    requires core + old_name + kept + gone + hand <= was && new_name !! was
    ensures Balanced(was, was - (core + old_name) - gone + (core + new_name) + old_name,
      kept + gone + (hand + (core + old_name)), kept + (core + new_name) + hand, old_name)
  {}

  /** The blocks of an item that has taken the place of a child, under its own name. */
  lemma Moved(ts: seq<Tree>, k: nat, hs: seq<Tree>, t: Tree, hs': seq<Tree>, was: set<object>)
    requires k < |ts| && SeparateList(ts) && Holdings(ts, hs) <= was && BlocksOf(ts) !! BlocksOf(hs)
    requires BlocksOf(hs) == BlocksOf(hs') + Blocks(t) && Blocks(t) !! BlocksOf(hs')
    ensures Balanced(was, was - Blocks(ts[k]), Holdings(ts, hs), Holdings(ts[k := t], hs'), {})
    ensures Holdings(ts[k := t], hs') <= Holdings(ts, hs)
    ensures BlocksOf(Without(ts, k)) !! BlocksOf(hs')
  {
    hide Blocks, BlocksOf, SeparateList;
    Taken(ts, k);
    SwappedBlocks(ts, k, t);
  }

  lemma HandParts(hand: seq<Node>, hs: seq<Tree>)
    requires InHand(hand, hs)
    ensures SeparateList(hs) && NamesTerminated(hs) && |hand| == |hs|
    ensures forall i | 0 <= i < |hs| :: hand[i] == hs[i].node
  {
    hide SeparateList, NamesTerminated;
  }

  method PerformReplace(mem: Memory, list: Node, hand: seq<Node>, which: int, j: nat, ghost ts: seq<Tree>,
        ghost hs: seq<Tree>)
    requires Arranged(list, hand, ts, hs) && j < |hand| == |hs| && Holdings(ts, hs) <= mem.live
    requires Position(which) < |ts|
    modifies mem`live, list`child, NodesOf(ts)`next, NodesOf(ts)`prev, Doomed(ts, Position(which))
    modifies Just(hand[j])`next, Just(hand[j])`prev
    ensures mem.failures == old(mem.failures)
    ensures Reached(list, Without(hand, j), ts[Position(which) := hs[j]], Without(hs, j),
      PutAt(old(ViewOf(ts, hs)), Position(which), j, AsIs))
    ensures Holdings(ts[Position(which) := hs[j]], Without(hs, j)) <= Holdings(ts, hs)
    ensures Balanced(old(mem.live), mem.live, Holdings(ts, hs),
      Holdings(ts[Position(which) := hs[j]], Without(hs, j)), {})
  {
    hide Alone, Children, InHand, NamesTerminated, NameTerminated, Arranged, Reached, Blocks, BlocksOf, NodesOf,
      StringsOf, NodesIn, Entries, SeparateList, ViewOf, Without, EntryOf, CString, Terminated, Value,
      Balanced, Separate, PutAt, Position, Holdings;
    ghost var k, t, s := Position(which), hs[j], ViewOf(ts, hs);
    Joining(list, hand, ts, hs, j);
    AloneParts(t);
    ghost var hs' := Without(hs, j);
    ApartFrom(t, ts, hs');
    Before(list, hand, ts, hs);
    Lost(ts, hs, k, mem.live);
    Moved(ts, k, hs, t, hs', mem.live);
    assert allocated(NodesOf(ts)) && allocated(StringsOf(ts)) && allocated(NodesOf(hs')) && allocated(StringsOf(hs'));
    assert allocated(BlocksOf(hs'));
    ReplaceItemInArray(mem, list, which, hand[j], t, ts);
    Swapped(list, Without(hand, j), ts, k, t, hs', s, j, AsIs);
  }

  /** Without a child at that position, nothing changes. */
  method PerformReplaceNone(mem: Memory, list: Node, hand: seq<Node>, which: int, j: nat, ghost ts: seq<Tree>,
        ghost hs: seq<Tree>)
    requires Arranged(list, hand, ts, hs) && j < |hand| == |hs| && Holdings(ts, hs) <= mem.live
    requires Position(which) >= |ts|
    modifies mem`live, list`child, NodesOf(ts)`next, NodesOf(ts)`prev, Doomed(ts, Position(which))
    modifies Just(hand[j])`next, Just(hand[j])`prev
    ensures mem.live == old(mem.live) && mem.failures == old(mem.failures)
    ensures Reached(list, hand, ts, hs, old(ViewOf(ts, hs)))
  {
    hide Alone, Children, InHand, NamesTerminated, NameTerminated, Arranged, Reached, Blocks, BlocksOf, NodesOf,
      StringsOf, NodesIn, Entries, SeparateList, ViewOf, Without, EntryOf, CString, Terminated, Value, Separate,
      Position, Holdings;
    ghost var t := hs[j];
    StartOf(list, hand, ts, hs);
    ghost var s := ViewOf(ts, hs);
    Joining(list, hand, ts, hs, j);
    HandParts(hand, hs);
    AloneParts(t);
    ghost var hs' := Without(hs, j);
    ApartFrom(t, ts, hs');
    Before(list, hand, ts, hs);
    Lost(ts, hs, Position(which), mem.live);
    assert allocated(NodesOf(ts)) && allocated(StringsOf(ts)) && allocated(NodesOf(hs')) && allocated(StringsOf(hs'));
    assert allocated(BlocksOf(hs'));
    assert allocated(NodesOf(hs)) && allocated(StringsOf(hs));
    ReplaceItemInArray(mem, list, which, hand[j], t, ts);
    AloneAgain(t);
    BackInHand(hand, hs, j);
    EndOf(list, hand, ts, hs, s);
  }

  /** And under a new name: the old one belongs to no tree any more. */
  lemma MovedUnder(ts: seq<Tree>, k: nat, hs: seq<Tree>, t: Tree, name: array?<char>, hs': seq<Tree>, was: set<object>)
    requires k < |ts| && SeparateList(ts) && Holdings(ts, hs) <= was && BlocksOf(ts) !! BlocksOf(hs) && Separate(t)
    requires BlocksOf(hs) == BlocksOf(hs') + Blocks(t) && Blocks(t) !! BlocksOf(hs') && StringBlock(name) !! was
    ensures Balanced(was, was - Blocks(t) - Blocks(ts[k]) + Blocks(Renamed(t, name)) + StringBlock(t.name),
      Holdings(ts, hs), Holdings(ts[k := Renamed(t, name)], hs'), StringBlock(t.name))
    ensures BlocksOf(Without(ts, k)) !! BlocksOf(hs') && Blocks(Renamed(t, name)) !! BlocksOf(hs')
    ensures Holdings(ts[k := Renamed(t, name)], hs') <= Holdings(ts, hs) + StringBlock(name)
  {
    hide Blocks, BlocksOf, StringBlock, Separate, SeparateList, Balanced, Renamed, Core;
    CoreAndName(t, name);
    var core := Core(t);
    var kept, hand := BlocksOf(Without(ts, k)), BlocksOf(hs');
    Taken(ts, k);
    SwappedBlocks(ts, k, Renamed(t, name));
    assert Holdings(ts, hs) == kept + Blocks(ts[k]) + (hand + (core + StringBlock(t.name)));
    assert Holdings(ts[k := Renamed(t, name)], hs') == kept + (core + StringBlock(name)) + hand;
    BalancedSwap(core, StringBlock(t.name), StringBlock(name), kept, Blocks(ts[k]), hand, was);
  }

  /** The code does not free the old name of the item: it is lost, if the item had one. */
  method PerformReplaceNamed(mem: Memory, list: Node, hand: seq<Node>, name: array<char>, j: nat, ghost ts: seq<Tree>,
        ghost hs: seq<Tree>)
      returns (hand': seq<Node>, ghost ts': seq<Tree>, ghost hs': seq<Tree>, ghost lost: set<object>)
    requires Arranged(list, hand, ts, hs) && j < |hand| == |hs| && Holdings(ts, hs) <= mem.live && Terminated(name)
    requires PositionOf(ts, name) < |ts|
    modifies mem`live, mem`failures, list`child, NodesOf(ts)`next, NodesOf(ts)`prev, Doomed(ts, PositionOf(ts, name))
    modifies Just(hand[j])`next, Just(hand[j])`prev, Just(hand[j])`name
    ensures mem.failures >= old(mem.failures)
    ensures Reached(list, hand', ts', hs',
      PutAt(old(ViewOf(ts, hs)), old(PositionOf(ts, name)), j,
        NewName(old(CString(name)), mem.failures == old(mem.failures))))
    ensures Balanced(old(mem.live), mem.live, Holdings(ts, hs), Holdings(ts', hs'), lost)
    ensures lost == StringBlock(hs[j].name)
    ensures forall o | o in Holdings(ts', hs') :: o in Holdings(ts, hs) || fresh(o)
  {
    hide Alone, Children, InHand, NamesTerminated, NameTerminated, Arranged, Reached, Blocks, BlocksOf, NodesOf,
      StringsOf, NodesIn, Entries, SeparateList, ViewOf, Without, EntryOf, CString, Terminated, Value,
      Balanced, Separate, PutAt, Holdings, PositionOf, Renamed;
    ghost var k, t, s := PositionOf(ts, name), hs[j], ViewOf(ts, hs);
    Joining(list, hand, ts, hs, j);
    AloneParts(t);
    hs' := Without(hs, j);
    ApartFrom(t, ts, hs');
    Before(list, hand, ts, hs);
    EntryShows(t);
    Lost(ts, hs, k, mem.live);
    assert allocated(NodesOf(ts)) && allocated(StringsOf(ts)) && allocated(NodesOf(hs')) && allocated(StringsOf(hs'));
    assert allocated(BlocksOf(hs'));
    ghost var at := ReplaceItemInObject(mem, list, name, hand[j], t, ts);
    ghost var t' := Renamed(t, hand[j].name);
    MovedUnder(ts, k, hs, t, hand[j].name, hs', old(mem.live));
    Swapped(list, Without(hand, j), ts, k, t', hs', s, j,
      NewName(old(CString(name)), mem.failures == old(mem.failures)));
    hand', ts', lost := Without(hand, j), ts[k := t'], StringBlock(t.name);
  }

  /** Without a child of that name, nothing changes. */
  method PerformReplaceNamedNone(mem: Memory, list: Node, hand: seq<Node>, name: array<char>, j: nat,
        ghost ts: seq<Tree>, ghost hs: seq<Tree>)
      returns (hand': seq<Node>, ghost ts': seq<Tree>, ghost hs': seq<Tree>, ghost lost: set<object>)
    requires Arranged(list, hand, ts, hs) && j < |hand| == |hs| && Holdings(ts, hs) <= mem.live && Terminated(name)
    requires PositionOf(ts, name) == |ts|
    modifies mem`live, mem`failures, list`child, NodesOf(ts)`next, NodesOf(ts)`prev, Doomed(ts, PositionOf(ts, name))
    modifies Just(hand[j])`next, Just(hand[j])`prev, Just(hand[j])`name
    ensures mem.failures >= old(mem.failures)
    ensures Reached(list, hand', ts', hs',
      PutAt(old(ViewOf(ts, hs)), old(PositionOf(ts, name)), j,
        NewName(old(CString(name)), mem.failures == old(mem.failures))))
    ensures Balanced(old(mem.live), mem.live, Holdings(ts, hs), Holdings(ts', hs'), lost)
    ensures lost == {}
    ensures forall o | o in Holdings(ts', hs') :: o in Holdings(ts, hs) || fresh(o)
  {
    hide Alone, Children, InHand, NamesTerminated, NameTerminated, Arranged, Reached, Blocks, BlocksOf, NodesOf,
      StringsOf, NodesIn, Entries, SeparateList, ViewOf, Without, EntryOf, CString, Terminated, Value, Separate,
      Holdings, PositionOf, Renamed;
    ghost var t := hs[j];
    StartOf(list, hand, ts, hs);
    Joining(list, hand, ts, hs, j);
    HandParts(hand, hs);
    AloneParts(t);
    hs' := Without(hs, j);
    ApartFrom(t, ts, hs');
    Before(list, hand, ts, hs);
    Lost(ts, hs, |ts|, mem.live);
    assert allocated(NodesOf(ts)) && allocated(StringsOf(ts)) && allocated(NodesOf(hs')) && allocated(StringsOf(hs'));
    assert allocated(BlocksOf(hs'));
    assert allocated(NodesOf(hs)) && allocated(StringsOf(hs));
    NothingLost(mem.live, Holdings(ts, hs));
    InFrame(list, hand, ts, hs);
    ghost var s := ViewOf(ts, hs);
    PutNowhere(s, |ts|, j, NewName(CString(name), true));
    ghost var k := ReplaceItemInObject(mem, list, name, hand[j], t, ts);
    AloneAgain(t);
    BackInHand(hand, hs, j);
    EndOf(list, hand, ts, hs, s);
    return hand, ts, hs, {};
  }

  // ---- what survives ----

  /** The fields of the nodes of a view are these. */
  ghost predicate Agrees(s: View, m: map<Node, Fields>) {
    && (forall e | e in s.list :: ItemAgrees(e.item, m))
    && (forall e | e in s.hand :: ItemAgrees(e.item, m))
  }

  ghost predicate ItemAgrees(item: Item, m: map<Node, Fields>) {
    forall n | n in item.fields :: n in m && m[n] == item.fields[n]
  }

  lemma StepAgrees(s: View, op: Operation, ok: bool, m: map<Node, Fields>)
    requires Agrees(s, m)
    ensures Agrees(Step(s, op, ok), m)
  {
    hide ItemAgrees, FirstNamed;
  }

  lemma {:induction false} EntriesAgree(ts: seq<Tree>, m: map<Node, Fields>)
    ensures (forall e | e in Entries(ts) :: ItemAgrees(e.item, m))
       <==> forall n | n in NodesOf(ts) :: n in m && m[n] == FieldsOf(n)
  {
    hide Value, Complete, Proper, FieldsOf, CString;
    if ts != [] {
      EntriesAgree(ts[1..], m);
      ItemShows(ts[0], m);
      assert Entries(ts) == [EntryOf(ts[0])] + Entries(ts[1..]);
      assert forall e | e in Entries(ts) :: e == EntryOf(ts[0]) || e in Entries(ts[1..]);
    }
  }

  lemma ItemShows(t: Tree, m: map<Node, Fields>)
    ensures ItemAgrees(EntryOf(t).item, m) <==> forall n | n in NodesIn(t) :: n in m && m[n] == FieldsOf(n)
  {
    hide Value, Complete, Proper, FieldsOf, CString;
  }

  /** The fields of the nodes that the list and the hand have. */
  ghost function FieldsHeld(ts: seq<Tree>, hs: seq<Tree>): map<Node, Fields>
    reads NodesOf(ts), NodesOf(hs)
  {
    map n | n in NodesOf(ts) + NodesOf(hs) :: FieldsOf(n)
  }

  lemma ViewAgrees(ts: seq<Tree>, hs: seq<Tree>, m: map<Node, Fields>)
    ensures Agrees(ViewOf(ts, hs), m) <==> forall n | n in NodesOf(ts) + NodesOf(hs) :: n in m && m[n] == FieldsOf(n)
  {
    hide ItemAgrees, Entries, FieldsOf;
    EntriesAgree(ts, m);
    EntriesAgree(hs, m);
  }

  /** Every node of the list and the hand was there before, and its fields are what they were, but for its name and
      its sibling links. */
  twostate predicate Survive(ts: seq<Tree>, hs: seq<Tree>, new ts': seq<Tree>, new hs': seq<Tree>)
    reads NodesOf(ts'), NodesOf(hs')
  {
    forall n | n in NodesOf(ts') + NodesOf(hs') ::
      n in NodesOf(ts) + NodesOf(hs) && old(allocated(n)) && FieldsOf(n) == old(FieldsOf(n))
  }

  lemma ViewHeld(ts: seq<Tree>, hs: seq<Tree>)
    ensures Agrees(ViewOf(ts, hs), FieldsHeld(ts, hs))
  {
    hide FieldsOf, NodesOf, Agrees;
    ViewAgrees(ts, hs, FieldsHeld(ts, hs));
  }

  /** No item of a view has a reference, and their strings are terminated. */
  ghost predicate AllProper(s: View) {
    (forall e | e in s.list :: e.item.proper) && forall e | e in s.hand :: e.item.proper
  }

  /** The items of a view are among these. */
  ghost predicate Within(s: View, items: set<Item>) {
    (forall e | e in s.list :: e.item in items) && forall e | e in s.hand :: e.item in items
  }

  ghost function ItemsHeld(s: View): (r: set<Item>)
    ensures Within(s, r)
  {
    (set e | e in s.list :: e.item) + set e | e in s.hand :: e.item
  }

  lemma StepWithin(s: View, op: Operation, ok: bool, items: set<Item>)
    requires Within(s, items)
    ensures Within(Step(s, op, ok), items)
  {
    hide FirstNamed;
  }

  /** A run makes no new items. */
  lemma {:induction false} RunWithin(s: View, ops: seq<Operation>, oks: seq<bool>, items: set<Item>)
    requires |ops| == |oks| && Within(s, items)
    ensures Within(Run(s, ops, oks), items)
    decreases |ops|
  {
    hide Step, Within;
    if ops != [] {
      StepWithin(s, ops[0], oks[0], items);
      RunWithin(Step(s, ops[0], oks[0]), ops[1..], oks[1..], items);
    }
  }

  lemma RunProper(s: View, ops: seq<Operation>, oks: seq<bool>)
    requires |ops| == |oks| && AllProper(s)
    ensures AllProper(Run(s, ops, oks))
  {
    RunWithin(s, ops, oks, ItemsHeld(s));
  }

  lemma {:induction false} ProperShown(ts: seq<Tree>)
    ensures ProperList(ts) <==> NamesTerminated(ts) && forall e | e in Entries(ts) :: e.item.proper
  {
    hide Proper, CString, Terminated;
    if ts != [] {
      ProperShown(ts[1..]);
      BareProper(ts[0]);
      assert Entries(ts) == [EntryOf(ts[0])] + Entries(ts[1..]);
      assert forall e | e in Entries(ts) :: e == EntryOf(ts[0]) || e in Entries(ts[1..]);
    }
  }

  lemma BareProper(t: Tree)
    ensures EntryOf(t).item.proper == Proper(t)
  {
    hide Value, Complete, FieldsOf, CString;
  }

  /** The items of a list are complete, and have names when they are to be members. */
  ghost predicate AllComplete(es: seq<Entry>, named: bool) {
    forall e | e in es :: e.item.complete && (named ==> e.name.Some?)
  }

  lemma {:induction false} CompleteShown(ts: seq<Tree>, named: bool)
    requires NamesTerminated(ts)
    ensures CompleteList(ts, named) <==> AllComplete(Entries(ts), named)
  {
    hide Complete, CString, Terminated;
    if ts != [] {
      CompleteShown(ts[1..], named);
      BareComplete(ts[0]);
      assert Entries(ts) == [EntryOf(ts[0])] + Entries(ts[1..]);
      assert forall e | e in Entries(ts) :: e == EntryOf(ts[0]) || e in Entries(ts[1..]);
      NameIsTerminated(ts[0]);
    }
  }

  lemma BareComplete(t: Tree)
    ensures EntryOf(t).item.complete == Complete(t) && (EntryOf(t).name.Some? <==> t.name != null)
  {
    hide Value, Proper, FieldsOf, CString;
  }

  lemma NameIsTerminated(t: Tree)
    ensures Terminated(t.name) ==> t.name != null
  {}

  // ---- one call, and runs of calls ----

  /** A name that the caller passes, a string of its own. */
  method Literal(s: string) returns (a: array<char>)
    requires '\0' !in s
    ensures fresh(a) && Terminated(a) && CString(a) == s
  {
    a := new char[|s| + 1](i requires 0 <= i <= |s| => if i < |s| then s[i] else '\0');
    TerminatedAt(a, |s|);
    assert a[..|s|] == s;
  }

  /** What the calls touch belongs to the list or to the hand. */
  lemma InFrame(list: Node, hand: seq<Node>, ts: seq<Tree>, hs: seq<Tree>)
    requires Arranged(list, hand, ts, hs)
    ensures |hand| == |hs| == |ViewOf(ts, hs).hand| && |ViewOf(ts, hs).list| == |ts|
    ensures Reached(list, hand, ts, hs, ViewOf(ts, hs))
    ensures forall k: nat :: Doomed(ts, k) <= Holdings(ts, hs)
    ensures forall j | 0 <= j < |hs| :: hand[j] in Holdings(ts, hs) && StringBlock(hs[j].name) <= Holdings(ts, hs)
  {
    hide Children, InHand, NamesTerminated, Blocks, BlocksOf, NodesOf, StringsOf, Entries;
    HandParts(hand, hs);
    forall k: nat | k < |ts| ensures Doomed(ts, k) <= Holdings(ts, hs) {
      BlocksWithin(ts, k);
    }
    forall j | 0 <= j < |hs| ensures hand[j] in Holdings(ts, hs) && StringBlock(hs[j].name) <= Holdings(ts, hs) {
      BlocksWithin(hs, j);
      NameWithin(hs[j]);
    }
  }

  lemma NameWithin(t: Tree)
    ensures StringBlock(t.name) <= Blocks(t)
  {}

  lemma NothingLost(was: set<object>, owned: set<object>)
    requires owned <= was
    ensures Balanced(was, was, owned, owned, {})
  {}

  method PerformAddNull(list: Node, hand: seq<Node>, ghost ts: seq<Tree>, ghost hs: seq<Tree>)
    requires Arranged(list, hand, ts, hs)
    modifies list`child, NodesOf(ts)`next
    ensures Reached(list, hand, ts, hs, old(ViewOf(ts, hs)))
  {
    LastNodeIn(ts);
    hide Alone, Children, InHand, NamesTerminated, NameTerminated, Arranged, Reached, Blocks, BlocksOf, NodesOf,
      StringsOf, NodesIn, Entries, SeparateList, ViewOf;
    StartOf(list, hand, ts, hs);
    ghost var s := ViewOf(ts, hs);
    Before(list, hand, ts, hs);
    assert allocated(NodesOf(ts)) && allocated(StringsOf(ts)) && allocated(NodesOf(hs)) && allocated(StringsOf(hs));
    assert allocated(BlocksOf(ts)) && allocated(BlocksOf(hs));
    AddItemToArray(list, null, Tree(list, null, null, []), ts, false);
    EndOf(list, hand, ts, hs, s);
  }

  method DoAdd(mem: Memory, list: Node, hand: seq<Node>, j: nat, ghost ts: seq<Tree>, ghost hs: seq<Tree>)
      returns (hand': seq<Node>, ghost ts': seq<Tree>, ghost hs': seq<Tree>)
    requires Arranged(list, hand, ts, hs) && Holdings(ts, hs) <= mem.live
    modifies list`child, Holdings(ts, hs)
    ensures Reached(list, hand', ts', hs', PutLast(old(ViewOf(ts, hs)), j, AsIs))
    ensures Holdings(ts', hs') == Holdings(ts, hs) && mem.live == old(mem.live) && mem.failures == old(mem.failures)
  {
    hide Alone, Children, InHand, NamesTerminated, NameTerminated, Arranged, Reached, Blocks, NodesOf,
      StringsOf, NodesIn, Entries, SeparateList, ViewOf, Without;
    InFrame(list, hand, ts, hs);
    hand', ts', hs' := hand, ts, hs;
    if j < |hand| {
      PerformAdd(list, hand, j, ts, hs);
      hand', ts', hs' := Without(hand, j), ts + [hs[j]], Without(hs, j);
    } else {
      PerformAddNull(list, hand, ts, hs);
    }
  }

  method PerformAddNamedNull(mem: Memory, list: Node, hand: seq<Node>, name: array<char>, ghost ts: seq<Tree>,
        ghost hs: seq<Tree>)
    requires Arranged(list, hand, ts, hs) && Terminated(name)
    modifies mem`live, mem`failures, list`child, NodesOf(ts)`next
    ensures Reached(list, hand, ts, hs, old(ViewOf(ts, hs)))
    ensures mem.live == old(mem.live) && mem.failures == old(mem.failures)
  {
    LastNodeIn(ts);
    hide Alone, Children, InHand, NamesTerminated, NameTerminated, Arranged, Reached, Blocks, BlocksOf, NodesOf,
      StringsOf, NodesIn, Entries, SeparateList, ViewOf;
    StartOf(list, hand, ts, hs);
    ghost var s := ViewOf(ts, hs);
    Before(list, hand, ts, hs);
    assert allocated(NodesOf(ts)) && allocated(StringsOf(ts)) && allocated(NodesOf(hs)) && allocated(StringsOf(hs));
    assert allocated(BlocksOf(ts)) && allocated(BlocksOf(hs));
    ghost var t := AddItemToObject(mem, list, name, null, Tree(list, null, null, []), ts);
    EndOf(list, hand, ts, hs, s);
  }

  method DoAddNamed(mem: Memory, list: Node, hand: seq<Node>, name: string, j: nat, ghost ts: seq<Tree>,
        ghost hs: seq<Tree>)
      returns (hand': seq<Node>, ghost ts': seq<Tree>, ghost hs': seq<Tree>)
    requires Arranged(list, hand, ts, hs) && Holdings(ts, hs) <= mem.live && '\0' !in name
    modifies mem`live, mem`failures, list`child, Holdings(ts, hs)
    ensures mem.failures >= old(mem.failures)
    ensures Reached(list, hand', ts', hs',
      PutLast(old(ViewOf(ts, hs)), j, NewName(name, mem.failures == old(mem.failures))))
    ensures Balanced(old(mem.live), mem.live, Holdings(ts, hs), Holdings(ts', hs'), {})
    ensures forall o | o in Holdings(ts', hs') :: o in Holdings(ts, hs) || fresh(o)
  {
    InFrame(list, hand, ts, hs);
    assert NodesOf(ts) <= Holdings(ts, hs);
    hide Alone, Children, InHand, NamesTerminated, NameTerminated, Arranged, Reached, Blocks, BlocksOf, NodesOf,
      Holdings, StringsOf, NodesIn, Entries, SeparateList, ViewOf, Without, Terminated, CString, Balanced, Value,
      StringsIn;
    NothingLost(mem.live, Holdings(ts, hs));
    assert allocated(NodesOf(ts)) && allocated(StringsOf(ts)) && allocated(NodesOf(hs)) && allocated(StringsOf(hs));
    assert allocated(BlocksOf(ts)) && allocated(BlocksOf(hs));
    assert allocated(mem.live);
    var a := Literal(name);
    hand', ts', hs' := hand, ts, hs;
    if j < |hand| {
      ghost var t' := PerformAddNamed(mem, list, hand, j, a, ts, hs);
      hand', ts', hs' := Without(hand, j), ts + [t'], Without(hs, j);
    } else {
      PerformAddNamedNull(mem, list, hand, a, ts, hs);
    }
  }

  method ReplaceByPosition(mem: Memory, list: Node, hand: seq<Node>, which: int, j: nat, ghost ts: seq<Tree>,
        ghost hs: seq<Tree>)
      returns (hand': seq<Node>, ghost ts': seq<Tree>, ghost hs': seq<Tree>)
    requires Arranged(list, hand, ts, hs) && Holdings(ts, hs) <= mem.live && j < |hand|
    modifies mem`live, list`child, Holdings(ts, hs)
    ensures mem.failures == old(mem.failures)
    ensures Reached(list, hand', ts', hs',
      PutAt(old(ViewOf(ts, hs)), Position(which), j, AsIs))
    ensures Holdings(ts', hs') <= Holdings(ts, hs)
    ensures Balanced(old(mem.live), mem.live, Holdings(ts, hs), Holdings(ts', hs'), {})
  {
    StartOf(list, hand, ts, hs);
    InFrame(list, hand, ts, hs);
    assert NodesOf(ts) <= Holdings(ts, hs);
    PutNowhere(ViewOf(ts, hs), Position(which), j, AsIs);
    hide Alone, Children, InHand, NamesTerminated, NameTerminated, Arranged, Reached, Blocks, BlocksOf, NodesOf,
      Holdings, StringsOf, NodesIn, Entries, SeparateList, ViewOf, Without, Terminated, CString, Balanced, Value,
      StringsIn, Position, StringBlock, Linked, Segment, AllAlone, Doomed, PutAt;
    NothingLost(mem.live, Holdings(ts, hs));
    assert allocated(NodesOf(ts)) && allocated(StringsOf(ts)) && allocated(NodesOf(hs)) && allocated(StringsOf(hs));
    assert allocated(BlocksOf(ts)) && allocated(BlocksOf(hs));
    var c := GetArrayItem(list, which, ts, false);
    if c != null {
      PerformReplace(mem, list, hand, which, j, ts, hs);
      return Without(hand, j), ts[Position(which) := hs[j]], Without(hs, j);
    }
    PerformReplaceNone(mem, list, hand, which, j, ts, hs);
    return hand, ts, hs;
  }

  lemma PutNowhere(s: View, k: nat, j: nat, naming: Naming)
    ensures k >= |s.list| || j >= |s.hand| ==> PutAt(s, k, j, naming) == s
  {}

  /** A null item is not passed: the code follows its links. */
  method DoReplace(mem: Memory, list: Node, hand: seq<Node>, which: int, j: nat, ghost ts: seq<Tree>,
        ghost hs: seq<Tree>)
      returns (hand': seq<Node>, ghost ts': seq<Tree>, ghost hs': seq<Tree>)
    requires Arranged(list, hand, ts, hs) && Holdings(ts, hs) <= mem.live
    modifies mem`live, list`child, Holdings(ts, hs)
    ensures mem.failures == old(mem.failures)
    ensures Reached(list, hand', ts', hs',
      PutAt(old(ViewOf(ts, hs)), Position(which), j, AsIs))
    ensures Holdings(ts', hs') <= Holdings(ts, hs)
    ensures Balanced(old(mem.live), mem.live, Holdings(ts, hs), Holdings(ts', hs'), {})
  {
    if j < |hand| {
      hand', ts', hs' := ReplaceByPosition(mem, list, hand, which, j, ts, hs);
    } else {
      InFrame(list, hand, ts, hs);
      NothingLost(mem.live, Holdings(ts, hs));
      PutNowhere(ViewOf(ts, hs), Position(which), j, AsIs);
      hand', ts', hs' := hand, ts, hs;
    }
  }

  lemma NameHeld(list: Node, hand: seq<Node>, ts: seq<Tree>, hs: seq<Tree>, j: nat)
    requires Arranged(list, hand, ts, hs) && j < |hs| == |ViewOf(ts, hs).hand|
    ensures |StringBlock(hs[j].name)| == if ViewOf(ts, hs).hand[j].name.Some? then 1 else 0
  {
    hide InHand, NamesTerminated, NameTerminated, BlocksOf, Blocks, Segment, SeparateList, Entries, Alone, Value;
    TakenFromHand(hand, hs, j);
  }

  lemma ReplaceFrame(list: Node, hand: seq<Node>, ts: seq<Tree>, hs: seq<Tree>, name: array<char>, j: nat)
    requires Arranged(list, hand, ts, hs) && j < |hand| == |hs|
    ensures Children(list, ts, false) && NamesTerminated(ts) && NodesOf(ts) <= Holdings(ts, hs)
    ensures hand[j] in Holdings(ts, hs) && Doomed(ts, PositionOf(ts, name)) <= Holdings(ts, hs)
  {
    StartOf(list, hand, ts, hs);
    InFrame(list, hand, ts, hs);
  }

  method ReplaceByName(mem: Memory, list: Node, hand: seq<Node>, name: array<char>, j: nat, ghost ts: seq<Tree>,
        ghost hs: seq<Tree>)
      returns (hand': seq<Node>, ghost ts': seq<Tree>, ghost hs': seq<Tree>, ghost lost: set<object>)
    requires Arranged(list, hand, ts, hs) && j < |hand| == |hs| && Holdings(ts, hs) <= mem.live && Terminated(name)
    modifies mem`live, mem`failures, list`child, Holdings(ts, hs)
    ensures mem.failures >= old(mem.failures)
    ensures Reached(list, hand', ts', hs',
      PutAt(old(ViewOf(ts, hs)), old(PositionOf(ts, name)), j,
        NewName(old(CString(name)), mem.failures == old(mem.failures))))
    ensures Balanced(old(mem.live), mem.live, Holdings(ts, hs), Holdings(ts', hs'), lost)
    ensures lost == if old(PositionOf(ts, name)) < |ts| then StringBlock(hs[j].name) else {}
    ensures forall o | o in Holdings(ts', hs') :: o in Holdings(ts, hs) || fresh(o)
  {
    hide Alone, Children, InHand, NamesTerminated, NameTerminated, Arranged, Reached, Blocks, BlocksOf, NodesOf,
      Holdings, StringsOf, NodesIn, Entries, SeparateList, ViewOf, Without, Terminated, CString, Balanced, Value,
      StringsIn, PositionOf, PutAt, NewName, StringBlock, Linked, Segment, AllAlone, Lower, Doomed;
    ReplaceFrame(list, hand, ts, hs, name, j);
    assert allocated(NodesOf(ts)) && allocated(StringsOf(ts)) && allocated(NodesOf(hs)) && allocated(StringsOf(hs));
    assert allocated(BlocksOf(ts)) && allocated(BlocksOf(hs));
    var c := GetObjectItem(list, name, ts, false);
    if c != null {
      hand', ts', hs', lost := PerformReplaceNamed(mem, list, hand, name, j, ts, hs);
    } else {
      hand', ts', hs', lost := PerformReplaceNamedNone(mem, list, hand, name, j, ts, hs);
    }
  }

  /** The search for a name to replace is the same among the entries, and so is what is lost. */
  lemma ReplaceNamedIs(list: Node, hand: seq<Node>, ts: seq<Tree>, hs: seq<Tree>, a: array<char>, name: string, j: nat)
    requires Arranged(list, hand, ts, hs) && j < |hand| == |hs| && CString(a) == name
    ensures FirstNamed(ViewOf(ts, hs).list, Some(name)) == PositionOf(ts, a)
    ensures Leaked(ViewOf(ts, hs), ReplaceNamed(name, j))
         == if PositionOf(ts, a) < |ts| then |StringBlock(hs[j].name)| else 0
  {
    InFrame(list, hand, ts, hs);
    hide Arranged, ViewOf, CString, FirstNamed, PositionOf, Entries, StringBlock;
    PositionShown(ts, a);
    Before(list, hand, ts, hs);
    NameHeld(list, hand, ts, hs, j);
  }

  lemma NothingReplaced(s: View, name: string, j: nat, ok: bool)
    requires j >= |s.hand|
    ensures PutAt(s, FirstNamed(s.list, Some(name)), j, NewName(name, ok)) == s && Leaked(s, ReplaceNamed(name, j)) == 0
  {}

  method ReplaceLiteral(mem: Memory, list: Node, hand: seq<Node>, name: string, j: nat, ghost ts: seq<Tree>,
        ghost hs: seq<Tree>)
      returns (hand': seq<Node>, ghost ts': seq<Tree>, ghost hs': seq<Tree>, ghost lost: set<object>)
    requires Arranged(list, hand, ts, hs) && Holdings(ts, hs) <= mem.live && '\0' !in name && j < |hand| == |hs|
    modifies mem`live, mem`failures, list`child, Holdings(ts, hs)
    ensures mem.failures >= old(mem.failures)
    ensures Reached(list, hand', ts', hs',
      PutAt(old(ViewOf(ts, hs)), old(FirstNamed(ViewOf(ts, hs).list, Some(name))), j,
        NewName(name, mem.failures == old(mem.failures))))
    ensures Balanced(old(mem.live), mem.live, Holdings(ts, hs), Holdings(ts', hs'), lost)
    ensures |lost| == Leaked(old(ViewOf(ts, hs)), ReplaceNamed(name, j))
    ensures forall o | o in Holdings(ts', hs') :: o in Holdings(ts, hs) || fresh(o)
  {
    hide Arranged, Reached, BlocksOf, NodesOf, StringsOf, Holdings, ViewOf, Terminated, CString, Balanced, FirstNamed,
      Leaked, PositionOf, Entries, PutAt, NewName, StringBlock;
    assert allocated(NodesOf(ts)) && allocated(StringsOf(ts)) && allocated(NodesOf(hs)) && allocated(StringsOf(hs));
    assert allocated(BlocksOf(ts)) && allocated(BlocksOf(hs)) && allocated(Holdings(ts, hs)) && allocated(mem.live);
    var a := Literal(name);
    ReplaceNamedIs(list, hand, ts, hs, a, name, j);
    hand', ts', hs', lost := ReplaceByName(mem, list, hand, a, j, ts, hs);
  }

  method DoReplaceNamed(mem: Memory, list: Node, hand: seq<Node>, name: string, j: nat, ghost ts: seq<Tree>,
        ghost hs: seq<Tree>)
      returns (hand': seq<Node>, ghost ts': seq<Tree>, ghost hs': seq<Tree>, ghost lost: set<object>)
    requires Arranged(list, hand, ts, hs) && Holdings(ts, hs) <= mem.live && '\0' !in name
    modifies mem`live, mem`failures, list`child, Holdings(ts, hs)
    ensures mem.failures >= old(mem.failures)
    ensures Reached(list, hand', ts', hs',
      PutAt(old(ViewOf(ts, hs)), old(FirstNamed(ViewOf(ts, hs).list, Some(name))), j,
        NewName(name, mem.failures == old(mem.failures))))
    ensures Balanced(old(mem.live), mem.live, Holdings(ts, hs), Holdings(ts', hs'), lost)
    ensures |lost| == Leaked(old(ViewOf(ts, hs)), ReplaceNamed(name, j))
    ensures forall o | o in Holdings(ts', hs') :: o in Holdings(ts, hs) || fresh(o)
  {
    InFrame(list, hand, ts, hs);
    hide Arranged, Reached, Holdings, ViewOf, Balanced, FirstNamed, Leaked, PutAt, NewName;
    if j < |hand| {
      hand', ts', hs', lost := ReplaceLiteral(mem, list, hand, name, j, ts, hs);
    } else {
      NothingLost(mem.live, Holdings(ts, hs));
      NothingReplaced(ViewOf(ts, hs), name, j, true);
      hand', ts', hs', lost := hand, ts, hs, {};
    }
  }

  /** A name that the caller passes, or null. */
  method LiteralOrNull(key: Option<string>) returns (a: array?<char>)
    requires key.Some? ==> '\0' !in key.value
    ensures a != null ==> fresh(a) && Terminated(a)
    ensures Key(a) == key
  {
    hide CString, Terminated;
    a := null;
    if key.Some? {
      a := Literal(key.value);
    }
  }

  method DoDetachNamed(list: Node, hand: seq<Node>, key: Option<string>, ghost ts: seq<Tree>, ghost hs: seq<Tree>)
      returns (hand': seq<Node>, ghost ts': seq<Tree>, ghost hs': seq<Tree>)
    requires Arranged(list, hand, ts, hs) && (key.Some? ==> '\0' !in key.value)
    modifies list`child, NodesOf(ts)`next, NodesOf(ts)`prev
    ensures Reached(list, hand', ts', hs', old(Step(ViewOf(ts, hs), DetachNamed(key), true)))
    ensures Holdings(ts', hs') == Holdings(ts, hs)
  {
    hide Arranged, Reached, BlocksOf, NodesOf, StringsOf, Entries, ViewOf, Terminated, Key, FirstNamed;
    Before(list, hand, ts, hs);
    assert allocated(NodesOf(ts)) && allocated(StringsOf(ts)) && allocated(Holdings(ts, hs));
    var a := LiteralOrNull(key);
    hand', ts', hs' := PerformDetachNamed(list, hand, a, ts, hs);
  }

  method DoDeleteNamed(mem: Memory, list: Node, hand: seq<Node>, key: Option<string>, ghost ts: seq<Tree>,
        ghost hs: seq<Tree>)
      returns (ghost ts': seq<Tree>)
    requires Arranged(list, hand, ts, hs) && Holdings(ts, hs) <= mem.live && (key.Some? ==> '\0' !in key.value)
    modifies mem`live, list`child, Holdings(ts, hs)
    ensures Reached(list, hand, ts', hs, old(Lose(ViewOf(ts, hs), FirstNamed(ViewOf(ts, hs).list, key))))
    ensures Holdings(ts', hs) <= Holdings(ts, hs)
    ensures Balanced(old(mem.live), mem.live, Holdings(ts, hs), Holdings(ts', hs), {})
    ensures mem.failures == old(mem.failures)
  {
    assert NodesOf(ts) <= Holdings(ts, hs);
    hide Arranged, Reached, BlocksOf, NodesOf, StringsOf, Entries, ViewOf, Terminated, Key, FirstNamed, Balanced,
      Holdings, PositionOf, Doomed, Lower, CString, Lose;
    Before(list, hand, ts, hs);
    assert allocated(NodesOf(ts)) && allocated(StringsOf(ts)) && allocated(Holdings(ts, hs)) && allocated(mem.live);
    var a := LiteralOrNull(key);
    assert Doomed(ts, PositionOf(ts, a)) <= Holdings(ts, hs) by {
      InFrame(list, hand, ts, hs);
    }
    ts' := PerformDeleteNamed(mem, list, hand, a, ts, hs);
  }

  /** C strings only. */
  predicate Speakable(op: Operation) {
    match op
    case AddNamed(name, _) => '\0' !in name
    case ReplaceNamed(name, _) => '\0' !in name
    case DetachNamed(key) => key.Some? ==> '\0' !in key.value
    case DeleteNamed(key) => key.Some? ==> '\0' !in key.value
    case _ => true
  }

  predicate Named(op: Operation) {
    op.AddNamed? || op.DetachNamed? || op.DeleteNamed? || op.ReplaceNamed?
  }

  method PerformByPosition(mem: Memory, list: Node, hand: seq<Node>, op: Operation, ghost ts: seq<Tree>,
        ghost hs: seq<Tree>)
      returns (hand': seq<Node>, ghost ts': seq<Tree>, ghost hs': seq<Tree>, ghost lost: set<object>)
    requires Arranged(list, hand, ts, hs) && Holdings(ts, hs) <= mem.live && Speakable(op) && !Named(op)
    modifies mem`live, mem`failures, list`child, Holdings(ts, hs)
    ensures mem.failures >= old(mem.failures)
    ensures Reached(list, hand', ts', hs', Step(old(ViewOf(ts, hs)), op, mem.failures == old(mem.failures)))
    ensures Balanced(old(mem.live), mem.live, Holdings(ts, hs), Holdings(ts', hs'), lost)
    ensures |lost| == Leaked(old(ViewOf(ts, hs)), op)
    ensures forall o | o in Holdings(ts', hs') :: o in Holdings(ts, hs) || fresh(o)
  {
    NothingLost(mem.live, Holdings(ts, hs));
    assert NodesOf(ts) <= Holdings(ts, hs);
    hide Arranged, Reached, BlocksOf, NodesOf, Holdings, Balanced, ViewOf, FirstNamed, PutAt, PutLast, TakeOut, Lose,
      NewName;
    hand', ts', hs', lost := hand, ts, hs, {};
    match op
    case Add(j) =>
      hand', ts', hs' := DoAdd(mem, list, hand, j, ts, hs);
    case Detach(which) =>
      hand', ts', hs' := PerformDetach(list, hand, which, ts, hs);
    case Delete(which) =>
      assert Doomed(ts, Position(which)) <= Holdings(ts, hs) by {
        InFrame(list, hand, ts, hs);
      }
      ts' := PerformDelete(mem, list, hand, which, ts, hs);
    case Replace(which, j) =>
      hand', ts', hs' := DoReplace(mem, list, hand, which, j, ts, hs);
  }

  method PerformByName(mem: Memory, list: Node, hand: seq<Node>, op: Operation, ghost ts: seq<Tree>,
        ghost hs: seq<Tree>)
      returns (hand': seq<Node>, ghost ts': seq<Tree>, ghost hs': seq<Tree>, ghost lost: set<object>)
    requires Arranged(list, hand, ts, hs) && Holdings(ts, hs) <= mem.live && Speakable(op) && Named(op)
    modifies mem`live, mem`failures, list`child, Holdings(ts, hs)
    ensures mem.failures >= old(mem.failures)
    ensures Reached(list, hand', ts', hs', Step(old(ViewOf(ts, hs)), op, mem.failures == old(mem.failures)))
    ensures Balanced(old(mem.live), mem.live, Holdings(ts, hs), Holdings(ts', hs'), lost)
    ensures |lost| == Leaked(old(ViewOf(ts, hs)), op)
    ensures forall o | o in Holdings(ts', hs') :: o in Holdings(ts, hs) || fresh(o)
  {
    NothingLost(mem.live, Holdings(ts, hs));
    assert NodesOf(ts) <= Holdings(ts, hs);
    hide Arranged, Reached, BlocksOf, NodesOf, Holdings, Balanced, ViewOf, FirstNamed, PutAt, PutLast, TakeOut, Lose,
      NewName;
    hand', ts', hs', lost := hand, ts, hs, {};
    match op
    case AddNamed(name, j) =>
      hand', ts', hs' := DoAddNamed(mem, list, hand, name, j, ts, hs);
    case DetachNamed(key) =>
      hand', ts', hs' := DoDetachNamed(list, hand, key, ts, hs);
    case DeleteNamed(key) =>
      ts' := DoDeleteNamed(mem, list, hand, key, ts, hs);
    case ReplaceNamed(name, j) =>
      hand', ts', hs', lost := DoReplaceNamed(mem, list, hand, name, j, ts, hs);
  }

  method PerformCall(mem: Memory, list: Node, hand: seq<Node>, op: Operation, ghost ts: seq<Tree>, ghost hs: seq<Tree>)
      returns (hand': seq<Node>, ghost ts': seq<Tree>, ghost hs': seq<Tree>, ghost lost: set<object>)
    requires Arranged(list, hand, ts, hs) && Holdings(ts, hs) <= mem.live && Speakable(op)
    modifies mem`live, mem`failures, list`child, Holdings(ts, hs)
    ensures mem.failures >= old(mem.failures)
    ensures Reached(list, hand', ts', hs', Step(old(ViewOf(ts, hs)), op, mem.failures == old(mem.failures)))
    ensures Balanced(old(mem.live), mem.live, Holdings(ts, hs), Holdings(ts', hs'), lost)
    ensures |lost| == Leaked(old(ViewOf(ts, hs)), op)
    ensures forall o | o in Holdings(ts', hs') :: o in Holdings(ts, hs) || fresh(o)
  {
    if Named(op) {
      hand', ts', hs', lost := PerformByName(mem, list, hand, op, ts, hs);
    } else {
      hand', ts', hs', lost := PerformByPosition(mem, list, hand, op, ts, hs);
    }
  }

  /** One call, with its allocations succeeding or failing: the list and the hand are again what they were before, the
      entries have changed as Step says, and but for the name that a replacement by name loses, what is live has changed
      as the trees have. */
  method Perform(mem: Memory, list: Node, hand: seq<Node>, op: Operation, ghost ts: seq<Tree>, ghost hs: seq<Tree>)
      returns (hand': seq<Node>, ghost ts': seq<Tree>, ghost hs': seq<Tree>, ghost lost: set<object>)
    requires Arranged(list, hand, ts, hs) && Holdings(ts, hs) <= mem.live && Speakable(op)
    modifies mem`live, mem`failures, list`child, Holdings(ts, hs)
    ensures mem.failures >= old(mem.failures)
    ensures Reached(list, hand', ts', hs', Step(old(ViewOf(ts, hs)), op, mem.failures == old(mem.failures)))
    ensures Survive(ts, hs, ts', hs')
    ensures Balanced(old(mem.live), mem.live, Holdings(ts, hs), Holdings(ts', hs'), lost)
    ensures |lost| == Leaked(old(ViewOf(ts, hs)), op)
    ensures forall o | o in Holdings(ts', hs') :: o in Holdings(ts, hs) || fresh(o)
  {
    hide Arranged, Reached, Holdings, Balanced, ViewOf, Step, Leaked, Speakable, Agrees, NodesOf, FieldsOf;
    assert allocated(NodesOf(ts)) && allocated(NodesOf(hs));
    ghost var m, s := FieldsHeld(ts, hs), ViewOf(ts, hs);
    ViewHeld(ts, hs);
    hand', ts', hs', lost := PerformCall(mem, list, hand, op, ts, hs);
    StepAgrees(s, op, mem.failures == old(mem.failures), m);
    ReachedMeans(list, hand', ts', hs', Step(s, op, mem.failures == old(mem.failures)));
    ViewAgrees(ts', hs', m);
  }


  lemma BalancedThen(was: set<object>, mid: set<object>, end: set<object>, o0: set<object>, o1: set<object>,
        o2: set<object>, l1: set<object>, l2: set<object>)
    requires Balanced(was, mid, o0, o1, l1) && Balanced(mid, end, o1, o2, l2) && o0 <= was
    ensures Balanced(was, end, o0, o2, l1 + l2) && |l1 + l2| == |l1| + |l2|
  {
    assert l1 !! l2;
  }

  lemma BalancedLive(was: set<object>, live: set<object>, owned: set<object>, owned': set<object>, lost: set<object>)
    requires Balanced(was, live, owned, owned', lost)
    ensures owned' <= live
  {}

  lemma ReachedMeans(list: Node, hand: seq<Node>, ts: seq<Tree>, hs: seq<Tree>, s: View)
    requires Reached(list, hand, ts, hs, s)
    ensures Arranged(list, hand, ts, hs) && ViewOf(ts, hs) == s && NamesTerminated(ts)
  {}

  /** Calls one after the other. */
  method PerformAll(mem: Memory, list: Node, hand: seq<Node>, ops: seq<Operation>, ghost ts: seq<Tree>,
        ghost hs: seq<Tree>)
      returns (hand': seq<Node>, ghost ts': seq<Tree>, ghost hs': seq<Tree>, ghost oks: seq<bool>,
        ghost lost: set<object>)
    requires Arranged(list, hand, ts, hs) && Holdings(ts, hs) <= mem.live && forall op | op in ops :: Speakable(op)
    modifies mem`live, mem`failures, list`child, Holdings(ts, hs)
    ensures mem.failures >= old(mem.failures)
    ensures |oks| == |ops| && (mem.failures == old(mem.failures) <==> false !in oks)
    ensures Reached(list, hand', ts', hs', Run(old(ViewOf(ts, hs)), ops, oks))
    ensures Balanced(old(mem.live), mem.live, Holdings(ts, hs), Holdings(ts', hs'), lost)
    ensures |lost| == LeakedBy(old(ViewOf(ts, hs)), ops, oks)
    ensures Survive(ts, hs, ts', hs') && forall o | o in Holdings(ts', hs') :: o in Holdings(ts, hs) || fresh(o)
    decreases |ops|
  {
    hide Arranged, Reached, Holdings, ViewOf, Balanced, Step, Leaked, Speakable, NodesOf, FieldsOf;
    if ops == [] {
      NothingLost(mem.live, Holdings(ts, hs));
      ReachedNow(list, hand, ts, hs);
      assert allocated(NodesOf(ts)) && allocated(NodesOf(hs));
      return hand, ts, hs, [], {};
    }
    ghost var was := mem.live;
    ghost var ts1, hs1, lost1;
    hand', ts1, hs1, lost1 := Perform(mem, list, hand, ops[0], ts, hs);
    ghost var ok, s1, mid := mem.failures == old(mem.failures), ViewOf(ts1, hs1), mem.live;
    ReachedMeans(list, hand', ts1, hs1, Step(old(ViewOf(ts, hs)), ops[0], ok));
    BalancedLive(was, mid, Holdings(ts, hs), Holdings(ts1, hs1), lost1);
    ghost var lost2;
    hand', ts', hs', oks, lost2 := PerformAll(mem, list, hand', ops[1..], ts1, hs1);
    BalancedThen(was, mid, mem.live, Holdings(ts, hs), Holdings(ts1, hs1), Holdings(ts', hs'), lost1, lost2);
    oks, lost := [ok] + oks, lost1 + lost2;
  }

  lemma ReachedNow(list: Node, hand: seq<Node>, ts: seq<Tree>, hs: seq<Tree>)
    requires Arranged(list, hand, ts, hs)
    ensures Reached(list, hand, ts, hs, ViewOf(ts, hs))
  {}

  /** The parent's own blocks, beside those of its list and of the hand. */
  ghost function OwnBlocks(t: Tree): set<object> {
    {t.node} + StringBlock(t.value) + StringBlock(t.name)
  }

  lemma BeforeRun(t: Tree, hand: seq<Node>, hs: seq<Tree>)
    requires Linked(t, false) && Separate(t) && !t.node.isReference
    requires NamesTerminated(t.kids) && InHand(hand, hs) && Blocks(t) !! BlocksOf(hs)
    ensures Arranged(t.node, hand, t.kids, hs) && ViewOf(t.kids, hs) == View(Entries(t.kids), Entries(hs))
    ensures Blocks(t) + BlocksOf(hs) == OwnBlocks(t) + Holdings(t.kids, hs) && OwnBlocks(t) !! Holdings(t.kids, hs)
    ensures Proper(t) && ProperList(hs) ==> AllProper(ViewOf(t.kids, hs)) && (t.value != null ==> Terminated(t.value))
    ensures t.node.name == t.name && t.node.valuestring == t.value && StringBlock(t.value) !! StringBlock(t.name)
    ensures t.value != null ==> t.value in OwnBlocks(t) && t.value !in Holdings(t.kids, hs)
  {
    ChildrenOf(t, false);
    assert OwnBlocks(t) !! BlocksOf(t.kids);
    ProperShown(t.kids);
    ProperShown(hs);
    hide InHand, Linked, Separate, NamesTerminated, Children, BlocksOf;
  }

  lemma AfterRun(t: Tree, hand: seq<Node>, ts: seq<Tree>, hs: seq<Tree>, owned: set<object>, was: set<object>,
        live: set<object>, lost: set<object>)
    requires Arranged(t.node, hand, ts, hs) && t.node.name == t.name && t.node.valuestring == t.value
    requires !t.node.isReference && StringBlock(t.value) !! StringBlock(t.name)
    requires OwnBlocks(t) !! owned && OwnBlocks(t) + owned <= was && Balanced(was, live, owned, Holdings(ts, hs), lost)
    ensures Linked(t.(kids := ts), false) && Separate(t.(kids := ts)) && InHand(hand, hs)
    ensures Blocks(t.(kids := ts)) !! BlocksOf(hs)
    ensures live == was - (OwnBlocks(t) + owned) + Blocks(t.(kids := ts)) + BlocksOf(hs) + lost
    ensures lost !! Blocks(t.(kids := ts)) + BlocksOf(hs)
    ensures Blocks(t.(kids := ts)) + BlocksOf(hs) == OwnBlocks(t) + Holdings(ts, hs)
  {
    assert OwnBlocks(t) !! BlocksOf(ts) + BlocksOf(hs) + lost;
    hide InHand, NamesTerminated, BlocksOf, Entries, Items, Members;
    ParentOf(t, ts, false);
  }

  /** The value of the parent after a run. */
  lemma AfterRunShows(t: Tree, hand: seq<Node>, ts: seq<Tree>, hs: seq<Tree>, s: View)
    requires Reached(t.node, hand, ts, hs, s)
    ensures t.node.kind == ARRAY ==> Value(t.(kids := ts)) == Array(ItemsIn(s.list))
    ensures t.node.kind == OBJECT ==> Value(t.(kids := ts)) == Object(MembersIn(s.list))
    ensures t.node.kind == ARRAY ==> (Complete(t.(kids := ts)) <==> AllComplete(s.list, false))
    ensures t.node.kind == OBJECT ==> (Complete(t.(kids := ts)) <==> AllComplete(s.list, true))
  {
    hide Reached, NamesTerminated, Entries, Items, Members, CompleteList, AllComplete, BlocksOf, NodesOf, StringsOf;
    ReachedLists(t.node, hand, ts, hs, s);
    EntriesShow(ts);
    CompleteShown(ts, t.node.kind == OBJECT);
  }

  /** Without references, what is followed is what is owned. */
  lemma AfterRunProper(t: Tree, hand: seq<Node>, ts: seq<Tree>, hs: seq<Tree>, s: View)
    requires Reached(t.node, hand, ts, hs, s) && Linked(t.(kids := ts), false) && !t.node.isReference
    requires AllProper(s) && (t.value != null ==> Terminated(t.value))
    ensures Proper(t.(kids := ts)) && ProperList(hs) && Linked(t.(kids := ts), true)
  {
    ReachedLists(t.node, hand, ts, hs, s);
    hide Reached, NamesTerminated, Entries, Terminated, Linked;
    ProperShown(ts);
    ProperShown(hs);
    ProperFollows(t.(kids := ts));
  }

  lemma ReachedLists(list: Node, hand: seq<Node>, ts: seq<Tree>, hs: seq<Tree>, s: View)
    requires Reached(list, hand, ts, hs, s)
    ensures NamesTerminated(ts) && NamesTerminated(hs) && s.list == Entries(ts) && s.hand == Entries(hs)
  {
    hide Children, NamesTerminated, Entries;
  }

  lemma ListOutside(list: Node, hand: seq<Node>, ts: seq<Tree>, hs: seq<Tree>)
    requires Arranged(list, hand, ts, hs)
    ensures list !in Holdings(ts, hs)
  {
    hide InHand, NamesTerminated, BlocksOf;
  }

  /** A run of calls leaves the fields of the parent alone, but for the head of the list. */
  method RunBelow(mem: Memory, list: Node, hand: seq<Node>, ops: seq<Operation>, ghost ts: seq<Tree>,
        ghost hs: seq<Tree>)
      returns (hand': seq<Node>, ghost ts': seq<Tree>, ghost hs': seq<Tree>, ghost oks: seq<bool>,
        ghost lost: set<object>)
    requires Arranged(list, hand, ts, hs) && Holdings(ts, hs) <= mem.live && forall op | op in ops :: Speakable(op)
    modifies mem`live, mem`failures, list`child, Holdings(ts, hs)
    ensures mem.failures >= old(mem.failures)
    ensures |oks| == |ops| && (mem.failures == old(mem.failures) <==> false !in oks)
    ensures Reached(list, hand', ts', hs', Run(old(ViewOf(ts, hs)), ops, oks))
    ensures Balanced(old(mem.live), mem.live, Holdings(ts, hs), Holdings(ts', hs'), lost)
    ensures |lost| == LeakedBy(old(ViewOf(ts, hs)), ops, oks)
    ensures Survive(ts, hs, ts', hs') && forall o | o in Holdings(ts', hs') :: o in Holdings(ts, hs) || fresh(o)
    ensures list.kind == old(list.kind) && list.name == old(list.name) && list.valuestring == old(list.valuestring)
    ensures list.isReference == old(list.isReference)
  {
    hide Arranged, Reached, Holdings, ViewOf, Balanced, Run, LeakedBy, Speakable, NodesOf, FieldsOf, Survive;
    ListOutside(list, hand, ts, hs);
    hand', ts', hs', oks, lost := PerformAll(mem, list, hand, ops, ts, hs);
  }

  /** A run of calls on the list of an array or an object. The node is again the root of a well-linked tree, which
      shares nothing with what is in hand. Its children are the entries that the run makes of the sequence of its
      entries, each with the nodes and fields that it had; without references, that is what the node shows. What is live
      has changed as the trees have, but for the names that replacements by name lose. */
  method RunOn(mem: Memory, hand: seq<Node>, parent: Node, ops: seq<Operation>, ghost t: Tree, ghost hs: seq<Tree>)
      returns (hand': seq<Node>, ghost ts': seq<Tree>, ghost hs': seq<Tree>, ghost oks: seq<bool>, ghost end: View,
        ghost lost: set<object>)
    requires parent == t.node && Linked(t, false) && Separate(t) && !t.node.isReference
    requires NamesTerminated(t.kids) && InHand(hand, hs) && Blocks(t) !! BlocksOf(hs)
    requires Blocks(t) + BlocksOf(hs) <= mem.live && forall op | op in ops :: Speakable(op)
    modifies mem`live, mem`failures, parent`child, Holdings(t.kids, hs)
    ensures Linked(t.(kids := ts'), false) && Separate(t.(kids := ts')) && InHand(hand', hs')
    ensures NamesTerminated(ts') && Blocks(t.(kids := ts')) !! BlocksOf(hs')
    ensures mem.failures >= old(mem.failures)
    ensures |oks| == |ops| && (mem.failures == old(mem.failures) <==> false !in oks)
    ensures end == Run(old(ViewOf(t.kids, hs)), ops, oks) && ViewOf(ts', hs') == end
    ensures Survive(t.kids, hs, ts', hs')
    ensures parent.kind == old(parent.kind) && !parent.isReference
    ensures old(Proper(t) && ProperList(hs)) ==> Proper(t.(kids := ts')) && ProperList(hs')
    ensures old(Proper(t) && ProperList(hs)) ==> Linked(t.(kids := ts'), true)
    ensures old(Proper(t) && ProperList(hs)) && parent.kind == ARRAY ==>
      Value(t.(kids := ts')) == Array(ItemsIn(end.list))
    ensures old(Proper(t) && ProperList(hs)) && parent.kind == OBJECT ==>
      Value(t.(kids := ts')) == Object(MembersIn(end.list))
    ensures parent.kind == ARRAY ==> (Complete(t.(kids := ts')) <==> AllComplete(end.list, false))
    ensures parent.kind == OBJECT ==> (Complete(t.(kids := ts')) <==> AllComplete(end.list, true))
    ensures mem.live
         == old(mem.live) - (Blocks(t) + BlocksOf(hs)) + Blocks(t.(kids := ts')) + BlocksOf(hs') + lost
    ensures lost !! Blocks(t.(kids := ts')) + BlocksOf(hs')
    ensures |lost| == LeakedBy(old(ViewOf(t.kids, hs)), ops, oks)
    ensures forall o | o in Blocks(t.(kids := ts')) + BlocksOf(hs') :: o in Blocks(t) + BlocksOf(hs) || fresh(o)
  {
    hide Linked, Separate, Blocks, InHand, Arranged, Reached, Holdings, ViewOf, Balanced, Speakable, Value,
      NamesTerminated, Run, LeakedBy, OwnBlocks, Proper, ProperList, Complete, Survive, AllProper, AllComplete,
      Terminated;
    BeforeRun(t, hand, hs);
    assert allocated(t.value);
    ghost var was, s := mem.live, ViewOf(t.kids, hs);
    hand', ts', hs', oks, lost := RunBelow(mem, parent, hand, ops, t.kids, hs);
    end := Run(s, ops, oks);
    ReachedMeans(parent, hand', ts', hs', end);
    AfterRun(t, hand', ts', hs', Holdings(t.kids, hs), was, mem.live, lost);
    AfterRunShows(t, hand', ts', hs', end);
    if old(Proper(t) && ProperList(hs)) {
      RunProper(s, ops, oks);
      AfterRunProper(t, hand', ts', hs', end);
    }
  }
}
