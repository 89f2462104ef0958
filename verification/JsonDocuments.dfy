/** Documents from text to text: what the parser leaves can be printed, copied and edited, and what comes out is
    described by the functions on texts and values. */
module JsonDocuments {
  import opened CText
  import opened Json
  import opened Nodes
  import opened JsonLists
  import opened JsonParser
  import opened JsonPrinter
  import opened JsonDuplicate
  import opened JsonRuns

  /** Parsing, printing and deleting. On a text that is JSON the new text is the print of the value that is parsed. But
      for it, nothing is left. */
  method Reprint(mem: Memory, text: array<char>, requireNullTerminated: bool, fmt: bool, ghost s: string)
      returns (out: array?<char>)
    requires Holds(text, s) && !ParseWithOpts(s, requireNullTerminated).Truncated?
    requires ParseWithOpts(s, requireNullTerminated).Accepted? ==>
      Printable(ParseWithOpts(s, requireNullTerminated).value)
    modifies mem
    ensures out == null <==> ParseWithOpts(s, requireNullTerminated).Rejected? || mem.failures > old(mem.failures)
    ensures mem.live == old(mem.live) + StringBlock(out) && StringBlock(out) !! old(mem.live)
    ensures out != null ==> Terminated(out)
    ensures out != null ==> CString(out) == PrintValue(ParseWithOpts(s, requireNullTerminated).value, 0, fmt)
  {
    hide Skip, ParseValue, Holds, Linked, Separate, Complete, Value, Blocks, BlocksOf, Segment, SeparateList, NodesIn,
      NodesOf, StringsIn, ParseWithOpts, Proper, StringsTerminated, Printable, PrintValue, BufferSize, CString,
      Terminated;
    var c, end;
    ghost var t;
    c, end, t := ParseDocument(mem, text, requireNullTerminated, s);
    if c == null {
      return null;
    }
    DocumentApart(t, mem);
    assert allocated(NodesOf(t)) && allocated(BlocksOf(t));
    out := Print(mem, c, fmt, t[0]);
    Nodes.Delete(mem, c, null, t);
  }

  lemma DocumentApart(t: seq<Tree>, mem: Memory)
    requires |t| == 1
    ensures BlocksOf(t) == Blocks(t[0]) && mem !in BlocksOf(t)
  {
    ListTyped(t, mem);
    hide Blocks;
    assert t[1..] == [];
  }

  /** The print of a copy is that of the original. */
  method PrintCopy(mem: Memory, item: Node, fmt: bool, ghost t: Tree) returns (out: array?<char>)
    requires item == t.node && Linked(t, true) && StringsTerminated(t) && Complete(t) && Printable(Value(t))
    modifies mem`live, mem`failures
    ensures out == null <==> mem.failures > old(mem.failures)
    ensures mem.live == old(mem.live) + StringBlock(out) && StringBlock(out) !! old(mem.live)
    ensures out != null ==> Terminated(out) && CString(out) == old(PrintValue(Value(t), 0, fmt))
  {
    hide Linked, Separate, Complete, Value, Blocks, BlocksOf, Segment, SeparateList, NodesIn, NodesOf, StringsIn,
      StringsOf, Proper, StringsTerminated, Printable, PrintValue, BufferSize, CString, Terminated, Copies, Alone;
    assert allocated(NodesIn(t)) && allocated(StringsIn(t));
    var copy;
    ghost var c;
    copy, c := Duplicate(mem, item, true, t);
    if copy == null {
      return null;
    }
    CopyShowsValue(c, t);
    AloneIsList(c, mem);
    assert allocated(NodesOf([c])) && allocated(BlocksOf([c]));
    out := Print(mem, copy, fmt, c);
    Nodes.Delete(mem, copy, null, [c]);
  }

  lemma AloneIsList(c: Tree, mem: Memory)
    requires Alone(c, false)
    ensures Segment([c], null, null, false) && SeparateList([c]) && BlocksOf([c]) == Blocks(c) && mem !in BlocksOf([c])
  {
    OneTree(c, null, false);
    ListTyped([c], mem);
  }

  // ---- editing ----

  /** Items that can be printed in an array. */
  ghost predicate Fit(es: seq<Entry>) {
    forall e | e in es :: e.item.complete && Printable(e.item.value)
  }

  lemma {:induction false} FitItems(es: seq<Entry>)
    ensures (forall e | e in es :: Printable(e.item.value)) <==> PrintableItems(ItemsIn(es))
  {
    hide Printable;
    if es != [] {
      FitItems(es[1..]);
      assert ItemsIn(es)[1..] == ItemsIn(es[1..]);
      assert es == [es[0]] + es[1..];
    }
  }

  /** A run on such items leaves such items. */
  lemma FitRun(s: View, ops: seq<Operation>, oks: seq<bool>)
    requires |ops| == |oks| && Fit(s.list) && Fit(s.hand)
    ensures var list := Run(s, ops, oks).list; AllComplete(list, false) && Printable(Array(ItemsIn(list)))
  {
    hide Run;
    var end := Run(s, ops, oks);
    RunWithin(s, ops, oks, ItemsHeld(s));
    FitItems(end.list);
  }

  /** What can be printed is fit. */
  lemma FitList(ts: seq<Tree>)
    requires ProperList(ts) && CompleteList(ts, false) && PrintableItems(Items(ts))
    ensures Fit(Entries(ts)) && NamesTerminated(ts)
  {
    hide ProperList, CompleteList, Items, Entries, Printable, NamesTerminated, PrintableItems;
    ProperShown(ts);
    CompleteShown(ts, false);
    EntriesShow(ts);
    FitItems(Entries(ts));
  }

  lemma ArrayFit(t: Tree)
    requires t.node.kind == ARRAY && Proper(t) && Complete(t) && Printable(Value(t))
    ensures Fit(Entries(t.kids)) && NamesTerminated(t.kids) && ItemsIn(Entries(t.kids)) == Items(t.kids)
    ensures Value(t) == Array(Items(t.kids))
  {
    FitList(t.kids);
    EntriesShow(t.kids);
  }

  /** Items in hand that can be printed. */
  ghost predicate FitHand(hand: seq<Node>, hs: seq<Tree>)
    reads NodesOf(hs), StringsOf(hs)
  {
    InHand(hand, hs) && ProperList(hs) && CompleteList(hs, false) && PrintableItems(Items(hs))
  }

  /** Printing a tree that stands alone, and deleting it; what is in hand stays as it is. */
  method PrintAndDelete(mem: Memory, c: Node, fmt: bool, ghost t: Tree, ghost hand: seq<Node>, ghost hs: seq<Tree>)
      returns (out: array?<char>)
    requires c == t.node && Alone(t, false) && Linked(t, true) && Complete(t) && Printable(Value(t))
    requires InHand(hand, hs) && Blocks(t) !! BlocksOf(hs) && Blocks(t) <= mem.live
    modifies mem`live, mem`failures, Blocks(t)
    ensures mem.failures >= old(mem.failures) && (out == null <==> mem.failures > old(mem.failures))
    ensures mem.live == old(mem.live) - Blocks(t) + StringBlock(out) && StringBlock(out) !! old(mem.live)
    ensures out != null ==> Terminated(out) && CString(out) == old(PrintValue(Value(t), 0, fmt))
    ensures InHand(hand, hs) && Entries(hs) == old(Entries(hs))
  {
    hide Linked, Separate, Complete, Value, Blocks, BlocksOf, Segment, SeparateList, NodesIn, NodesOf, StringsIn,
      StringsOf, Printable, PrintValue, BufferSize, CString, Terminated, Alone, InHand, Entries;
    NotMemory(t, hs, mem);
    assert allocated(NodesIn(t)) && allocated(NodesOf(hs)) && allocated(StringsOf(hs)) && allocated(Blocks(t));
    out := Print(mem, c, fmt, t);
    DeleteAlone(mem, c, t, hs);
  }

  /** A run of list operations on an array leaves an array that can be printed. */
  method EditRun(mem: Memory, c: Node, hand: seq<Node>, ops: seq<Operation>, ghost t: Tree, ghost hs: seq<Tree>)
      returns (hand': seq<Node>, ghost t': Tree, ghost hs': seq<Tree>, ghost oks: seq<bool>, ghost end: View,
        ghost lost: set<object>)
    requires c == t.node && c.kind == ARRAY && Alone(t, false) && Proper(t) && Complete(t) && Printable(Value(t))
    requires FitHand(hand, hs) && Blocks(t) !! BlocksOf(hs) && Blocks(t) + BlocksOf(hs) <= mem.live
    requires forall op | op in ops :: Speakable(op)
    modifies mem`live, mem`failures, Blocks(t), BlocksOf(hs)
    ensures |oks| == |ops| && end == Run(old(ViewOf(t.kids, hs)), ops, oks)
    ensures t'.node == c && Alone(t', false) && Linked(t', true) && Complete(t')
    ensures Value(t') == Array(ItemsIn(end.list)) && Printable(Value(t'))
    ensures InHand(hand', hs') && Entries(hs') == end.hand && Blocks(t') !! BlocksOf(hs')
    ensures mem.failures >= old(mem.failures) && (mem.failures == old(mem.failures) <==> false !in oks)
    ensures mem.live == old(mem.live) - (Blocks(t) + BlocksOf(hs)) + Blocks(t') + BlocksOf(hs') + lost
    ensures lost !! Blocks(t') + BlocksOf(hs') && |lost| == LeakedBy(old(ViewOf(t.kids, hs)), ops, oks)
    ensures forall o | o in Blocks(t') + BlocksOf(hs') :: o in Blocks(t) + BlocksOf(hs) || fresh(o)
    ensures Blocks(t') !! old(mem.live) - (Blocks(t) + BlocksOf(hs))
  {
    hide Linked, Separate, Complete, Value, Blocks, BlocksOf, Segment, SeparateList, NodesIn, NodesOf, StringsIn,
      StringsOf, Proper, ProperList, CompleteList, Printable, CString, Terminated, Alone, InHand, Items, Entries,
      ViewOf, Run, LeakedBy, Speakable, Survive, AllComplete, NamesTerminated, Fit, Holdings;
    EditStarts(t, hand, hs);
    ghost var s, ts' := ViewOf(t.kids, hs), t.kids;
    hand', ts', hs', oks, end, lost := RunOn(mem, hand, c, ops, t, hs);
    t' := t.(kids := ts');
    FitRun(s, ops, oks);
    AloneAgain(t');
    ViewHand(ts', hs');
  }

  lemma ViewHand(ts: seq<Tree>, hs: seq<Tree>)
    ensures ViewOf(ts, hs).hand == Entries(hs)
  {}

  /** What a run of list operations needs and what it keeps. */
  lemma EditStarts(t: Tree, hand: seq<Node>, hs: seq<Tree>)
    requires t.node.kind == ARRAY && Alone(t, false) && Proper(t) && Complete(t) && Printable(Value(t))
    requires FitHand(hand, hs) && Blocks(t) !! BlocksOf(hs)
    ensures Linked(t, false) && Separate(t) && !t.node.isReference && t.node.next == t.node.prev == null
    ensures NamesTerminated(t.kids) && Fit(ViewOf(t.kids, hs).list) && Fit(ViewOf(t.kids, hs).hand) && ProperList(hs)
    ensures Holdings(t.kids, hs) <= Blocks(t) + BlocksOf(hs) && t.node !in Holdings(t.kids, hs) && t.node in Blocks(t)
  {
    ArrayFit(t);
    FitList(hs);
  }

  /** What is live after a tree has been deleted. */
  lemma LiveAfter(was: set<object>, owned: set<object>, tree: set<object>, hand: set<object>, lost: set<object>)
    requires tree !! hand && lost !! tree + hand && tree !! was - owned
    ensures was - owned + tree + hand + lost - tree == was - owned + hand + lost
  {}

  /** A run of list operations on an array that stands alone, and the print of what it leaves; the array is deleted. */
  method EditArray(mem: Memory, c: Node, hand: seq<Node>, ops: seq<Operation>, fmt: bool, ghost t: Tree,
        ghost hs: seq<Tree>)
      returns (hand': seq<Node>, out: array?<char>, ghost hs': seq<Tree>, ghost oks: seq<bool>, ghost end: View,
        ghost lost: set<object>)
    requires c == t.node && c.kind == ARRAY && Alone(t, false) && Proper(t) && Complete(t) && Printable(Value(t))
    requires FitHand(hand, hs) && Blocks(t) !! BlocksOf(hs) && Blocks(t) + BlocksOf(hs) <= mem.live
    requires forall op | op in ops :: Speakable(op)
    modifies mem`live, mem`failures, Blocks(t), BlocksOf(hs)
    ensures |oks| == |ops| && end == Run(old(ViewOf(t.kids, hs)), ops, oks)
    ensures InHand(hand', hs') && Entries(hs') == end.hand
    ensures mem.failures >= old(mem.failures) && (mem.failures == old(mem.failures) ==> false !in oks && out != null)
    ensures Printable(Array(ItemsIn(end.list)))
    ensures out != null ==> Terminated(out) && CString(out) == PrintValue(Array(ItemsIn(end.list)), 0, fmt)
    ensures mem.live == old(mem.live) - (Blocks(t) + BlocksOf(hs)) + BlocksOf(hs') + StringBlock(out) + lost
    ensures |lost| == LeakedBy(old(ViewOf(t.kids, hs)), ops, oks)
  {
    hide *;
    ghost var t';
    hand', t', hs', oks, end, lost := EditRun(mem, c, hand, ops, t, hs);
    LiveAfter(old(mem.live), Blocks(t) + BlocksOf(hs), Blocks(t'), BlocksOf(hs'), lost);
    out := PrintAndDelete(mem, c, fmt, t', hand', hs');
  }

  lemma ParsedArray(t: seq<Tree>, hand: seq<Node>, hs: seq<Tree>, v: Json)
    requires |t| == 1 && Segment(t, null, null, false) && SeparateList(t) && Proper(t[0])
    requires Value(t[0]) == v && v.Array? && Printable(v) && Complete(t[0])
    ensures t[0].node.kind == ARRAY && Alone(t[0], false)
    ensures ItemsIn(ViewOf(t[0].kids, hs).list) == v.items && ViewOf(t[0].kids, hs).hand == Entries(hs)
  {
    assert t == [t[0]];
    SegmentAt(t, 0, null, null, false);
    OneTree(t[0], null, false);
    EntriesShow(t[0].kids);
  }

  /** From text to text: an array is parsed, a run of list operations works on it and on items in hand, and what it
      leaves is printed. The new text is that of the run on the sequence of the items in the old one. */
  method EditDocument(mem: Memory, text: array<char>, requireNullTerminated: bool, hand: seq<Node>, ops: seq<Operation>,
        fmt: bool, ghost s: string, ghost hs: seq<Tree>)
      returns (hand': seq<Node>, out: array?<char>, ghost hs': seq<Tree>, ghost oks: seq<bool>, ghost start: View,
        ghost lost: set<object>)
    requires Holds(text, s) && !ParseWithOpts(s, requireNullTerminated).Truncated?
    requires ParseWithOpts(s, requireNullTerminated).Accepted? ==>
      var v := ParseWithOpts(s, requireNullTerminated).value; v.Array? && Printable(v)
    requires FitHand(hand, hs) && BlocksOf(hs) <= mem.live && forall op | op in ops :: Speakable(op)
    modifies mem, BlocksOf(hs)
    ensures InHand(hand', hs') && |oks| == |ops|
    ensures ParseWithOpts(s, requireNullTerminated).Rejected? ==>
      out == null && hand' == hand && hs' == hs && Entries(hs) == old(Entries(hs))
    ensures mem.failures == old(mem.failures) && out == null ==> ParseWithOpts(s, requireNullTerminated).Rejected?
    ensures mem.failures == old(mem.failures) ==> false !in oks
    ensures out != null ==> ParseWithOpts(s, requireNullTerminated).Accepted? && Terminated(out)
    ensures out != null ==> ItemsIn(start.list) == ParseWithOpts(s, requireNullTerminated).value.items
    ensures out != null ==> start.hand == old(Entries(hs)) && Entries(hs') == Run(start, ops, oks).hand
    ensures out != null ==> Printable(Array(ItemsIn(Run(start, ops, oks).list)))
    ensures out != null ==> CString(out) == PrintValue(Array(ItemsIn(Run(start, ops, oks).list)), 0, fmt)
    ensures mem.live == old(mem.live) - BlocksOf(hs) + BlocksOf(hs') + StringBlock(out) + lost
    ensures out != null ==> |lost| == LeakedBy(start, ops, oks)
  {
    hide Skip, ParseValue, Holds, ParseWithOpts, Linked, Separate, Complete, Value, Blocks, BlocksOf, Segment,
      SeparateList, NodesIn, NodesOf, StringsIn, StringsOf, Proper, StringsTerminated, Printable, PrintValue, CString,
      Terminated, Alone, InHand, Entries, ViewOf, Run, LeakedBy, Speakable, FitHand;
    assert allocated(NodesOf(hs)) && allocated(StringsOf(hs)) && allocated(BlocksOf(hs));
    ListTyped(hs, mem);
    FitHandHolds(hand, hs);
    hand', hs', oks, lost := hand, hs, seq(|ops|, _ => true), {};
    start := ViewOf([], hs);
    var c, end;
    ghost var t;
    c, end, t := ParseDocument(mem, text, requireNullTerminated, s);
    out := null;
    if c != null {
      ghost var v := ParseWithOpts(s, requireNullTerminated).value;
      ParsedArray(t, hand, hs, v);
      start := ViewOf(t[0].kids, hs);
      ghost var last;
      hand', out, hs', oks, last, lost := EditArray(mem, c, hand, ops, fmt, t[0], hs);
    }
  }

  lemma FitHandHolds(hand: seq<Node>, hs: seq<Tree>)
    requires FitHand(hand, hs)
    ensures InHand(hand, hs)
  {}
}
