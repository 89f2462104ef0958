/** The printers of cJSON on nodes: two passes each, one that counts and one that writes, with buffers for the parts
    that are freed again. */
module JsonPrinter {
  import opened CText
  import opened JsonNumbers
  import opened JsonStrings
  import opened Json
  import opened Nodes

  /** The size of the buffer that a printed value comes in. A word, a string, an empty array and an empty object without
      formatting fill theirs exactly, an empty object with formatting does so or leaves one character; an object with
      members leaves five characters in either form, and an array with items more. */
  ghost function BufferSize(v: Json, depth: nat, fmt: bool): nat
    requires Printable(v)
  {
    match v
    case Number(_, _) => 21
    case Array(items) =>
      |PrintValue(v, depth, fmt)| + 1 + if items == [] then 0 else |items| + 3 + if fmt then 1 else 0
    case Object(members) =>
      if members == [] then if fmt then depth + 4 else 3 else |PrintValue(v, depth, fmt)| + 1 + 5
    case _ => |PrintValue(v, depth, fmt)| + 1
  }

  /** A new buffer with this text is all that a printer has left. */
  twostate predicate Printed(mem: Memory, new out: array?<char>, text: string, size: nat)
    reads mem, out
  {
    && mem.failures >= old(mem.failures)
    && (out == null <==> mem.failures > old(mem.failures))
    && (out == null ==> mem.live == old(mem.live))
    && (out != null ==>
          && fresh(out) && mem.live == old(mem.live) + {out} && out !in old(mem.live)
          && out.Length == size && Terminated(out) && CString(out) == text)
  }

  /** cJSON_strdup of a literal. */
  method DupWord(mem: Memory, word: string) returns (out: array?<char>)
    requires IsText(word)
    modifies mem`live, mem`failures
    ensures Printed(mem, out, word, |word| + 1)
  {
    out := mem.AllocChars(|word| + 1);
    if out != null {
      Put(out, 0, word);
      assert out[..|word|] == word;
      TerminatedAt(out, |word|);
    }
  }

  // ---- strings ----

  /** The characters that print_string_ptr counts twice. */
  const SHORT_ESCAPES := "\"\\\U{08}\U{0C}\n\r\t"

  /** The counting pass of print_string_ptr. */
  method CountString(str: array<char>) returns (len: nat)
    requires Terminated(str) && IsText(CString(str))
    ensures len == PrintedLength(CString(str))
  {
    ghost var s := CString(str);
    UpToNulIs(str[..]);
    assert forall i | 0 <= i < |s| :: s[i] == str[i];
    len := 0;
    var ptr := 0;
    assert s[0..] == s;
    while str[ptr] != '\0'
      invariant ptr <= |s| && len + PrintedLength(s[ptr..]) == PrintedLength(s)
      decreases |s| - ptr
    {
      len := len + 1;
      if str[ptr] in SHORT_ESCAPES {
        len := len + 1;
      } else if str[ptr] < 32 as char {
        len := len + 5;
      }
      assert s[ptr..][1..] == s[ptr + 1..];
      ptr := ptr + 1;
    }
    assert ptr == |s|;
  }

  /** The writing pass for one character. */
  method WriteChar(out: array<char>, w: nat, c: char) returns (end: nat)
    requires '\0' < c < 256 as char && w + |EscapeChar(c)| < out.Length
    modifies out
    ensures end == w + |EscapeChar(c)| && out[..w] == old(out[..w]) && out[w..end] == EscapeChar(c)
  {
    if c > 31 as char && c != '\"' && c != '\\' {
      out[w] := c;
      end := w + 1;
    } else {
      out[w] := '\\';
      end := w + 2;
      match c
      case '\\' => out[w + 1] := '\\';
      case '\"' => out[w + 1] := '\"';
      case '\U{08}' => out[w + 1] := 'b';
      case '\U{0C}' => out[w + 1] := 'f';
      case '\n' => out[w + 1] := 'n';
      case '\r' => out[w + 1] := 'r';
      case '\t' => out[w + 1] := 't';
      case _ =>
        Put(out, w + 1, ['u', '0', '0', HexChar(c as int / 16), HexChar(c as int % 16)]);
        end := w + 6;
    }
  }

  lemma EscapeStep(s: string, k: nat, before: string)
    requires IsText(s) && k < |s|
    ensures before + Escape(s[k..]) == before + EscapeChar(s[k]) + Escape(s[k + 1..])
    ensures |Escape(s[k..])| == |EscapeChar(s[k])| + |Escape(s[k + 1..])|
  {
    assert s[k..][1..] == s[k + 1..];
    assert before + (EscapeChar(s[k]) + Escape(s[k + 1..])) == before + EscapeChar(s[k]) + Escape(s[k + 1..]);
  }

  /** The writing pass of print_string_ptr fills its buffer exactly. */
  method WriteString(out: array<char>, str: array<char>)
    requires Terminated(str) && IsText(CString(str)) && out != str
    requires out.Length == |PrintString(CString(str))| + 1
    modifies out
    ensures Terminated(out) && CString(out) == PrintString(CString(str))
  {
    hide EscapeChar, Escape;
    ghost var s := CString(str);
    UpToNulIs(str[..]);
    assert forall i | 0 <= i < |s| :: s[i] == str[i];
    out[0] := '\"';
    var w, ptr := 1, 0;
    assert out[..1] == ['\"'] && s[0..] == s;
    while str[ptr] != '\0'
      invariant ptr <= |s| && w + |Escape(s[ptr..])| + 2 == out.Length
      invariant out[..w] + Escape(s[ptr..]) == ['\"'] + Escape(s)
      decreases |s| - ptr
    {
      EscapeStep(s, ptr, out[..w]);
      ghost var before := w;
      w := WriteChar(out, w, str[ptr]);
      assert out[..w] == out[..before] + out[before..w];
      ptr := ptr + 1;
    }
    assert ptr == |s|;
    EscapeNothing();
    out[w] := '\"';
    assert out[..w + 1] == PrintString(s);
    out[w + 1] := '\0';
    assert out[..w + 1] == PrintString(s);
    PrintStringIsText(s);
    TerminatedAt(out, w + 1);
  }

  lemma EscapeNothing()
    ensures Escape([]) == []
  {}

  lemma {:induction false} EscapeIsPrinted(s: string)
    requires IsText(s)
    ensures IsText(Escape(s))
  {
    if s != [] {
      EscapeIsPrinted(s[1..]);
    }
  }

  lemma PrintStringIsText(s: string)
    requires IsText(s)
    ensures IsText(PrintString(s))
  {
    EscapeIsPrinted(s);
  }

  /** print_string_ptr: it prints an empty text for a null string. */
  method PrintStringPtr(mem: Memory, str: array?<char>) returns (out: array?<char>)
    requires str != null ==> Terminated(str) && IsText(CString(str))
    modifies mem`live, mem`failures
    ensures Printed(mem, out, if str == null then [] else old(PrintString(CString(str))),
                    if str == null then 1 else |old(PrintString(CString(str)))| + 1)
  {
    if str == null {
      out := DupWord(mem, "");
      return;
    }
    var len := CountString(str);
    EscapeFits(CString(str));
    out := mem.AllocChars(len + 3);
    if out != null {
      WriteString(out, str);
    }
  }

  // ---- numbers ----

  lemma {:induction false} DecimalFits(n: nat, bound: nat, k: nat)
    requires n < bound && bound == Power(k) && 0 < k
    ensures |Decimal(n)| <= k
    decreases k
  {
    if n >= 10 {
      DecimalFits(n / 10, bound / 10, k - 1);
    }
  }

  function Power(k: nat): (r: nat)
    ensures 0 < r
  {
    if k == 0 then 1 else 10 * Power(k - 1)
  }

  lemma IntTextFits(i: int, d: real)
    requires PrintsAsInt(i, d)
    ensures |IntText(i)| <= 11
  {
    assert INT_MIN <= i <= INT_MAX;
    assert Power(5) == 100000 && Power(10) == 10000000000;
    DecimalFits(if i < 0 then -i else i, 10000000000, 10);
  }

  /** The integer branch of print_number. */
  method PrintNumber(mem: Memory, item: Node) returns (out: array?<char>)
    requires PrintsAsInt(item.valueint, item.valuedouble)
    modifies mem`live, mem`failures
    ensures Printed(mem, out, IntText(item.valueint), 21)
  {
    var d := item.valuedouble;
    IntTextFits(item.valueint, d);
    out := mem.AllocChars(21);
    if out != null {
      var text := IntText(item.valueint);
      Put(out, 0, text);
      assert out[..|text|] == text;
      TerminatedAt(out, |text|);
    }
  }

  // ---- arrays of buffers ----

  /** The buffers among the entries. */
  ghost function Held(es: seq<array?<char>>): (r: set<array<char>>)
    ensures forall i | 0 <= i < |es| && es[i] != null :: es[i] in r
    ensures forall a | a in r :: a in es
  {
    if es == [] then {} else Held(es[..|es| - 1]) + StringBlock(es[|es| - 1])
  }

  ghost predicate Distinct(es: seq<array?<char>>) {
    forall i, j :: 0 <= i < j < |es| && es[i] != null ==> es[i] != es[j]
  }

  /** The buffers made so far have the texts of the items so far. */
  ghost predicate Matching(es: seq<array?<char>>, texts: seq<string>, k: nat)
    requires k <= |es| && k <= |texts|
    reads Held(es)
  {
    forall j | 0 <= j < k :: es[j] != null && Terminated(es[j]) && CString(es[j]) == texts[j]
  }

  lemma HeldStep(es: seq<array?<char>>, i: nat)
    requires i < |es| && Distinct(es)
    ensures Held(es[..i + 1]) == Held(es[..i]) + StringBlock(es[i]) && Held(es[..i + 1]) <= Held(es)
    ensures es[i] != null ==> es[i] !in Held(es[..i])
  {
    assert es[..i + 1][..i] == es[..i];
    forall a | a in Held(es[..i + 1])
      ensures a in Held(es)
    {
      var k :| 0 <= k < i + 1 && es[..i + 1][k] == a;
      assert es[k] == a;
    }
  }

  /** The loop over the entries when a printer fails. */
  method FreeAll(mem: Memory, entries: array<array?<char>>)
    requires Distinct(entries[..]) && Held(entries[..]) <= mem.live
    modifies mem`live, Held(entries[..])
    ensures mem.live == old(mem.live) - Held(entries[..])
  {
    ghost var es := entries[..];
    for i := 0 to entries.Length
      invariant entries[..] == es && Distinct(es) && mem.live == old(mem.live) - Held(es[..i])
    {
      HeldStep(es, i);
      if entries[i] != null {
        mem.FreeChars(entries[i]);
      }
    }
    assert es[..entries.Length] == es;
  }

  /** The total length of texts, with something for each. */
  ghost function Total(texts: seq<string>, extra: nat): nat {
    if texts == [] then 0 else |texts[0]| + extra + Total(texts[1..], extra)
  }

  lemma {:induction false} TotalAppend(texts: seq<string>, last: string, extra: nat)
    ensures Total(texts + [last], extra) == Total(texts, extra) + |last| + extra
  {
    if texts != [] {
      assert (texts + [last])[1..] == texts[1..] + [last];
      TotalAppend(texts[1..], last, extra);
    } else {
      assert texts + [last] == [last];
    }
  }

  lemma TotalStep(texts: seq<string>, i: nat, extra: nat)
    requires i < |texts|
    ensures Total(texts[..i + 1], extra) == Total(texts[..i], extra) + |texts[i]| + extra
  {
    TotalAppend(texts[..i], texts[i], extra);
    assert texts[..i] + [texts[i]] == texts[..i + 1];
  }

  // ---- print_array ----

  ghost function ItemTexts(items: seq<Json>, depth: nat, fmt: bool): (texts: seq<string>)
    requires PrintableItems(items)
    ensures |texts| == |items|
  {
    if items == [] then [] else [PrintValue(items[0], depth, fmt)] + ItemTexts(items[1..], depth, fmt)
  }

  /** The items of an array, from their texts. */
  ghost function Join(texts: seq<string>, fmt: bool): string {
    if texts == [] then ""
    else texts[0] + if |texts| == 1 then "" else "," + If(fmt, " ") + Join(texts[1..], fmt)
  }

  lemma {:induction false} JoinItems(items: seq<Json>, depth: nat, fmt: bool)
    requires PrintableItems(items)
    ensures PrintItems(items, depth, fmt) == Join(ItemTexts(items, depth, fmt), fmt)
  {
    hide PrintValue;
    if items != [] {
      JoinItems(items[1..], depth, fmt);
      assert ItemTexts(items, depth, fmt)[1..] == ItemTexts(items[1..], depth, fmt);
    }
  }

  lemma {:induction false} JoinLength(texts: seq<string>, fmt: bool)
    requires texts != []
    ensures Total(texts, if fmt then 3 else 2) == |Join(texts, fmt)| + |texts| + if fmt then 2 else 1
  {
    if |texts| > 1 {
      JoinLength(texts[1..], fmt);
    }
  }

  /** One step of the composition. */
  lemma JoinStep(texts: seq<string>, i: nat, before: string, fmt: bool)
    requires i < |texts|
    ensures before + Join(texts[i..], fmt)
         == before + texts[i] + Comma(i == |texts| - 1, fmt) + Join(texts[i + 1..], fmt)
    ensures |Join(texts[i..], fmt)| == |texts[i]| + |Comma(i == |texts| - 1, fmt)| + |Join(texts[i + 1..], fmt)|
  {
    assert texts[i..][1..] == texts[i + 1..];
    if i < |texts| - 1 {
      var rest := Join(texts[i + 1..], fmt);
      assert before + (texts[i] + ("," + If(fmt, " ") + rest)) == before + texts[i] + ("," + If(fmt, " ")) + rest;
    } else {
      assert before + (texts[i] + "") == before + texts[i] + "" + "";
    }
  }

  /** Puts a character behind what is written. */
  method Append(out: array<char>, w: nat, c: char) returns (end: nat)
    requires w + 1 < out.Length
    modifies out
    ensures end == w + 1 && out[..end] == old(out[..w]) + [c]
  {
    out[w] := c;
    end := w + 1;
  }

  /** strcpy and strlen of a part behind what is written. */
  method AppendPart(out: array<char>, w: nat, a: array<char>) returns (end: nat)
    requires Terminated(a) && out != a && w + |CString(a)| < out.Length
    modifies out
    ensures end == w + |CString(a)| && out[..end] == old(out[..w]) + CString(a)
  {
    StrCpy(out, w, a);
    var n := StrLen(a);
    end := w + n;
    assert out[..end] == out[..w] + out[w..end];
  }

  /** The separator between the items of an array. */
  ghost function Comma(last: bool, fmt: bool): (c: string)
    ensures |c| == if last then 0 else if fmt then 2 else 1
    ensures '\0' !in c
  {
    if last then "" else "," + If(fmt, " ")
  }

  /** One pass of the loop that composes an array: an item and what follows it. */
  method ComposeItem(mem: Memory, out: array<char>, w: nat, entry: array<char>, last: bool, fmt: bool)
      returns (end: nat)
    requires Terminated(entry) && out != entry && w + |CString(entry)| + |Comma(last, fmt)| < out.Length
    requires entry in mem.live && '\0' !in out[..w]
    modifies mem`live, out, entry
    ensures end == w + |old(CString(entry))| + |Comma(last, fmt)| && mem.live == old(mem.live) - {entry}
    ensures out[..end] == old(out[..w]) + old(CString(entry)) + Comma(last, fmt) && '\0' !in out[..end]
  {
    NoNul(entry);
    end := AppendPart(out, w, entry);
    if !last {
      end := Append(out, end, ',');
      if fmt {
        end := Append(out, end, ' ');
      }
    }
    mem.FreeChars(entry);
  }

  /** How far the composition is when k items are written. */
  ghost predicate Composing(out: array<char>, ptr: nat, texts: seq<string>, k: nat, fmt: bool)
    requires k <= |texts|
    reads out
  {
    && ptr + |Join(texts[k..], fmt)| + 2 < out.Length
    && out[..ptr] + Join(texts[k..], fmt) == "[" + Join(texts, fmt)
    && '\0' !in out[..ptr]
  }

  /** The entries that are not written yet, when i items are; those written have been freed. */
  ghost predicate Left(mem: Memory, before: set<object>, es: seq<array?<char>>, texts: seq<string>, i: nat)
    requires i <= |es| == |texts|
    reads mem`live, Held(es)
  {
    && mem.live == before - Held(es[..i])
    && forall k | i <= k < |es| :: es[k] != null && Terminated(es[k]) && CString(es[k]) == texts[k]
  }

  /** One item, of those not written yet. */
  method NextItem(mem: Memory, out: array<char>, w: nat, entry: array?<char>, i: nat, last: bool, fmt: bool,
        ghost before: set<object>, ghost es: seq<array?<char>>, ghost texts: seq<string>) returns (ptr: nat)
    requires i < |es| == |texts| && entry == es[i] && last == (i == |es| - 1)
    requires Distinct(es) && Held(es) <= before && out !in Held(es)
    requires Left(mem, before, es, texts, i) && Composing(out, w, texts, i, fmt)
    modifies mem`live, out, Held(es)
    ensures Left(mem, before, es, texts, i + 1) && Composing(out, ptr, texts, i + 1, fmt)
  {
    hide Held, StringBlock, Join, If, UpToNul, Comma, CString, Terminated;
    JoinStep(texts, i, out[..w], fmt);
    HeldStep(es, i);
    ptr := ComposeItem(mem, out, w, entry, last, fmt);
  }

  /** The writing pass of print_array. */
  method ComposeArray(mem: Memory, out: array<char>, entries: array<array?<char>>, ghost texts: seq<string>, fmt: bool)
    requires entries.Length == |texts| > 0 && Matching(entries[..], texts, |texts|)
    requires Distinct(entries[..]) && Held(entries[..]) <= mem.live
    requires out !in Held(entries[..]) && out.Length == 5 + Total(texts, if fmt then 3 else 2)
    modifies mem`live, out, Held(entries[..])
    ensures mem.live == old(mem.live) - Held(entries[..])
    ensures Terminated(out) && CString(out) == "[" + Join(texts, fmt) + "]"
  {
    hide Held, StringBlock, Join, Total, If, UpToNul, Comma, CString, Terminated;
    ghost var es, before := entries[..], mem.live;
    JoinLength(texts, fmt);
    var ptr := Append(out, 0, '[');
    assert texts[0..] == texts && out[..0] == "" && es[..0] == [];
    HeldNothing();
    for i := 0 to entries.Length
      invariant entries[..] == es && Left(mem, before, es, texts, i) && Composing(out, ptr, texts, i, fmt)
    {
      ptr := NextItem(mem, out, ptr, entries[i], i, i == entries.Length - 1, fmt, before, es, texts);
    }
    assert es[..entries.Length] == es && texts[entries.Length..] == [];
    ptr := Append(out, ptr, ']');
    out[ptr] := '\0';
    TerminatedAt(out, ptr);
  }

  lemma HeldNothing()
    ensures Held([]) == {} && forall fmt :: Join([], fmt) == ""
  {}

  // ---- the entries ----

  lemma {:induction false} HeldUpdate(es: seq<array?<char>>, i: nat, a: array?<char>)
    requires i < |es| && es[i] == null
    ensures Held(es[i := a]) == Held(es) + StringBlock(a)
  {
    hide Distinct;
    var k := |es| - 1;
    if i < k {
      HeldUpdate(es[..k], i, a);
      assert es[i := a][..k] == es[..k][i := a];
    } else {
      assert es[i := a][..k] == es[..k];
    }
  }

  lemma DistinctUpdate(es: seq<array?<char>>, i: nat, a: array?<char>)
    requires i < |es| && Distinct(es) && (a != null ==> a !in Held(es))
    ensures Distinct(es[i := a])
  {
    hide Held;
    var us := es[i := a];
    forall j, k | 0 <= j < k < |us| && us[j] != null
      ensures us[j] != us[k]
    {
      assert j != i && k != i ==> es[j] != es[k];
    }
  }

  lemma {:induction false} HeldNulls(es: seq<array?<char>>)
    requires forall i | 0 <= i < |es| :: es[i] == null
    ensures Held(es) == {} && Distinct(es)
  {
    if es != [] {
      HeldNulls(es[..|es| - 1]);
    }
  }

  /** Some entries are made, and they are what is live beyond the blocks before. */
  ghost predicate EntriesMade(mem: Memory, before: set<object>, entries: array<array?<char>>, k: nat)
    reads mem`live, entries
  {
    && Distinct(entries[..]) && k <= entries.Length && (forall j | k <= j < entries.Length :: entries[j] == null)
    && before !! Held(entries[..]) && mem.live == before + Held(entries[..])
  }

  /** An entry is stored; nothing is stored when a buffer was not to be had. */
  method Store(mem: Memory, entries: array<array?<char>>, i: nat, a: array?<char>,
        ghost before: set<object>, ghost texts: seq<string>)
    requires i < entries.Length == |texts|
    requires Distinct(entries[..]) && (forall j | i <= j < entries.Length :: entries[j] == null)
    requires before !! Held(entries[..]) && mem.live == before + Held(entries[..]) + StringBlock(a)
    requires StringBlock(a) !! before + Held(entries[..])
    modifies entries
    ensures EntriesMade(mem, before, entries, i + 1) && entries[..] == old(entries[..])[i := a]
    ensures Held(entries[..]) == old(Held(entries[..])) + StringBlock(a)
    ensures old(Matching(entries[..], texts, i)) && old(Terminated(a)) && old(CString(a)) == texts[i]
      ==> Matching(entries[..], texts, i + 1)
  {
    HeldUpdate(entries[..], i, a);
    DistinctUpdate(entries[..], i, a);
    entries[i] := a;
  }

  lemma {:induction false} ItemAt(ts: seq<Tree>, i: nat, depth: nat, fmt: bool)
    requires i < |ts| && CompleteList(ts, false) && PrintableItems(Items(ts))
    ensures Complete(ts[i]) && Printable(Value(ts[i]))
    ensures ItemTexts(Items(ts), depth, fmt)[i] == PrintValue(Value(ts[i]), depth, fmt)
  {
    hide Complete, Value, Printable, PrintValue;
    if i > 0 {
      ItemAt(ts[1..], i - 1, depth, fmt);
      assert Items(ts)[1..] == Items(ts[1..]);
    }
  }

  /** The number of siblings. */
  method CountSiblings(child: Node?, ghost ts: seq<Tree>) returns (n: nat)
    requires child == FirstOr(ts, null) && Segment(ts, null, null, true)
    ensures n == |ts|
  {
    hide Linked;
    n := 0;
    var c := child;
    ghost var prev: Node? := null;
    while c != null
      invariant n <= |ts| && c == FirstOr(ts[n..], null) && Segment(ts[n..], prev, null, true)
      decreases |ts| - n
    {
      assert ts[n..][1..] == ts[n + 1..];
      prev := c;
      n, c := n + 1, c.next;
    }
  }

  /** One pass of the loop of print_array that prints the items. */
  method NextEntry(mem: Memory, child: Node, entries: array<array?<char>>, i: nat, depth: nat, fmt: bool,
        ghost ts: seq<Tree>, ghost before: set<object>, ghost texts: seq<string>) returns (n: nat, ok: bool)
    requires Segment(ts, null, null, true) && CompleteList(ts, false) && PrintableItems(Items(ts))
    requires texts == ItemTexts(Items(ts), depth, fmt) && i < |ts| == entries.Length && child == ts[i].node
    requires EntriesMade(mem, before, entries, i) && Matching(entries[..], texts, i)
    modifies mem`live, mem`failures, entries
    ensures EntriesMade(mem, before, entries, i + 1)
    ensures forall a | a in Held(entries[..]) :: fresh(a) || a in old(Held(entries[..]))
    ensures mem.failures >= old(mem.failures) && (ok <==> mem.failures == old(mem.failures))
    ensures ok ==> Matching(entries[..], texts, i + 1) && n == |texts[i]|
    decreases ts, 0
  {
    hide Linked, Segment, Value, Items, Complete, CompleteList, Printable, PrintableItems, PrintValue, ItemTexts, Held,
      CString, BufferSize;
    assert allocated(Held(entries[..]));
    SegmentAt(ts, i, null, null, true);
    ItemAt(ts, i, depth, fmt);
    var ret := PrintNode(mem, child, depth, fmt, ts[i]);
    Store(mem, entries, i, ret, before, texts);
    assert allocated(Held(entries[..]));
    n, ok := 0, ret != null;
    if ok {
      n := StrLen(ret);
    }
  }

  /** The loop of print_array that prints the items: it stops at the first that fails. */
  method ItemEntries(mem: Memory, first: Node?, entries: array<array?<char>>, depth: nat, fmt: bool,
        ghost ts: seq<Tree>)
      returns (len: nat, fail: bool)
    requires first == FirstOr(ts, null) && Segment(ts, null, null, true)
    requires CompleteList(ts, false) && PrintableItems(Items(ts))
    requires entries.Length == |ts| && forall j | 0 <= j < |ts| :: entries[j] == null
    modifies mem`live, mem`failures, entries
    ensures EntriesMade(mem, old(mem.live), entries, |ts|) && fresh(Held(entries[..]))
    ensures mem.failures >= old(mem.failures) && (fail <==> mem.failures > old(mem.failures))
    ensures !fail ==> Matching(entries[..], old(ItemTexts(Items(ts), depth, fmt)), |ts|)
    ensures !fail ==> len == 5 + Total(old(ItemTexts(Items(ts), depth, fmt)), if fmt then 3 else 2)
    decreases ts, 1
  {
    hide Linked, Segment, Value, Items, Complete, CompleteList, Printable, PrintableItems, PrintValue, ItemTexts, Held,
      NodesIn, NodesOf, StringsIn, StringsOf, CString, Terminated, BufferSize, Matching, EntriesMade;
    ghost var before, texts, extra := mem.live, ItemTexts(Items(ts), depth, fmt), if fmt then 3 else 2;
    NothingMade(mem, entries, texts);
    var child, i := first, 0;
    Foreign(ts, entries);
    assert ts[0..] == ts && texts[..0] == [] && texts[..|ts|] == texts;
    len, fail := 5, false;
    while child != null && !fail
      invariant i <= |ts| && child == FirstOr(ts[i..], null) && Segment(ts, null, null, true)
      invariant CompleteList(ts, false) && Items(ts) == old(Items(ts))
      invariant EntriesMade(mem, before, entries, i) && fresh(Held(entries[..]))
      invariant mem.failures >= old(mem.failures) && (fail <==> mem.failures > old(mem.failures))
      invariant !fail ==> Matching(entries[..], texts, i) && len == 5 + Total(texts[..i], extra)
      decreases |ts| - i
    {
      assert allocated(NodesOf(ts)) && allocated(StringsOf(ts));
      SegmentAt(ts, i, null, null, true);
      var n, ok := NextEntry(mem, child, entries, i, depth, fmt, ts, before, texts);
      if ok {
        len := len + n + if fmt then 3 else 2;
        TotalStep(texts, i, extra);
      } else {
        fail := true;
      }
      i, child := i + 1, child.next;
    }
    MadeSome(mem, before, entries, i);
  }

  lemma MadeSome(mem: Memory, before: set<object>, entries: array<array?<char>>, k: nat)
    requires EntriesMade(mem, before, entries, k)
    ensures EntriesMade(mem, before, entries, entries.Length)
  {}

  lemma NothingMade(mem: Memory, entries: array<array?<char>>, texts: seq<string>)
    requires forall j | 0 <= j < entries.Length :: entries[j] == null
    ensures EntriesMade(mem, mem.live, entries, 0) && Held(entries[..]) == {} && Matching(entries[..], texts, 0)
  {
    HeldNulls(entries[..]);
  }

  /** The end of print_array: the output is allocated and composed, and the entries are freed in any case. */
  method FinishArray(mem: Memory, entries: array<array?<char>>, len: nat, fail: bool, fmt: bool,
        ghost texts: seq<string>)
      returns (out: array?<char>)
    requires Distinct(entries[..]) && Held(entries[..]) <= mem.live
    requires !fail ==> entries.Length == |texts| > 0 && Matching(entries[..], texts, |texts|)
    requires !fail ==> len == 5 + Total(texts, if fmt then 3 else 2)
    modifies mem`live, mem`failures, Held(entries[..])
    ensures mem.failures >= old(mem.failures) && (out == null <==> fail || mem.failures > old(mem.failures))
    ensures out == null ==> mem.live == old(mem.live) - Held(entries[..])
    ensures out != null ==> fresh(out) && out !in old(mem.live) && mem.live == old(mem.live) - Held(entries[..]) + {out}
    ensures out != null ==> out.Length == len && Terminated(out) && CString(out) == "[" + Join(texts, fmt) + "]"
  {
    hide Held, Matching, CString, Terminated;
    out := null;
    if !fail {
      assert allocated(Held(entries[..]));
      out := mem.AllocChars(len);
    }
    if out == null {
      FreeAll(mem, entries);
    } else {
      ComposeArray(mem, out, entries, texts, fmt);
    }
  }

  /** print_array of some items. */
  method PrintFilled(mem: Memory, child: Node, numentries: nat, depth: nat, fmt: bool, ghost ts: seq<Tree>)
      returns (out: array?<char>)
    requires ts != [] && child == ts[0].node && Segment(ts, null, null, true) && numentries == |ts|
    requires CompleteList(ts, false) && PrintableItems(Items(ts))
    modifies mem`live, mem`failures
    ensures Printed(mem, out, old(PrintValue(Array(Items(ts)), depth, fmt)),
      old(BufferSize(Array(Items(ts)), depth, fmt)))
    decreases ts, 2
  {
    hide Linked, Segment, Value, Items, Complete, CompleteList, Printable, PrintableItems, PrintValue, ItemTexts, Held,
      CString, BufferSize, Matching, Join, Total, NodesOf, StringsOf, Terminated;
    ghost var items := Items(ts);
    assert allocated(NodesOf(ts)) && allocated(StringsOf(ts));
    var entries := mem.AllocStrings(numentries);
    if entries == null {
      return null;
    }
    var len, fail := ItemEntries(mem, child, entries, depth + 1, fmt, ts);
    ArrayText(items, depth, fmt);
    out := FinishArray(mem, entries, len, fail, fmt, ItemTexts(items, depth + 1, fmt));
    mem.FreeStrings(entries);
  }

  /** print_array. */
  method PrintArray(mem: Memory, item: Node, depth: nat, fmt: bool, ghost t: Tree) returns (out: array?<char>)
    requires item == t.node && item.child == FirstOr(t.kids, null) && Segment(t.kids, null, null, true)
    requires CompleteList(t.kids, false) && PrintableItems(Items(t.kids))
    modifies mem`live, mem`failures
    ensures Printed(mem, out, old(PrintValue(Array(Items(t.kids)), depth, fmt)),
      old(BufferSize(Array(Items(t.kids)), depth, fmt)))
    decreases t, 0
  {
    hide Linked, Segment, Value, Items, Complete, CompleteList, Printable, PrintableItems, PrintValue, CString,
      BufferSize;
    assert allocated(NodesOf(t.kids)) && allocated(StringsOf(t.kids));
    var numentries := CountSiblings(item.child, t.kids);
    if numentries == 0 {
      NoItems(depth, fmt);
      out := DupWord(mem, "[]");
    } else {
      out := PrintFilled(mem, item.child, numentries, depth, fmt, t.kids);
    }
  }

  lemma NoItems(depth: nat, fmt: bool)
    ensures PrintableItems([]) && PrintValue(Array([]), depth, fmt) == "[]" && BufferSize(Array([]), depth, fmt) == 3
  {}

  lemma ArrayText(items: seq<Json>, depth: nat, fmt: bool)
    requires items != [] && PrintableItems(items)
    ensures PrintValue(Array(items), depth, fmt) == "[" + Join(ItemTexts(items, depth + 1, fmt), fmt) + "]"
    ensures BufferSize(Array(items), depth, fmt) == 5 + Total(ItemTexts(items, depth + 1, fmt), if fmt then 3 else 2)
  {
    hide ItemTexts, PrintItems;
    JoinItems(items, depth + 1, fmt);
    JoinLength(ItemTexts(items, depth + 1, fmt), fmt);
  }

  // ---- print_object ----

  ghost function NameTexts(members: seq<Member>): (texts: seq<string>)
    requires PrintableMembers(members)
    ensures |texts| == |members|
  {
    if members == [] then [] else [PrintString(members[0].name)] + NameTexts(members[1..])
  }

  ghost function ValueTexts(members: seq<Member>, depth: nat, fmt: bool): (texts: seq<string>)
    requires PrintableMembers(members)
    ensures |texts| == |members|
  {
    if members == [] then [] else [PrintValue(members[0].value, depth, fmt)] + ValueTexts(members[1..], depth, fmt)
  }

  /** One member on its line. */
  ghost function Line(name: string, value: string, last: bool, depth: nat, fmt: bool): (line: string)
    ensures |line| == |name| + |value| + (if last then 1 else 2) + if fmt then depth + 2 else 0
  {
    If(fmt, Tabs(depth)) + name + ":" + If(fmt, "\t") + value + (if last then "" else ",") + If(fmt, "\n")
  }

  /** The members of an object, from the texts of their names and values. */
  ghost function Lines(names: seq<string>, values: seq<string>, depth: nat, fmt: bool): string
    requires |names| == |values|
  {
    if names == [] then ""
    else Line(names[0], values[0], |names| == 1, depth, fmt) + Lines(names[1..], values[1..], depth, fmt)
  }

  lemma {:induction false} LinesOfMembers(members: seq<Member>, depth: nat, fmt: bool)
    requires PrintableMembers(members)
    ensures PrintMembers(members, depth, fmt) == Lines(NameTexts(members), ValueTexts(members, depth, fmt), depth, fmt)
  {
    hide PrintValue, PrintString, Tabs, PrintMember, Line, If;
    if members != [] {
      var m := members[0];
      LinesOfMembers(members[1..], depth, fmt);
      assert NameTexts(members)[1..] == NameTexts(members[1..]);
      assert ValueTexts(members, depth, fmt)[1..] == ValueTexts(members[1..], depth, fmt);
      LineOfMember(m, |members| == 1, depth, fmt);
      var line := Line(PrintString(m.name), PrintValue(m.value, depth, fmt), |members| == 1, depth, fmt);
      var rest := PrintMembers(members[1..], depth, fmt);
      Regroup(PrintMember(m, depth, fmt), ",", If(fmt, "\n"), rest);
      assert line + "" == line;
    }
  }

  lemma Regroup(a: string, b: string, c: string, d: string)
    ensures a + (b + c + d) == a + b + c + d
  {}

  lemma LineOfMember(m: Member, last: bool, depth: nat, fmt: bool)
    requires IsText(m.name) && Printable(m.value)
    ensures Line(PrintString(m.name), PrintValue(m.value, depth, fmt), last, depth, fmt)
         == if last then PrintMember(m, depth, fmt) + If(fmt, "\n")
            else PrintMember(m, depth, fmt) + "," + If(fmt, "\n")
  {
    hide PrintValue, PrintString, Tabs, If;
    assert PrintMember(m, depth, fmt) + "" == PrintMember(m, depth, fmt);
  }

  lemma {:induction false} LinesLength(names: seq<string>, values: seq<string>, depth: nat, fmt: bool)
    requires |names| == |values| > 0
    ensures Total(names, 0) + Total(values, if fmt then 4 + depth else 2) == |Lines(names, values, depth, fmt)| + 1
  {
    if |names| > 1 {
      LinesLength(names[1..], values[1..], depth, fmt);
    }
  }

  lemma LinesStep(names: seq<string>, values: seq<string>, i: nat, before: string, depth: nat, fmt: bool)
    requires i < |names| == |values|
    ensures before + Lines(names[i..], values[i..], depth, fmt)
         == before + Line(names[i], values[i], i == |names| - 1, depth, fmt)
            + Lines(names[i + 1..], values[i + 1..], depth, fmt)
    ensures |Lines(names[i..], values[i..], depth, fmt)|
         == |Line(names[i], values[i], i == |names| - 1, depth, fmt)|
            + |Lines(names[i + 1..], values[i + 1..], depth, fmt)|
  {
    hide Line;
    assert names[i..][1..] == names[i + 1..] && values[i..][1..] == values[i + 1..];
    var line := Line(names[i], values[i], i == |names| - 1, depth, fmt);
    var rest := Lines(names[i + 1..], values[i + 1..], depth, fmt);
    assert before + (line + rest) == before + line + rest;
  }

  lemma TabsStep(k: nat)
    ensures Tabs(k + 1) == Tabs(k) + ['\t']
  {
    if k > 0 {
      TabsStep(k - 1);
    }
  }

  /** A run of tabs behind what is written. */
  method AppendTabs(out: array<char>, w: nat, k: int) returns (end: nat)
    requires w + |Tabs(k)| < out.Length
    modifies out
    ensures end == w + |Tabs(k)| && out[..end] == old(out[..w]) + Tabs(k)
  {
    end := w;
    var j := 0;
    while j < k
      invariant 0 <= j && (0 <= k ==> j <= k) && end == w + j && (k < 0 ==> j == 0)
      invariant out[..end] == old(out[..w]) + Tabs(j)
    {
      TabsStep(j);
      end := Append(out, end, '\t');
      j := j + 1;
    }
    assert k < 0 ==> Tabs(k) == Tabs(0);
  }

  lemma LineBehind(before: string, name: string, value: string, last: bool, depth: nat, fmt: bool)
    ensures before + Line(name, value, last, depth, fmt)
         == before + If(fmt, Tabs(depth)) + name + ":" + If(fmt, "\t") + value + (if last then "" else ",")
            + If(fmt, "\n")
  {
    hide Tabs, If;
    var tabs, tab, comma, line := If(fmt, Tabs(depth)), If(fmt, "\t"), if last then "" else ",", If(fmt, "\n");
    Regroup(before, tabs, name, ":");
    Regroup(before, tabs + name + ":", tab, value);
    Regroup(before, tabs + name + ":" + tab + value, comma, line);
  }

  /** The name of a member and the colon. */
  method ComposeName(out: array<char>, w: nat, name: array<char>, depth: nat, fmt: bool) returns (end: nat)
    requires Terminated(name) && out != name
    requires w + |CString(name)| + (if fmt then depth + 2 else 1) < out.Length
    modifies out
    ensures end == w + |CString(name)| + if fmt then depth + 2 else 1
    ensures out[..end] == old(out[..w]) + If(fmt, Tabs(depth)) + CString(name) + ":" + If(fmt, "\t")
  {
    hide CString, Terminated, Tabs;
    end := w;
    if fmt {
      end := AppendTabs(out, end, depth);
    }
    end := AppendPart(out, end, name);
    end := Append(out, end, ':');
    if fmt {
      end := Append(out, end, '\t');
    }
  }

  /** One pass of the loop that composes an object. */
  method ComposeMember(mem: Memory, out: array<char>, w: nat, name: array<char>, entry: array<char>,
        last: bool, depth: nat, fmt: bool) returns (end: nat)
    requires Terminated(name) && Terminated(entry) && out != entry && out != name && name != entry
    requires w + |Line(CString(name), CString(entry), last, depth, fmt)| < out.Length
    requires name in mem.live && entry in mem.live && '\0' !in out[..w]
    modifies mem`live, out, name, entry
    ensures end == w + |old(Line(CString(name), CString(entry), last, depth, fmt))|
    ensures mem.live == old(mem.live) - {name} - {entry}
    ensures out[..end] == old(out[..w]) + old(Line(CString(name), CString(entry), last, depth, fmt))
    ensures '\0' !in out[..end]
  {
    hide CString, Terminated, Tabs, Line;
    LineBehind(out[..w], CString(name), CString(entry), last, depth, fmt);
    NoNul(name);
    NoNul(entry);
    end := ComposeName(out, w, name, depth, fmt);
    end := AppendPart(out, end, entry);
    if !last {
      end := Append(out, end, ',');
    }
    if fmt {
      end := Append(out, end, '\n');
    }
    mem.FreeChars(name);
    mem.FreeChars(entry);
  }

  /** How far the composition of an object is when k members are written. */
  ghost predicate ComposingLines(out: array<char>, ptr: nat, names: seq<string>, values: seq<string>, k: nat,
        depth: nat, fmt: bool)
    requires k <= |names| == |values|
    reads out
  {
    && ptr + |Lines(names[k..], values[k..], depth, fmt)| + (if fmt then depth else 0) + 5 < out.Length
    && out[..ptr] + Lines(names[k..], values[k..], depth, fmt) == "{" + If(fmt, "\n") + Lines(names, values, depth, fmt)
    && '\0' !in out[..ptr]
  }

  /** The names and values that are not written yet, when i members are; those written have been freed. */
  ghost predicate Unwritten(mem: Memory, before: set<object>, ns: seq<array?<char>>, es: seq<array?<char>>,
        nameTexts: seq<string>, valueTexts: seq<string>, i: nat)
    requires i <= |ns| == |es| == |nameTexts| == |valueTexts|
    reads mem`live, Held(ns), Held(es)
  {
    && mem.live == before - Held(ns[..i]) - Held(es[..i])
    && (forall k | i <= k < |ns| :: ns[k] != null && Terminated(ns[k]) && CString(ns[k]) == nameTexts[k])
    && (forall k | i <= k < |es| :: es[k] != null && Terminated(es[k]) && CString(es[k]) == valueTexts[k])
  }

  /** One member, of those not written yet. */
  method NextLine(mem: Memory, out: array<char>, w: nat, name: array?<char>, entry: array?<char>, i: nat, depth: nat,
        fmt: bool,
        ghost before: set<object>, ghost ns: seq<array?<char>>, ghost es: seq<array?<char>>,
        ghost nameTexts: seq<string>, ghost valueTexts: seq<string>, last: bool) returns (ptr: nat)
    requires i < |ns| == |es| == |nameTexts| == |valueTexts| && name == ns[i] && entry == es[i]
    requires last == (i == |ns| - 1)
    requires Distinct(ns) && Distinct(es) && Held(ns) !! Held(es) && Held(ns) <= before && Held(es) <= before
    requires out !in Held(ns) && out !in Held(es)
    requires Unwritten(mem, before, ns, es, nameTexts, valueTexts, i)
    requires ComposingLines(out, w, nameTexts, valueTexts, i, depth, fmt)
    modifies mem`live, out, Held(ns), Held(es)
    ensures Unwritten(mem, before, ns, es, nameTexts, valueTexts, i + 1)
    ensures ComposingLines(out, ptr, nameTexts, valueTexts, i + 1, depth, fmt)
  {
    hide Held, StringBlock, Lines, Line, UpToNul, CString, Terminated, Tabs, If;
    LinesStep(nameTexts, valueTexts, i, out[..w], depth, fmt);
    HeldStep(ns, i);
    HeldStep(es, i);
    FreedPair(before, Held(ns[..i]), Held(es[..i]), ns[i], es[i]);
    ptr := ComposeMember(mem, out, w, name, entry, last, depth, fmt);
  }

  /** The loop that composes the members of an object, at this depth. */
  method ComposeLines(mem: Memory, out: array<char>, w: nat, names: array<array?<char>>, entries: array<array?<char>>,
        ghost nameTexts: seq<string>, ghost valueTexts: seq<string>, depth: nat, fmt: bool) returns (ptr: nat)
    requires names.Length == entries.Length == |nameTexts| == |valueTexts|
    requires Matching(names[..], nameTexts, |nameTexts|) && Matching(entries[..], valueTexts, |valueTexts|)
    requires Distinct(names[..]) && Distinct(entries[..]) && Held(names[..]) !! Held(entries[..])
    requires Held(names[..]) <= mem.live && Held(entries[..]) <= mem.live
    requires out !in Held(names[..]) && out !in Held(entries[..])
    requires ComposingLines(out, w, nameTexts, valueTexts, 0, depth, fmt)
    modifies mem`live, out, Held(names[..]), Held(entries[..])
    ensures mem.live == old(mem.live) - Held(names[..]) - Held(entries[..])
    ensures ComposingLines(out, ptr, nameTexts, valueTexts, |nameTexts|, depth, fmt)
  {
    hide Held, StringBlock, Lines, Line, UpToNul, CString, Terminated, Tabs, If, ComposingLines;
    ghost var ns, es, before := names[..], entries[..], mem.live;
    ptr := w;
    assert ns[..0] == [] && es[..0] == [];
    HeldNothing();
    for i := 0 to names.Length
      invariant names[..] == ns && entries[..] == es
      invariant Unwritten(mem, before, ns, es, nameTexts, valueTexts, i)
      invariant ComposingLines(out, ptr, nameTexts, valueTexts, i, depth, fmt)
    {
      ptr := NextLine(mem, out, ptr, names[i], entries[i], i, depth, fmt, before, ns, es, nameTexts, valueTexts,
                      i == names.Length - 1);
    }
    assert ns[..names.Length] == ns && es[..entries.Length] == es;
  }

  /** The writing pass of print_object; the members stand at this depth. */
  method ComposeObject(mem: Memory, out: array<char>, names: array<array?<char>>, entries: array<array?<char>>,
        ghost nameTexts: seq<string>, ghost valueTexts: seq<string>, depth: nat, fmt: bool)
    requires names.Length == entries.Length == |nameTexts| == |valueTexts| > 0 && depth > 0
    requires Matching(names[..], nameTexts, |nameTexts|) && Matching(entries[..], valueTexts, |valueTexts|)
    requires Distinct(names[..]) && Distinct(entries[..]) && Held(names[..]) !! Held(entries[..])
    requires Held(names[..]) <= mem.live && Held(entries[..]) <= mem.live
    requires out !in Held(names[..]) && out !in Held(entries[..])
    requires out.Length
          == 7 + (if fmt then depth else 0) + Total(nameTexts, 0) + Total(valueTexts, if fmt then 4 + depth else 2)
    modifies mem`live, out, Held(names[..]), Held(entries[..])
    ensures mem.live == old(mem.live) - Held(names[..]) - Held(entries[..])
    ensures Terminated(out)
    ensures CString(out)
         == "{" + If(fmt, "\n") + Lines(nameTexts, valueTexts, depth, fmt) + If(fmt, Tabs(depth - 1)) + "}"
  {
    hide Held, Matching, Lines, Total, UpToNul, CString, Terminated, Tabs;
    LinesLength(nameTexts, valueTexts, depth, fmt);
    assert nameTexts[0..] == nameTexts && valueTexts[0..] == valueTexts;
    assert nameTexts[names.Length..] == [] && valueTexts[names.Length..] == [];
    var ptr := OpenObject(out, fmt);
    ptr := ComposeLines(mem, out, ptr, names, entries, nameTexts, valueTexts, depth, fmt);
    NoLines(depth, fmt);
    assert out[..ptr] + "" == out[..ptr];
    CloseObject(out, ptr, depth, fmt);
  }

  /** The first line of an object. */
  method OpenObject(out: array<char>, fmt: bool) returns (end: nat)
    requires out.Length > 3
    modifies out
    ensures end == (if fmt then 2 else 1) && out[..end] == "{" + If(fmt, "\n")
  {
    end := Append(out, 0, '{');
    if fmt {
      end := Append(out, end, '\n');
    }
  }

  lemma FreedPair(live: set<object>, a: set<array<char>>, b: set<array<char>>, x: array<char>, y: array<char>)
    ensures live - a - b - {x} - {y} == live - (a + {x}) - (b + {y})
  {}

  /** The last line of an object. */
  method CloseObject(out: array<char>, w: nat, depth: nat, fmt: bool)
    requires w + (if fmt then depth else 0) + 5 < out.Length && '\0' !in out[..w] && depth > 0
    modifies out
    ensures Terminated(out) && CString(out) == old(out[..w]) + If(fmt, Tabs(depth - 1)) + "}"
  {
    var ptr := w;
    if fmt {
      ptr := AppendTabs(out, ptr, depth - 1);
    }
    ptr := Append(out, ptr, '}');
    out[ptr] := '\0';
    TerminatedAt(out, ptr);
  }

  lemma NoLines(depth: nat, fmt: bool)
    ensures Lines([], [], depth, fmt) == ""
  {}

  lemma {:induction false} MemberAt(ts: seq<Tree>, i: nat, depth: nat, fmt: bool)
    requires i < |ts| && CompleteList(ts, true) && PrintableMembers(Members(ts))
    ensures Complete(ts[i]) && Printable(Value(ts[i])) && Terminated(ts[i].name) && IsText(CString(ts[i].name))
    ensures NameTexts(Members(ts))[i] == PrintString(CString(ts[i].name))
    ensures ValueTexts(Members(ts), depth, fmt)[i] == PrintValue(Value(ts[i]), depth, fmt)
  {
    hide Complete, Value, Printable, PrintValue, PrintString, CString;
    if i > 0 {
      MemberAt(ts[1..], i - 1, depth, fmt);
      assert Members(ts)[1..] == Members(ts[1..]);
    }
  }

  /** The two arrays of print_object: together they are what is live beyond the blocks before. */
  ghost predicate MadeBoth(mem: Memory, before: set<object>,
        names: array<array?<char>>, i: nat, entries: array<array?<char>>, k: nat)
    reads mem`live, names, entries
  {
    && EntriesMade(mem, before + Held(entries[..]), names, i) && EntriesMade(mem, before + Held(names[..]), entries, k)
    && before !! Held(names[..]) && before !! Held(entries[..])
  }

  lemma ForeignHeld(es: seq<array?<char>>, o: object)
    requires !(o is array<char>)
    ensures forall a | a in Held(es) :: a as object != o
  {}

  /** print_string_ptr of the name of a member. */
  method PrintName(mem: Memory, child: Node, ghost t: Tree) returns (out: array?<char>)
    requires child == t.node && Linked(t, true) && Terminated(t.name) && IsText(CString(t.name))
    modifies mem`live, mem`failures
    ensures Printed(mem, out, old(PrintString(CString(t.name))), |old(PrintString(CString(t.name)))| + 1)
  {
    out := PrintStringPtr(mem, child.name);
  }

  /** Prints the name of a member and stores it. */
  method StoreName(mem: Memory, child: Node, names: array<array?<char>>, i: nat, ghost entries: array<array?<char>>,
        ghost t: Tree, ghost before: set<object>, ghost texts: seq<string>) returns (str: array?<char>)
    requires child == t.node && Linked(t, true) && Terminated(t.name) && IsText(CString(t.name))
    requires i < names.Length == |texts| && i < entries.Length && names != entries
    requires texts[i] == PrintString(CString(t.name))
    requires MadeBoth(mem, before, names, i, entries, i)
    modifies mem`live, mem`failures, names
    ensures MadeBoth(mem, before, names, i + 1, entries, i)
    ensures forall a | a in Held(names[..]) :: fresh(a) || a in old(Held(names[..]))
    ensures mem.failures >= old(mem.failures) && (str != null <==> mem.failures == old(mem.failures))
    ensures str != null && old(Matching(names[..], texts, i)) ==> Matching(names[..], texts, i + 1)
    ensures str != null ==> Terminated(str) && CString(str) == texts[i]
  {
    hide Linked, Held, CString, PrintString, Terminated;
    assert allocated(Held(names[..]));
    str := PrintName(mem, child, t);
    Store(mem, names, i, str, before + Held(entries[..]), texts);
  }

  /** Prints the value of a member and stores it. */
  method StoreValue(mem: Memory, child: Node, entries: array<array?<char>>, i: nat, depth: nat, fmt: bool,
        ghost names: array<array?<char>>, ghost t: Tree, ghost before: set<object>, ghost texts: seq<string>)
      returns (ret: array?<char>)
    requires child == t.node && Linked(t, true) && Complete(t) && Printable(Value(t))
    requires i < entries.Length == |texts| && i < names.Length && names != entries
    requires texts[i] == PrintValue(Value(t), depth, fmt)
    requires MadeBoth(mem, before, names, i + 1, entries, i)
    modifies mem`live, mem`failures, entries
    ensures MadeBoth(mem, before, names, i + 1, entries, i + 1)
    ensures forall a | a in Held(entries[..]) :: fresh(a) || a in old(Held(entries[..]))
    ensures mem.failures >= old(mem.failures) && (ret != null <==> mem.failures == old(mem.failures))
    ensures ret != null && old(Matching(entries[..], texts, i)) ==> Matching(entries[..], texts, i + 1)
    ensures ret != null ==> Terminated(ret) && CString(ret) == texts[i]
    decreases t, 2
  {
    hide Linked, Complete, Value, Printable, Held, CString, PrintValue, BufferSize, Terminated;
    assert allocated(Held(entries[..]));
    ret := PrintNode(mem, child, depth, fmt, t);
    Store(mem, entries, i, ret, before + Held(names[..]), texts);
  }

  /** One pass of the loop of print_object that prints the names and the values. */
  method NextEntries(mem: Memory, child: Node, names: array<array?<char>>, entries: array<array?<char>>, i: nat,
        depth: nat, fmt: bool, ghost ts: seq<Tree>, ghost before: set<object>,
        ghost nameTexts: seq<string>, ghost valueTexts: seq<string>) returns (n: nat, ok: bool)
    requires Segment(ts, null, null, true) && CompleteList(ts, true) && PrintableMembers(Members(ts))
    requires nameTexts == NameTexts(Members(ts)) && valueTexts == ValueTexts(Members(ts), depth, fmt)
    requires i < |ts| == entries.Length == names.Length && child == ts[i].node && names != entries
    requires MadeBoth(mem, before, names, i, entries, i)
    modifies mem`live, mem`failures, names, entries
    ensures MadeBoth(mem, before, names, i + 1, entries, i + 1)
    ensures forall a | a in Held(names[..]) :: fresh(a) || a in old(Held(names[..]))
    ensures forall a | a in Held(entries[..]) :: fresh(a) || a in old(Held(entries[..]))
    ensures mem.failures >= old(mem.failures) && (ok <==> mem.failures == old(mem.failures))
    ensures ok && old(Matching(names[..], nameTexts, i)) ==> Matching(names[..], nameTexts, i + 1)
    ensures ok && old(Matching(entries[..], valueTexts, i)) ==> Matching(entries[..], valueTexts, i + 1)
    ensures ok ==> n == |nameTexts[i]| + |valueTexts[i]|
    decreases ts, 0
  {
    hide Linked, Segment, Value, Members, Complete, CompleteList, Printable, PrintableMembers, PrintValue, PrintString,
      NameTexts, ValueTexts, Held, CString, BufferSize, MadeBoth, Matching, Terminated, NodesOf, StringsOf;
    assert allocated(NodesOf(ts)) && allocated(StringsOf(ts));
    Foreign(ts, names);
    SegmentAt(ts, i, null, null, true);
    MemberAt(ts, i, depth, fmt);
    ForeignHeld(entries[..], names);
    assert allocated(Held(entries[..]));
    var str := StoreName(mem, child, names, i, entries, ts[i], before, nameTexts);
    SegmentAt(ts, i, null, null, true);
    MemberAt(ts, i, depth, fmt);
    ForeignHeld(names[..], entries);
    assert allocated(Held(names[..]));
    assert str != null ==> str as object != entries;
    var ret := StoreValue(mem, child, entries, i, depth, fmt, names, ts[i], before, valueTexts);
    assert allocated(Held(names[..])) && allocated(Held(entries[..]));
    n, ok := 0, str != null && ret != null;
    if ok {
      var vn := StrLen(ret);
      var nn := StrLen(str);
      n := vn + nn;
    }
  }

  /** The loop of print_object that prints the names and the values: it goes on when one fails. */
  method MemberEntries(mem: Memory, first: Node?, names: array<array?<char>>, entries: array<array?<char>>,
        depth: nat, fmt: bool, ghost ts: seq<Tree>) returns (len: nat, fail: bool)
    requires first == FirstOr(ts, null) && Segment(ts, null, null, true)
    requires CompleteList(ts, true) && PrintableMembers(Members(ts))
    requires names != entries && names.Length == |ts| == entries.Length
    requires forall j | 0 <= j < |ts| :: names[j] == null && entries[j] == null
    modifies mem`live, mem`failures, names, entries
    ensures MadeBoth(mem, old(mem.live), names, |ts|, entries, |ts|) && fresh(Held(names[..]))
    ensures fresh(Held(entries[..]))
    ensures mem.failures >= old(mem.failures) && (fail <==> mem.failures > old(mem.failures))
    ensures !fail ==> Matching(names[..], old(NameTexts(Members(ts))), |ts|)
    ensures !fail ==> Matching(entries[..], old(ValueTexts(Members(ts), depth, fmt)), |ts|)
    ensures !fail ==> len == 7 + (if fmt then depth else 0) + Total(old(NameTexts(Members(ts))), 0)
                             + Total(old(ValueTexts(Members(ts), depth, fmt)), if fmt then 4 + depth else 2)
    decreases ts, 1
  {
    hide Linked, Segment, Value, Members, Complete, CompleteList, Printable, PrintableMembers, PrintValue, PrintString,
      NameTexts, ValueTexts, Held, CString, BufferSize, MadeBoth, Matching, Terminated, NodesOf, StringsOf, NodesIn,
      StringsIn;
    ghost var before, extra := mem.live, if fmt then 4 + depth else 2;
    ghost var nameTexts, valueTexts := NameTexts(Members(ts)), ValueTexts(Members(ts), depth, fmt);
    NoneMade(mem, names, entries, nameTexts, valueTexts);
    Foreign(ts, names);
    Foreign(ts, entries);
    var child, i := first, 0;
    assert ts[0..] == ts && nameTexts[..0] == valueTexts[..0] == [];
    assert nameTexts[..|ts|] == nameTexts && valueTexts[..|ts|] == valueTexts;
    len, fail := if fmt then 7 + depth else 7, false;
    while child != null
      invariant i <= |ts| && child == FirstOr(ts[i..], null) && Segment(ts, null, null, true)
      invariant CompleteList(ts, true) && Members(ts) == old(Members(ts))
      invariant MadeBoth(mem, before, names, i, entries, i) && fresh(Held(names[..])) && fresh(Held(entries[..]))
      invariant mem.failures >= old(mem.failures) && (fail <==> mem.failures > old(mem.failures))
      invariant !fail ==> Matching(names[..], nameTexts, i) && Matching(entries[..], valueTexts, i)
      invariant !fail ==>
        len == 7 + (if fmt then depth else 0) + Total(nameTexts[..i], 0) + Total(valueTexts[..i], extra)
      decreases |ts| - i
    {
      assert allocated(NodesOf(ts)) && allocated(StringsOf(ts));
      SegmentAt(ts, i, null, null, true);
      var n, ok := NextEntries(mem, child, names, entries, i, depth, fmt, ts, before, nameTexts, valueTexts);
      if ok {
        len := len + n + if fmt then 4 + depth else 2;
        TotalStep(nameTexts, i, 0);
        TotalStep(valueTexts, i, extra);
      } else {
        fail := true;
      }
      i, child := i + 1, child.next;
    }
  }

  lemma NoneMade(mem: Memory, names: array<array?<char>>, entries: array<array?<char>>,
        nameTexts: seq<string>, valueTexts: seq<string>)
    requires forall j | 0 <= j < names.Length :: names[j] == null
    requires forall j | 0 <= j < entries.Length :: entries[j] == null
    ensures MadeBoth(mem, mem.live, names, 0, entries, 0) && Held(names[..]) == {} && Held(entries[..]) == {}
    ensures Matching(names[..], nameTexts, 0) && Matching(entries[..], valueTexts, 0)
  {
    HeldNulls(names[..]);
    HeldNulls(entries[..]);
  }

  /** The end of print_object: the output is allocated and composed, and the names and entries are freed in any case. */
  method FinishObject(mem: Memory, names: array<array?<char>>, entries: array<array?<char>>, len: nat, fail: bool,
        depth: nat, fmt: bool, ghost nameTexts: seq<string>, ghost valueTexts: seq<string>) returns (out: array?<char>)
    requires Distinct(names[..]) && Distinct(entries[..]) && Held(names[..]) !! Held(entries[..]) && depth > 0
    requires Held(names[..]) <= mem.live && Held(entries[..]) <= mem.live
    requires !fail ==> names.Length == entries.Length == |nameTexts| == |valueTexts| > 0
    requires !fail ==> Matching(names[..], nameTexts, |nameTexts|) && Matching(entries[..], valueTexts, |valueTexts|)
    requires !fail ==>
      len == 7 + (if fmt then depth else 0) + Total(nameTexts, 0) + Total(valueTexts, if fmt then 4 + depth else 2)
    modifies mem`live, mem`failures, Held(names[..]), Held(entries[..])
    ensures mem.failures >= old(mem.failures) && (out == null <==> fail || mem.failures > old(mem.failures))
    ensures out == null ==> mem.live == old(mem.live) - Held(names[..]) - Held(entries[..])
    ensures out != null ==> fresh(out) && out !in old(mem.live)
    ensures out != null ==> mem.live == old(mem.live) - Held(names[..]) - Held(entries[..]) + {out}
    ensures out != null ==> out.Length == len && Terminated(out) && |nameTexts| == |valueTexts|
    ensures out != null ==>
      CString(out) == "{" + If(fmt, "\n") + Lines(nameTexts, valueTexts, depth, fmt) + If(fmt, Tabs(depth - 1)) + "}"
  {
    hide Held, Matching, CString, Terminated, Lines, Tabs, If, Total;
    assert allocated(Held(names[..])) && allocated(Held(entries[..]));
    ForeignHeld(names[..], entries);
    ForeignHeld(names[..], names);
    ForeignHeld(entries[..], entries);
    ForeignHeld(entries[..], names);
    out := null;
    if !fail {
      out := mem.AllocChars(len);
    }
    if out == null {
      FreeAll(mem, names);
      FreeAll(mem, entries);
    } else {
      ComposeObject(mem, out, names, entries, nameTexts, valueTexts, depth, fmt);
    }
  }

  lemma ObjectText(members: seq<Member>, depth: nat, fmt: bool)
    requires members != [] && PrintableMembers(members)
    ensures PrintValue(Object(members), depth, fmt)
         == "{" + If(fmt, "\n") + Lines(NameTexts(members), ValueTexts(members, depth + 1, fmt), depth + 1, fmt)
            + If(fmt, Tabs(depth)) + "}"
    ensures BufferSize(Object(members), depth, fmt)
         == 7 + (if fmt then depth + 1 else 0) + Total(NameTexts(members), 0)
            + Total(ValueTexts(members, depth + 1, fmt), if fmt then 4 + (depth + 1) else 2)
  {
    hide NameTexts, ValueTexts, PrintMembers, Lines;
    LinesOfMembers(members, depth + 1, fmt);
    LinesLength(NameTexts(members), ValueTexts(members, depth + 1, fmt), depth + 1, fmt);
  }

  /** print_object of some members. */
  method PrintMembersOf(mem: Memory, child: Node, numentries: nat, depth: nat, fmt: bool, ghost ts: seq<Tree>)
      returns (out: array?<char>)
    requires ts != [] && child == ts[0].node && Segment(ts, null, null, true) && numentries == |ts|
    requires CompleteList(ts, true) && PrintableMembers(Members(ts))
    modifies mem`live, mem`failures
    ensures Printed(mem, out, old(PrintValue(Object(Members(ts)), depth, fmt)),
      old(BufferSize(Object(Members(ts)), depth, fmt)))
    decreases ts, 2
  {
    hide Linked, Segment, Value, Members, Complete, CompleteList, Printable, PrintableMembers, PrintValue, NameTexts,
      ValueTexts, Held, CString, BufferSize, Matching, Lines, Total, NodesOf, StringsOf, Terminated, Tabs, If;
    ghost var members := Members(ts);
    assert allocated(NodesOf(ts)) && allocated(StringsOf(ts));
    var entries := mem.AllocStrings(numentries);
    if entries == null {
      return null;
    }
    var names := mem.AllocStrings(numentries);
    if names == null {
      mem.FreeStrings(entries);
      return null;
    }
    var len, fail := MemberEntries(mem, child, names, entries, depth + 1, fmt, ts);
    ObjectText(members, depth, fmt);
    out := FinishObject(mem, names, entries, len, fail, depth + 1, fmt, NameTexts(members),
      ValueTexts(members, depth + 1, fmt));
    mem.FreeStrings(names);
    mem.FreeStrings(entries);
  }

  lemma NoMembers(depth: nat, fmt: bool)
    ensures PrintableMembers([])
    ensures PrintValue(Object([]), depth, fmt) == "{" + If(fmt, "\n" + Tabs(depth - 1)) + "}"
    ensures BufferSize(Object([]), depth, fmt) == if fmt then depth + 4 else 3
  {}

  /** print_object without members. */
  method PrintEmptyObject(mem: Memory, depth: nat, fmt: bool) returns (out: array?<char>)
    modifies mem`live, mem`failures
    ensures Printed(mem, out, "{" + If(fmt, "\n" + Tabs(depth - 1)) + "}", if fmt then depth + 4 else 3)
  {
    out := mem.AllocChars(if fmt then depth + 4 else 3);
    if out == null {
      return;
    }
    var ptr := Append(out, 0, '{');
    assert out[..ptr] == "{";
    if fmt {
      ptr := Append(out, ptr, '\n');
      ptr := AppendTabs(out, ptr, depth - 1);
      assert out[..ptr] == "{" + ("\n" + Tabs(depth - 1));
    } else {
      assert out[..ptr] == "{" + "";
    }
    ptr := Append(out, ptr, '}');
    out[ptr] := '\0';
    TerminatedAt(out, ptr);
  }

  /** print_object. */
  method PrintObject(mem: Memory, item: Node, depth: nat, fmt: bool, ghost t: Tree) returns (out: array?<char>)
    requires item == t.node && item.child == FirstOr(t.kids, null) && Segment(t.kids, null, null, true)
    requires CompleteList(t.kids, true) && PrintableMembers(Members(t.kids))
    modifies mem`live, mem`failures
    ensures Printed(mem, out, old(PrintValue(Object(Members(t.kids)), depth, fmt)),
      old(BufferSize(Object(Members(t.kids)), depth, fmt)))
    decreases t, 0
  {
    hide Linked, Segment, Value, Members, Complete, CompleteList, Printable, PrintableMembers, PrintValue, CString,
      BufferSize, Tabs, If;
    assert allocated(NodesOf(t.kids)) && allocated(StringsOf(t.kids));
    var numentries := CountSiblings(item.child, t.kids);
    if numentries == 0 {
      NoMembers(depth, fmt);
      out := PrintEmptyObject(mem, depth, fmt);
    } else {
      out := PrintMembersOf(mem, item.child, numentries, depth, fmt, t.kids);
    }
  }

  /** print_value: on success exactly one live buffer more, which holds the printed text; on failure none. It fails only
      when an allocation fails. */
  method PrintNode(mem: Memory, item: Node, depth: nat, fmt: bool, ghost t: Tree) returns (out: array?<char>)
    requires item == t.node && Linked(t, true) && Complete(t) && Printable(Value(t))
    modifies mem`live, mem`failures
    ensures Printed(mem, out, old(PrintValue(Value(t), depth, fmt)), old(BufferSize(Value(t), depth, fmt)))
    decreases t, 1
  {
    hide Segment, CString, Tabs, If, IntText, PrintString;
    if item.kind == NULL {
      out := DupWord(mem, "null");
    } else if item.kind == FALSE {
      out := DupWord(mem, "false");
    } else if item.kind == TRUE {
      out := DupWord(mem, "true");
    } else if item.kind == NUMBER {
      out := PrintNumber(mem, item);
    } else if item.kind == STRING {
      out := PrintStringPtr(mem, item.valuestring);
    } else if item.kind == ARRAY {
      out := PrintArray(mem, item, depth, fmt, t);
    } else {
      out := PrintObject(mem, item, depth, fmt, t);
    }
  }

  /** cJSON_Print and cJSON_PrintUnformatted: without an item there is nothing to print. */
  method Print(mem: Memory, item: Node?, fmt: bool, ghost t: Tree) returns (out: array?<char>)
    requires item != null ==> item == t.node && Linked(t, true) && Complete(t) && Printable(Value(t))
    modifies mem`live, mem`failures
    ensures item == null ==> out == null && mem.live == old(mem.live)
    ensures item != null ==> Printed(mem, out, old(PrintValue(Value(t), 0, fmt)), old(BufferSize(Value(t), 0, fmt)))
  {
    hide Linked, Complete, Value, Printable, PrintValue, BufferSize;
    out := null;
    if item != null {
      out := PrintNode(mem, item, 0, fmt, t);
    }
  }
}
