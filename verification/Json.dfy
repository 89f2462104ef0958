/** JSON values, and their texts in cJSON. */
module Json {
  // What parse_value reads and what print_value prints, as functions.

  import opened CText
  import opened JsonNumbers
  import opened JsonStrings

  /** The value of a tree of nodes. A number has the two fields valueint and valuedouble. */
  datatype Json =
    | Null
    | False
    | True
    | Number(i: int, d: real)
    | String(text: string)
    | Array(items: seq<Json>)
    | Object(members: seq<Member>)

  datatype Member = Member(name: string, value: Json)

  // ---- reading ----

  predicate StartsWith(s: string, word: string) {
    word <= s
  }

  /** parse_value. */
  function ParseValue(s: string): (r: Parsed<Json>)
    ensures r.Accepted? ==> |r.rest| < |s|
    decreases |s|, 1
  {
    if StartsWith(s, "null") then Accepted(Null, s[4..])
    else if StartsWith(s, "false") then Accepted(False, s[5..])
    else if StartsWith(s, "true") then Accepted(True, s[4..])
    else if Peek(s) == '\"' then
      match ParseString(s)
      case Accepted(text, rest) => Accepted(String(text), rest)
      case Rejected => Rejected
      case Truncated => Truncated
    else if Peek(s) == '-' || IsDigit(Peek(s)) then
      ParseNumberAdvances(s);
      var (n, rest) := ParseNumber(s);
      Accepted(Number(Truncate(n), n), rest)
    else if Peek(s) == '[' then ParseArray(s)
    else if Peek(s) == '{' then ParseObject(s)
    else Rejected
  }

  /** parse_array. */
  function ParseArray(s: string): (r: Parsed<Json>)
    requires Peek(s) == '['
    ensures r.Accepted? ==> |r.rest| < |s|
    decreases |s|, 0
  {
    var t := Skip(s[1..]);
    if Peek(t) == ']' then Accepted(Array([]), t[1..])
    else
      match ParseItems(t)
      case Accepted(items, rest) => Accepted(Array(items), rest)
      case Rejected => Rejected
      case Truncated => Truncated
  }

  /** parse_object. */
  function ParseObject(s: string): (r: Parsed<Json>)
    requires Peek(s) == '{'
    ensures r.Accepted? ==> |r.rest| < |s|
    decreases |s|, 0
  {
    var t := Skip(s[1..]);
    if Peek(t) == '}' then Accepted(Object([]), t[1..])
    else
      match ParseMembers(t)
      case Accepted(members, rest) => Accepted(Object(members), rest)
      case Rejected => Rejected
      case Truncated => Truncated
  }

  /** The loop of parse_array: the items from here to the closing bracket. */
  function ParseItems(s: string): (r: Parsed<seq<Json>>)
    ensures r.Accepted? ==> |r.rest| < |s|
    decreases |s|, 2
  {
    match ParseValue(Skip(s))
    case Rejected => Rejected
    case Truncated => Truncated
    case Accepted(item, rest) =>
      var t := Skip(rest);
      if Peek(t) == ',' then
        match ParseItems(t[1..])
        case Accepted(items, rest') => Accepted([item] + items, rest')
        case Rejected => Rejected
        case Truncated => Truncated
      else if Peek(t) == ']' then Accepted([item], t[1..])
      else Rejected
  }

  /** The loop of parse_object: the members from here to the closing brace. */
  function ParseMembers(s: string): (r: Parsed<seq<Member>>)
    ensures r.Accepted? ==> |r.rest| < |s|
    decreases |s|, 2
  {
    match ParseString(Skip(s))
    case Rejected => Rejected
    case Truncated => Truncated
    case Accepted(name, rest) =>
      var colon := Skip(rest);
      if Peek(colon) != ':' then Rejected
      else
        match ParseValue(Skip(colon[1..]))
        case Rejected => Rejected
        case Truncated => Truncated
        case Accepted(value, rest') =>
          var t := Skip(rest');
          if Peek(t) == ',' then
            match ParseMembers(t[1..])
            case Accepted(members, rest'') => Accepted([Member(name, value)] + members, rest'')
            case Rejected => Rejected
            case Truncated => Truncated
          else if Peek(t) == '}' then Accepted([Member(name, value)], t[1..])
          else Rejected
  }

  /** cJSON_ParseWithOpts: leading white space is skipped, and with requireNullTerminated nothing but white space may
      follow the value. */
  function ParseWithOpts(s: string, requireNullTerminated: bool): Parsed<Json> {
    match ParseValue(Skip(s))
    case Rejected => Rejected
    case Truncated => Truncated
    case Accepted(v, rest) =>
      if !requireNullTerminated then Accepted(v, rest)
      else if Skip(rest) == [] then Accepted(v, []) else Rejected
  }

  // ---- printing ----

  /** The numbers that print_number prints with %d. */
  ghost predicate PrintsAsInt(i: int, d: real) {
    -DBL_EPSILON <= i as real - d <= DBL_EPSILON && INT_MIN as real <= d <= INT_MAX as real
  }

  /** DBL_EPSILON is 2 to the power -52. */
  lemma PrintsAsIntIs(i: int, d: real)
    ensures PrintsAsInt(i, d)
      <==> -1.0 <= (i as real - d) * 4503599627370496.0 <= 1.0 && -2147483648.0 <= d <= 2147483647.0
  {
    var x := i as real - d;
    assert DBL_EPSILON * 4503599627370496.0 == 1.0;
    assert x <= DBL_EPSILON <==> x * 4503599627370496.0 <= 1.0;
    assert -DBL_EPSILON <= x <==> -1.0 <= x * 4503599627370496.0;
  }

  /** A value that the printers of this model cover: numbers of the integer branch, and strings that are C strings. */
  ghost predicate Printable(v: Json)
    decreases v, 0
  {
    match v
    case Number(i, d) => PrintsAsInt(i, d)
    case String(text) => IsText(text)
    case Array(items) => PrintableItems(items)
    case Object(members) => PrintableMembers(members)
    case _ => true
  }

  ghost predicate PrintableItems(items: seq<Json>) {
    items == [] || (Printable(items[0]) && PrintableItems(items[1..]))
  }

  ghost predicate PrintableMembers(members: seq<Member>) {
    members == [] || (IsText(members[0].name) && Printable(members[0].value) && PrintableMembers(members[1..]))
  }

  /** A run of tabs; depth - 1 of them is none at depth 0. */
  function Tabs(n: int): (t: string)
    ensures |t| == if n < 0 then 0 else n
    ensures forall i | 0 <= i < |t| :: t[i] == '\t'
  {
    if n <= 0 then [] else ['\t'] + Tabs(n - 1)
  }

  function If(fmt: bool, s: string): string {
    if fmt then s else []
  }

  /** print_value. */
  ghost function PrintValue(v: Json, depth: nat, fmt: bool): string
    requires Printable(v)
    decreases v, 0
  {
    match v
    case Null => "null"
    case False => "false"
    case True => "true"
    case Number(i, _) => IntText(i)
    case String(text) => PrintString(text)
    case Array(items) => "[" + PrintItems(items, depth + 1, fmt) + "]"
    case Object(members) =>
      if members == [] then "{" + If(fmt, "\n" + Tabs(depth - 1)) + "}"
      else "{" + If(fmt, "\n") + PrintMembers(members, depth + 1, fmt) + If(fmt, Tabs(depth)) + "}"
  }

  /** The items of an array, each at this depth. */
  ghost function PrintItems(items: seq<Json>, depth: nat, fmt: bool): string
    requires PrintableItems(items)
  {
    if items == [] then ""
    else
      PrintValue(items[0], depth, fmt)
      + if |items| == 1 then "" else "," + If(fmt, " ") + PrintItems(items[1..], depth, fmt)
  }

  /** The members of an object, each at this depth and with fmt on a line of its own. */
  ghost function PrintMembers(members: seq<Member>, depth: nat, fmt: bool): string
    requires PrintableMembers(members)
  {
    if members == [] then ""
    else
      PrintMember(members[0], depth, fmt)
      + if |members| == 1 then If(fmt, "\n") else "," + If(fmt, "\n") + PrintMembers(members[1..], depth, fmt)
  }

  ghost function PrintMember(m: Member, depth: nat, fmt: bool): string
    requires IsText(m.name) && Printable(m.value)
    decreases m, 1
  {
    If(fmt, Tabs(depth)) + PrintString(m.name) + ":" + If(fmt, "\t") + PrintValue(m.value, depth, fmt)
  }

  // ---- printing, then reading ----

  /** The value that comes back: printing %d drops the difference, of at most DBL_EPSILON, between the two fields. */
  ghost function Rounded(v: Json): Json
    decreases v, 0
  {
    match v
    case Number(i, _) => Number(i, i as real)
    case Array(items) => Array(RoundedItems(items))
    case Object(members) => Object(RoundedMembers(members))
    case _ => v
  }

  ghost function RoundedItems(items: seq<Json>): seq<Json> {
    if items == [] then [] else [Rounded(items[0])] + RoundedItems(items[1..])
  }

  ghost function RoundedMembers(members: seq<Member>): seq<Member> {
    if members == [] then []
    else [Member(members[0].name, Rounded(members[0].value))] + RoundedMembers(members[1..])
  }
}
