/** C strings. */
module CText {
  // A text is the sequence of its bytes, as characters below 256, up to the terminating NUL.

  /** The outcome of reading a construct off the front of a text. Truncated stands for a text that ends inside an
      escape sequence: the C code then reads on past the terminator. */
  datatype Parsed<+T> = Accepted(value: T, rest: string) | Rejected | Truncated

  datatype Option<+T> = None | Some(value: T)

  /** What a pointer into a text sees: the next character, or the terminator. */
  function Peek(s: string): char {
    if s == [] then '\0' else s[0]
  }

  /** Bytes other than the terminator. */
  ghost predicate IsText(s: string) {
    forall i | 0 <= i < |s| :: '\0' < s[i] < 256 as char
  }

  predicate IsDigit(c: char) {
    '0' <= c <= '9'
  }

  function DigitValue(c: char): nat
    requires IsDigit(c)
  {
    c as int - '0' as int
  }

  function DigitChar(d: nat): (c: char)
    requires d < 10
    ensures IsDigit(c) && DigitValue(c) == d
  {
    '0' + d as char
  }

  /** skip: past every character up to the space character. */
  function Skip(s: string): (r: string)
    ensures |r| <= |s|
    ensures r == [] || r[0] > ' '
  {
    if s != [] && s[0] <= ' ' then Skip(s[1..]) else s
  }

  /** The number of digits at the front. */
  function DigitRun(s: string): (k: nat)
    ensures k <= |s|
    ensures forall i | 0 <= i < k :: IsDigit(s[i])
    ensures k < |s| ==> !IsDigit(s[k])
  {
    if s != [] && IsDigit(s[0]) then 1 + DigitRun(s[1..]) else 0
  }

  lemma {:induction false} DigitRunOf(ds: string, rest: string)
    requires (forall i | 0 <= i < |ds| :: IsDigit(ds[i])) && !IsDigit(Peek(rest))
    ensures DigitRun(ds + rest) == |ds|
  {
    if ds == [] {
      assert ds + rest == rest;
    } else {
      assert (ds + rest)[1..] == ds[1..] + rest;
      DigitRunOf(ds[1..], rest);
    }
  }

  lemma {:induction false} SkipOver(ws: string, s: string)
    requires forall i | 0 <= i < |ws| :: ws[i] <= ' '
    ensures Skip(ws + s) == Skip(s)
  {
    if ws == [] {
      assert ws + s == s;
    } else {
      assert (ws + s)[1..] == ws[1..] + s;
      SkipOver(ws[1..], s);
    }
  }

  // ---- texts in buffers ----

  /** The buffer holds the text s and its terminator. */
  ghost predicate Holds(text: array<char>, s: string)
    reads text
  {
    |s| < text.Length && text[..|s|] == s && text[|s|] == '\0' && IsText(s)
  }

  /** What the buffer shows at a position in the text or at its end. */
  lemma At(text: array<char>, s: string, p: nat)
    requires Holds(text, s) && p <= |s|
    ensures p <= |s| < text.Length && text[p] == Peek(s[p..])
    ensures text[p] == '\0' <==> p == |s|
    ensures text[p] != '\0' ==> p < |s| && text[p] == s[p] && s[p..][1..] == s[p + 1..]
  {
    assert p < |s| ==> text[..|s|][p] == s[p];
  }

  lemma DropDrop(s: string, i: nat, k: nat)
    requires i + k <= |s|
    ensures s[i..][k..] == s[i + k..]
  {}

  lemma TextOf(text: array<char>, s: string)
    requires Holds(text, s)
    ensures IsText(s)
  {}

  /** The characters up to the terminator. */
  ghost function UpToNul(s: string): string {
    if s == [] || s[0] == '\0' then [] else [s[0]] + UpToNul(s[1..])
  }

  ghost function CString(a: array?<char>): string
    reads a
  {
    if a == null then [] else UpToNul(a[..])
  }

  /** The buffer holds a string with its terminator. */
  ghost predicate Terminated(a: array?<char>)
    reads a
  {
    a != null && |CString(a)| < a.Length
  }

  lemma UpToNulOf(t: string, s: string)
    requires IsText(t)
    ensures UpToNul(t + (['\0'] + s)) == t
  {
    if t == [] {
      assert t + (['\0'] + s) == ['\0'] + s;
    } else {
      assert (t + (['\0'] + s))[1..] == t[1..] + (['\0'] + s);
      UpToNulOf(t[1..], s);
    }
  }

  lemma {:induction false} UpToNulIs(s: string)
    ensures UpToNul(s) <= s && forall i | 0 <= i < |UpToNul(s)| :: s[i] != '\0'
    ensures |UpToNul(s)| < |s| ==> s[|UpToNul(s)|] == '\0'
  {
    if s != [] && s[0] != '\0' {
      UpToNulIs(s[1..]);
      assert forall i | 0 < i < |UpToNul(s)| :: s[i] == s[1..][i - 1];
    }
  }

  lemma {:induction false} UpToNulAt(s: string, k: nat)
    requires k < |s| && s[k] == '\0' && forall i | 0 <= i < k :: s[i] != '\0'
    ensures UpToNul(s) == s[..k]
  {
    if k > 0 {
      UpToNulAt(s[1..], k - 1);
      assert s[..k] == [s[0]] + s[1..][..k - 1];
    }
  }

  lemma NoNul(a: array<char>)
    ensures '\0' !in CString(a)
  {
    UpToNulIs(a[..]);
  }

  // ---- the functions of string.h ----

  /** strlen. */
  method StrLen(a: array<char>) returns (n: nat)
    requires Terminated(a)
    ensures n == |CString(a)| < a.Length && a[..n] == CString(a) && a[n] == '\0'
  {
    UpToNulIs(a[..]);
    n := 0;
    while a[n] != '\0'
      invariant n <= |CString(a)|
      decreases a.Length - n
    {
      n := n + 1;
    }
    UpToNulAt(a[..], n);
  }

  /** strcpy, to a place in a buffer. */
  method StrCpy(out: array<char>, w: nat, a: array<char>)
    requires Terminated(a) && out != a && w + |CString(a)| < out.Length
    modifies out
    ensures out[..w] == old(out[..w]) && out[w..w + |CString(a)|] == CString(a) && out[w + |CString(a)|] == '\0'
  {
    UpToNulIs(a[..]);
    ghost var s := CString(a);
    assert forall k | 0 <= k < |s| :: s[k] == a[k] && a[k] != '\0';
    hide UpToNul, CString, Terminated;
    var i := 0;
    while a[i] != '\0'
      invariant i <= |s| && out[..w] == old(out[..w]) && out[w..w + i] == s[..i]
      decreases |s| - i
    {
      out[w + i] := a[i];
      i := i + 1;
      assert out[w..w + i] == out[w..w + i - 1] + [s[i - 1]];
    }
    out[w + i] := '\0';
    assert s[..i] == s;
  }

  /** strcpy of a literal, and sprintf of a text, to a place in a buffer. */
  method Put(out: array<char>, w: nat, s: string)
    requires w + |s| < out.Length
    modifies out
    ensures out[..w] == old(out[..w]) && out[w..w + |s|] == s && out[w + |s|] == '\0'
  {
    for i := 0 to |s|
      invariant out[..w] == old(out[..w]) && out[w..w + i] == s[..i]
    {
      out[w + i] := s[i];
    }
    out[w + |s|] := '\0';
  }

  /** A buffer that is terminated behind a text. */
  lemma TerminatedAt(out: array<char>, k: nat)
    requires k < out.Length && out[k] == '\0' && '\0' !in out[..k]
    ensures Terminated(out) && CString(out) == out[..k]
  {
    assert forall i | 0 <= i < k :: out[..][i] == out[..k][i];
    UpToNulAt(out[..], k);
  }
}
