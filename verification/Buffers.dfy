/** Parts of sequences: a buffer before and after a write to a stretch of it. The elements outside of the stretch are
    what they were, and two writes next to each other or to the same stretch are one. */
module Buffers {

  /** s with the elements from i on replaced by b. */
  function Splice<T>(s: seq<T>, i: nat, b: seq<T>): (r: seq<T>)
    requires i + |b| <= |s|
    ensures |r| == |s|
    ensures r[i..i + |b|] == b
    ensures forall k | 0 <= k < i || i + |b| <= k < |s| :: r[k] == s[k]
  {
    s[..i] + b + s[i + |b|..]
  }

  /** A splice by its elements. */
  lemma SpliceIs<T>(s: seq<T>, i: nat, b: seq<T>, r: seq<T>)
    requires i + |b| <= |s| == |r|
    requires forall k | 0 <= k < |b| :: r[i + k] == b[k]
    requires forall k | 0 <= k < |s| && !(i <= k < i + |b|) :: r[k] == s[k]
    ensures r == Splice(s, i, b)
  {
    forall k | 0 <= k < |s| ensures r[k] == Splice(s, i, b)[k] {
      if i <= k < i + |b| {
        assert r[i + (k - i)] == b[k - i] && Splice(s, i, b)[i..i + |b|][k - i] == b[k - i];
      }
    }
  }

  /** The n elements of s from i on. */
  function Slice<T>(s: seq<T>, i: nat, n: nat): (r: seq<T>)
    requires i + n <= |s|
    ensures |r| == n
  {
    s[i..i + n]
  }

  /** Two writes, the second right after the first, are one write of both. */
  lemma SpliceSplice<T>(s: seq<T>, i: nat, b: seq<T>, c: seq<T>)
    requires i + |b| + |c| <= |s|
    ensures Splice(Splice(s, i, b), i + |b|, c) == Splice(s, i, b + c)
  {}

  /** A second write to the same stretch is the only one that shows. */
  lemma SpliceOver<T>(s: seq<T>, i: nat, b: seq<T>, c: seq<T>)
    requires i + |b| <= |s| && |b| == |c|
    ensures Splice(Splice(s, i, b), i, c) == Splice(s, i, c)
  {}

  /** A write that continues what is already written, up to i. */
  lemma SpliceAtEnd<T>(done: seq<T>, s: seq<T>, i: nat, b: seq<T>)
    requires |done| == i && i + |b| <= |s|
    ensures Splice(done + s[i..], i, b) == done + b + s[i + |b|..]
    ensures Slice(done + b + s[i + |b|..], i, |b|) == b
  {}
}
