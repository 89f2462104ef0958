/** cJSON_Minify on a buffer: the text is rewritten in place, by a cursor that reads and one that writes behind it. */
module JsonMinifier {
  import opened CText
  import opened JsonMinify
  import opened JsonChunks

  /** The text from the reading cursor on is still there, and the writing cursor is not ahead of it. */
  ghost predicate Ahead(json: array<char>, s: string, p: nat, w: nat)
    reads json
  {
    && w <= p <= |s| < json.Length && json[|s|] == '\0' && '\0' !in s && '\0' !in json[..w]
    && json[p..|s|] == s[p..]
  }

  lemma Front(json: array<char>, s: string, p: nat, w: nat)
    requires Ahead(json, s, p, w)
    ensures w <= p <= |s| < json.Length && json[p] == Peek(s[p..]) && (json[p] == '\0' <==> p == |s|)
    ensures p < |s| ==> json[p] == s[p] && p + 1 < json.Length && json[p + 1] == Peek(s[p + 1..])
    ensures p < |s| ==> s[p..][1..] == s[p + 1..] && s[p..] != []
    ensures p + 1 < |s| ==> s[p..][2..] == s[p + 2..] && s[p..][1] == s[p + 1] == json[p + 1]
  {
    assert p < |s| ==> json[p..|s|][0] == s[p..][0];
    assert p + 1 < |s| ==> json[p..|s|][1] == s[p..][1];
  }

  /** Past some characters. */
  lemma StepOver(json: array<char>, s: string, p: nat, w: nat, n: nat)
    requires Ahead(json, s, p, w) && p + n <= |s|
    ensures Ahead(json, s, p + n, w)
  {
    assert json[p + n..|s|] == json[p..|s|][n..] && s[p + n..] == s[p..][n..];
  }

  /** The character at the read cursor is kept: it moves to the write cursor. */
  method Copy(json: array<char>, p: nat, w: nat, ghost s: string)
    requires Ahead(json, s, p, w) && p < |s|
    modifies json
    ensures Ahead(json, s, p + 1, w + 1) && json[..w + 1] == old(json[..w]) + [s[p]]
  {
    Front(json, s, p, w);
    ghost var before := json[p..|s|];
    json[w] := json[p];
    assert json[p + 1..|s|] == before[1..] && s[p + 1..] == s[p..][1..];
  }

  /** A line comment. */
  method SkipLine(json: array<char>, p: nat, ghost w: nat, ghost s: string) returns (q: nat)
    requires Ahead(json, s, p, w)
    ensures p <= q <= |s| && Ahead(json, s, q, w) && s[q..] == AfterLine(s[p..])
  {
    hide Ahead;
    q := p;
    Front(json, s, q, w);
    while json[q] != '\0' && json[q] != '\n'
      invariant p <= q <= |s| < json.Length && Ahead(json, s, q, w) && AfterLine(s[q..]) == AfterLine(s[p..])
      invariant json[q] == Peek(s[q..]) && (json[q] == '\0' <==> q == |s|)
      decreases |s| - q
    {
      Front(json, s, q, w);
      StepOver(json, s, q, w, 1);
      q := q + 1;
      Front(json, s, q, w);
    }
  }

  /** A comment that is closed. */
  method SkipComment(json: array<char>, p: nat, ghost w: nat, ghost s: string) returns (q: nat)
    requires Ahead(json, s, p, w) && AfterComment(s[p..]).Some?
    ensures p <= q <= |s| && Ahead(json, s, q, w) && s[q..] == AfterComment(s[p..]).value
  {
    hide Ahead;
    q := p;
    Front(json, s, q, w);
    while json[q] != '\0' && !(json[q] == '*' && json[q + 1] == '/')
      invariant p <= q <= |s| < json.Length && Ahead(json, s, q, w) && AfterComment(s[q..]) == AfterComment(s[p..])
      invariant json[q] == Peek(s[q..]) && (json[q] == '\0' <==> q == |s|)
      invariant q < |s| ==> json[q + 1] == Peek(s[q + 1..]) && s[q..][1..] == s[q + 1..]
      decreases |s| - q
    {
      Front(json, s, q, w);
      StepOver(json, s, q, w, 1);
      q := q + 1;
      Front(json, s, q, w);
    }
    Front(json, s, q, w);
    StepOver(json, s, q, w, 2);
    q := q + 2;
  }

  /** The characters from p to q have been copied behind what was written before. */
  ghost predicate Copied(json: array<char>, s: string, p: nat, q: nat, v: nat, before: string)
    reads json
  {
    Ahead(json, s, q, v) && p <= q && v == |before| + q - p && json[..v] == before + s[p..q]
  }

  lemma NoneCopied(json: array<char>, s: string, p: nat, w: nat)
    requires Ahead(json, s, p, w) && p <= |s|
    ensures w <= json.Length && Copied(json, s, p, p, w, json[..w])
  {
    assert s[p..p] == [] && json[..w] + [] == json[..w];
  }

  lemma CopiedSoFar(json: array<char>, s: string, p: nat, q: nat, v: nat, before: string)
    requires Copied(json, s, p, q, v, before)
    ensures p <= q <= |s| < json.Length && v == |before| + q - p <= json.Length && json[..v] == before + s[p..q]
    ensures Ahead(json, s, q, v) && json[q] == Peek(s[q..]) && (json[q] == '\0' <==> q == |s|)
  {
    Front(json, s, q, v);
  }

  method CopyOn(json: array<char>, q: nat, v: nat, ghost s: string, ghost p: nat, ghost before: string)
    requires Copied(json, s, p, q, v, before) && q < |s|
    modifies json
    ensures Copied(json, s, p, q + 1, v + 1, before)
  {
    Copy(json, q, v, s);
    assert s[p..q + 1] == s[p..q] + [s[q]];
  }

  lemma SpanStep(s: string, q: nat)
    requires q <= |s| && LiteralSpan(s[q..]).Some?
    ensures q < |s|
    ensures s[q] == '\"' ==> LiteralSpan(s[q..]).value == 0
    ensures s[q] == '\\' ==> q + 2 <= |s| && LiteralSpan(s[q + 2..]).Some?
    ensures s[q] == '\\' ==> LiteralSpan(s[q..]).value == 2 + LiteralSpan(s[q + 2..]).value
    ensures s[q] != '\"' && s[q] != '\\' ==> LiteralSpan(s[q + 1..]).Some?
    ensures s[q] != '\"' && s[q] != '\\' ==> LiteralSpan(s[q..]).value == 1 + LiteralSpan(s[q + 1..]).value
  {
    assert s[q..][1..] == s[q + 1..];
    assert |s[q..]| > 1 ==> s[q..][2..] == s[q + 2..];
  }

  /** One character of a literal, and the one behind it when it is a backslash. */
  method CopyEscaped(json: array<char>, q: nat, v: nat, ghost s: string, ghost p: nat, ghost before: string)
      returns (q': nat, v': nat)
    requires Copied(json, s, p, q, v, before) && q < |s| && s[q] != '\"' && LiteralSpan(s[q..]).Some?
    modifies json
    ensures q < q' <= |s| && Copied(json, s, p, q', v', before)
    ensures LiteralSpan(s[q'..]).Some? && q' + LiteralSpan(s[q'..]).value == q + LiteralSpan(s[q..]).value
  {
    hide LiteralSpan, Ahead;
    Front(json, s, q, v);
    SpanStep(s, q);
    q', v' := q, v;
    if json[q'] == '\\' {
      CopyOn(json, q', v', s, p, before);
      q', v' := q' + 1, v' + 1;
    }
    CopyOn(json, q', v', s, p, before);
    q', v' := q' + 1, v' + 1;
  }

  /** A string literal that is closed, quotes and all. */
  method CopyLiteral(json: array<char>, p: nat, w: nat, ghost s: string) returns (q: nat, v: nat)
    requires Ahead(json, s, p, w) && p < |s| && s[p] == '\"' && LiteralSpan(s[p + 1..]).Some?
    modifies json
    ensures q == p + LiteralSpan(s[p + 1..]).value + 2 <= |s| && v == w + q - p
    ensures Ahead(json, s, q, v) && json[..v] == old(json[..w]) + s[p..q]
  {
    hide LiteralSpan, Ahead, Copied;
    Front(json, s, p, w);
    ghost var before := json[..w];
    NoneCopied(json, s, p, w);
    CopyOn(json, p, w, s, p, before);
    q, v := p + 1, w + 1;
    CopiedSoFar(json, s, p, q, v, before);
    while json[q] != '\0' && json[q] != '\"'
      invariant p < q <= |s| < json.Length && Copied(json, s, p, q, v, before)
      invariant json[q] == Peek(s[q..]) && (json[q] == '\0' <==> q == |s|)
      invariant LiteralSpan(s[q..]).Some? && q + LiteralSpan(s[q..]).value == p + 1 + LiteralSpan(s[p + 1..]).value
      decreases |s| - q
    {
      q, v := CopyEscaped(json, q, v, s, p, before);
      CopiedSoFar(json, s, p, q, v, before);
    }
    SpanStep(s, q);
    CopyOn(json, q, v, s, p, before);
    q, v := q + 1, v + 1;
    CopiedSoFar(json, s, p, q, v, before);
  }

  /** What is written and what is still to come make up the minified text. */
  ghost predicate Minifying(json: array<char>, s: string, p: nat, w: nat)
    reads json
  {
    Ahead(json, s, p, w) && Minify(s).Some? && Minify(s) == Behind(json[..w], Minify(s[p..]))
  }

  lemma MinifyStep(done: string, part: string, r: Option<string>, t: Option<string>)
    requires r.Some? && r == Behind(done, Behind(part, t))
    ensures r == Behind(done + part, t)
  {
    BehindTwice(done, part, t);
  }

  /** One pass of the loop of cJSON_Minify. */
  method MinifyPass(json: array<char>, p: nat, w: nat, ghost s: string) returns (q: nat, v: nat)
    requires Minifying(json, s, p, w) && p < |s|
    modifies json
    ensures p < q && Minifying(json, s, q, v)
  {
    ghost var done := json[..w];
    hide Ahead;
    q, v := p, w;
    Front(json, s, p, w);
    if IsBlank(json[p]) {
      StepOver(json, s, p, w, 1);
      q := p + 1;
    } else if json[p] == '/' && json[p + 1] == '/' {
      q := SkipLine(json, p, w, s);
    } else if json[p] == '/' && json[p + 1] == '*' {
      q := SkipComment(json, p, w, s);
    } else if json[p] == '\"' {
      q, v := CopyLiteral(json, p, w, s);
      assert s[p..][..q - p] == s[p..q] && s[p..][q - p..] == s[q..];
      MinifyStep(done, s[p..q], Minify(s), Minify(s[q..]));
    } else {
      assert s[p..][..1] == [s[p]];
      MinifyStep(done, [s[p]], Minify(s), Minify(s[p + 1..]));
      Copy(json, p, w, s);
      q, v := p + 1, w + 1;
    }
  }

  /** cJSON_Minify. The result is terminated where the writing cursor stops, which is never ahead of the reading one. It
      is what the chunks of the text leave, without white space outside of literals. */
  method MinifyInPlace(json: array<char>, ghost s: string)
    requires Holds(json, s) && Minify(s).Some?
    modifies json
    ensures Terminated(json) && CString(json) == Minify(s).value
    ensures Leaves(s, CString(json)) && IsTight(CString(json))
  {
    MinifyKeeps(s, Minify(s).value);
    MinifiedIsTight(s);
    hide Ahead, Minify, Leaves, IsTight;
    var p: nat, w: nat := 0, 0;
    MinifyStart(json, s);
    Front(json, s, p, w);
    while json[p] != '\0'
      invariant w <= p <= |s| < json.Length && Minifying(json, s, p, w) && (json[p] == '\0' <==> p == |s|)
      decreases |s| - p
    {
      p, w := MinifyPass(json, p, w, s);
      Front(json, s, p, w);
    }
    MinifyEnd(json, s, p, w);
    json[w] := '\0';
    TerminatedAt(json, w);
  }

  lemma MinifyStart(json: array<char>, s: string)
    requires Holds(json, s) && Minify(s).Some?
    ensures Minifying(json, s, 0, 0)
  {
    assert json[..0] == "" && s[0..] == s && json[0..|s|] == json[..|s|];
    BehindNothing(Minify(s));
  }

  lemma MinifyEnd(json: array<char>, s: string, p: nat, w: nat)
    requires Minifying(json, s, p, w) && p == |s|
    ensures w < json.Length && '\0' !in json[..w] && Minify(s) == Some(json[..w])
  {
    assert s[p..] == [] && json[..w] + [] == json[..w];
  }
}
