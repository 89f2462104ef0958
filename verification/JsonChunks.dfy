/** What cJSON_Minify keeps of a text. */
module JsonChunks {
  // The text in chunks, and what of them is left.

  import opened CText
  import opened JsonMinify

  /** A character of white space, a line comment up to the end of its line, what the code takes for a block comment, the
      body of a literal between its quotes, and any other character. */
  datatype Chunk =
    | Space(c: char)
    | Line(comment: string)
    | Block(comment: string)
    | Quoted(body: string)
    | Other(c: char)

  /** No quote in it closes the literal, and no backslash stands at its end. */
  ghost predicate IsBody(body: string) {
    if body == "" then true
    else if body[0] == '\\' then |body| > 1 && IsBody(body[2..])
    else body[0] != '\"' && IsBody(body[1..])
  }

  /** A chunk in front of some text. A block comment closes at the first star and slash behind its first character. */
  ghost predicate IsChunk(k: Chunk, behind: string) {
    match k
    case Space(c) => c == ' ' || c == '\t' || c == '\r' || c == '\n'
    case Line(comment) =>
      && |comment| > 1 && comment[0] == '/' && comment[1] == '/' && '\n' !in comment
      && (behind != "" ==> behind[0] == '\n')
    case Block(comment) =>
      && |comment| > 2 && comment[0] == '/' && comment[1] == '*'
      && comment[|comment| - 2] == '*' && comment[|comment| - 1] == '/'
      && forall i | 1 <= i < |comment| - 2 :: !(comment[i] == '*' && comment[i + 1] == '/')
    case Quoted(body) => IsBody(body)
    case Other(c) =>
      && c != ' ' && c != '\t' && c != '\r' && c != '\n' && c != '\"'
      && (c == '/' && behind != "" ==> behind[0] != '/' && behind[0] != '*')
  }

  function ChunkText(k: Chunk): string {
    match k
    case Space(c) => [c]
    case Line(comment) => comment
    case Block(comment) => comment
    case Quoted(body) => "\"" + (body + "\"")
    case Other(c) => [c]
  }

  function ChunksText(ks: seq<Chunk>): string {
    if ks == [] then "" else ChunkText(ks[0]) + ChunksText(ks[1..])
  }

  ghost predicate AreChunks(ks: seq<Chunk>) {
    ks != [] ==> IsChunk(ks[0], ChunksText(ks[1..])) && AreChunks(ks[1..])
  }

  /** Literals and other characters, without what stands between them. */
  function Kept(ks: seq<Chunk>): string {
    if ks == [] then ""
    else (if ks[0].Quoted? || ks[0].Other? then ChunkText(ks[0]) else "") + Kept(ks[1..])
  }

  // ---- the chunks of a text ----

  lemma {:induction false} AfterLineIs(line: string, rest: string)
    requires '\n' !in line && (rest != "" ==> rest[0] == '\n')
    ensures AfterLine(line + rest) == rest
  {
    if line == "" {
      assert line + rest == rest;
    } else {
      assert (line + rest)[1..] == line[1..] + rest;
      AfterLineIs(line[1..], rest);
    }
  }

  lemma {:induction false} LineFound(s: string) returns (line: string)
    ensures s == line + AfterLine(s) && '\n' !in line
    ensures AfterLine(s) != "" ==> AfterLine(s)[0] == '\n'
  {
    if s == "" || s[0] == '\n' {
      line := "";
      assert s == "" + s;
    } else {
      var more := LineFound(s[1..]);
      line := s[..1] + more;
      assert s == s[..1] + s[1..] == s[..1] + (more + AfterLine(s[1..]));
    }
  }

  /** Up to the first star and slash. */
  ghost predicate ClosesAtEnd(x: string) {
    && |x| > 1 && x[|x| - 2] == '*' && x[|x| - 1] == '/'
    && forall i | 0 <= i < |x| - 2 :: !(x[i] == '*' && x[i + 1] == '/')
  }

  lemma ClosesBehind(x: string)
    requires ClosesAtEnd(x) && |x| > 2
    ensures ClosesAtEnd(x[1..])
  {
    var y := x[1..];
    forall i | 0 <= i < |y| - 2 ensures !(y[i] == '*' && y[i + 1] == '/') {
      assert y[i] == x[i + 1] && y[i + 1] == x[i + 2];
    }
  }

  /** Such a comment is the slash and what the search finds behind it. */
  lemma BlockIs(comment: string, behind: string)
    requires |comment| > 0 && comment[0] == '/'
    ensures IsChunk(Block(comment), behind)
      <==> |comment| > 2 && comment[1] == '*' && ClosesAtEnd(comment[1..])
  {
    var x := comment[1..];
    if IsChunk(Block(comment), behind) {
      forall i | 0 <= i < |x| - 2 ensures !(x[i] == '*' && x[i + 1] == '/') {
        assert comment[i + 1] == x[i] && comment[i + 1 + 1] == x[i + 1];
      }
    }
    if |comment| > 2 && ClosesAtEnd(x) {
      forall i | 1 <= i < |comment| - 2 ensures !(comment[i] == '*' && comment[i + 1] == '/') {
        assert x[i - 1] == comment[i] && x[i - 1 + 1] == comment[i + 1];
      }
    }
  }

  lemma {:induction false} AfterCommentIs(x: string, rest: string)
    requires ClosesAtEnd(x)
    ensures AfterComment(x + rest) == Some(rest)
  {
    var s := x + rest;
    assert s[0] == x[0] && s[1..][0] == x[1];
    if |x| == 2 {
      assert s[2..] == rest;
    } else {
      assert s[1..] == x[1..] + rest;
      ClosesBehind(x);
      assert !(x[0] == '*' && x[1] == '/');
      AfterCommentIs(x[1..], rest);
    }
  }

  lemma {:induction false} CommentFound(s: string) returns (x: string)
    requires AfterComment(s).Some?
    ensures ClosesAtEnd(x) && s == x + AfterComment(s).value
  {
    if s[0] == '*' && Peek(s[1..]) == '/' {
      x := s[..2];
    } else {
      var more := CommentFound(s[1..]);
      x := s[..1] + more;
      assert s == s[..1] + s[1..] == s[..1] + (more + AfterComment(s[1..]).value);
      assert s[1..][0] == more[0];
      forall i | 0 <= i < |x| - 2 ensures !(x[i] == '*' && x[i + 1] == '/') {
        if i > 0 {
          assert x[i] == more[i - 1] && x[i + 1] == more[i];
        }
      }
    }
  }

  lemma {:induction false} LiteralSpanIs(body: string, rest: string)
    requires IsBody(body)
    ensures LiteralSpan(body + ("\"" + rest)) == Some(|body|)
  {
    var s := body + ("\"" + rest);
    if body == "" {
      assert s == "\"" + rest;
    } else if body[0] == '\\' {
      assert s[2..] == body[2..] + ("\"" + rest);
      LiteralSpanIs(body[2..], rest);
    } else {
      assert s[1..] == body[1..] + ("\"" + rest);
      LiteralSpanIs(body[1..], rest);
    }
  }

  lemma SpanCases(s: string)
    requires LiteralSpan(s).Some?
    ensures s != "" && LiteralSpan(s).value < |s|
    ensures s[0] == '\"' ==> LiteralSpan(s).value == 0
    ensures s[0] == '\\' ==>
      |s| > 1 && LiteralSpan(s[2..]).Some? && LiteralSpan(s).value == LiteralSpan(s[2..]).value + 2
    ensures s[0] != '\"' && s[0] != '\\' ==>
      LiteralSpan(s[1..]).Some? && LiteralSpan(s).value == LiteralSpan(s[1..]).value + 1
  {}

  lemma BodyGrows(s: string, n: nat, k: nat)
    requires n <= k < |s| && IsBody(s[n..k])
    requires (n == 2 && s[0] == '\\') || (n == 1 && s[0] != '\\' && s[0] != '\"')
    ensures IsBody(s[..k])
  {
    assert s[..k][n..] == s[n..k];
  }

  lemma {:induction false} BodyFound(s: string)
    requires LiteralSpan(s).Some?
    ensures var k := LiteralSpan(s).value; k < |s| && IsBody(s[..k]) && s[k] == '\"'
    decreases |s|
  {
    hide LiteralSpan, IsBody;
    SpanCases(s);
    var k := LiteralSpan(s).value;
    if s[0] == '\"' {
      EmptyBody();
      assert s[..0] == "";
    } else {
      var n := if s[0] == '\\' then 2 else 1;
      SpanCases(s[n..]);
      BodyFound(s[n..]);
      assert s[n..][..k - n] == s[n..k];
      BodyGrows(s, n, k);
    }
  }

  lemma EmptyBody()
    ensures IsBody("")
  {}

  lemma SpaceMinified(c: char, rest: string)
    requires IsBlank(c)
    ensures Minify([c] + rest) == Minify(rest)
  {
    assert ([c] + rest)[1..] == rest;
  }

  lemma LineMinified(comment: string, rest: string)
    requires IsChunk(Line(comment), rest)
    ensures Minify(comment + rest) == Minify(rest)
  {
    var s := comment + rest;
    AfterLineIs(comment, rest);
    assert s[0] == '/' && s[1] == '/';
  }

  lemma BlockMinified(comment: string, rest: string)
    requires IsChunk(Block(comment), rest)
    ensures Minify(comment + rest) == Minify(rest)
  {
    var s := comment + rest;
    assert s[0] == '/' && s[1] == '*' && s[1..] == comment[1..] + rest;
    BlockIs(comment, rest);
    AfterCommentIs(comment[1..], rest);
    BlockLeaves(s);
  }

  lemma BlockLeaves(s: string)
    requires |s| > 1 && s[0] == '/' && s[1] == '*' && AfterComment(s[1..]).Some?
    ensures AfterComment(s) == AfterComment(s[1..]) && Minify(s) == Minify(AfterComment(s[1..]).value)
  {}

  lemma QuotedMinified(body: string, rest: string)
    requires IsBody(body)
    ensures Minify("\"" + (body + "\"") + rest) == JsonMinify.Behind("\"" + (body + "\""), Minify(rest))
  {
    var s := "\"" + (body + "\"") + rest;
    assert s[1..] == body + ("\"" + rest);
    LiteralSpanIs(body, rest);
    assert s[..|body| + 2] == "\"" + (body + "\"") && s[|body| + 2..] == rest;
  }

  lemma OtherMinified(c: char, rest: string)
    requires IsChunk(Other(c), rest)
    ensures Minify([c] + rest) == JsonMinify.Behind([c], Minify(rest))
  {
    var s := [c] + rest;
    assert s[1..] == rest && s[..1] == [c];
    assert rest != "" ==> s[1] == rest[0];
  }

  lemma ChunkMinified(k: Chunk, rest: string)
    requires IsChunk(k, rest)
    ensures Minify(ChunkText(k) + rest)
         == if k.Quoted? || k.Other? then JsonMinify.Behind(ChunkText(k), Minify(rest)) else Minify(rest)
  {
    hide Minify, JsonMinify.Behind, IsBody;
    match k
    case Space(c) => SpaceMinified(c, rest);
    case Line(comment) => LineMinified(comment, rest);
    case Block(comment) => BlockMinified(comment, rest);
    case Quoted(body) => QuotedMinified(body, rest);
    case Other(c) => OtherMinified(c, rest);
  }

  lemma {:induction false} ChunksMinified(ks: seq<Chunk>)
    requires AreChunks(ks)
    ensures Minify(ChunksText(ks)) == Some(Kept(ks))
  {
    hide Minify, IsChunk, ChunkText;
    if ks == [] {
      MinifyNothing();
    } else {
      ChunksMinified(ks[1..]);
      ChunkMinified(ks[0], ChunksText(ks[1..]));
      assert "" + Kept(ks[1..]) == Kept(ks[1..]);
    }
  }

  lemma LineChunk(s: string) returns (k: Chunk, rest: string)
    requires |s| > 1 && s[0] == '/' && s[1] == '/'
    ensures s == ChunkText(k) + rest && IsChunk(k, rest) && |rest| < |s|
  {
    var line := LineFound(s);
    k, rest := Line(line), AfterLine(s);
    assert rest == s[|line|..];
    assert line == s[..|line|];
  }

  lemma BlockChunk(s: string) returns (k: Chunk, rest: string)
    requires |s| > 1 && s[0] == '/' && s[1] == '*' && AfterComment(s[1..]).Some?
    ensures s == ChunkText(k) + rest && IsChunk(k, rest) && |rest| < |s|
  {
    var x := CommentFound(s[1..]);
    k, rest := Block("/" + x), AfterComment(s[1..]).value;
    assert s == "/" + s[1..] && s[1] == x[0] && ("/" + x)[1..] == x;
    BlockIs("/" + x, rest);
  }

  lemma QuotedChunk(s: string) returns (k: Chunk, rest: string)
    requires s != "" && s[0] == '\"' && LiteralSpan(s[1..]).Some?
    ensures s == ChunkText(k) + rest && IsChunk(k, rest) && |rest| < |s|
  {
    BodyFound(s[1..]);
    hide LiteralSpan, IsBody;
    var n := LiteralSpan(s[1..]).value;
    k, rest := Quoted(s[1..][..n]), s[n + 2..];
  }

  /** What the minifier looks at first. */
  lemma MinifyCases(s: string)
    requires s != "" && Minify(s).Some?
    ensures StartsComment(s) ==> |s| > 1 && s[0] == '/' && (s[1] == '/' || s[1] == '*')
    ensures StartsComment(s) && s[1] == '*' ==> AfterComment(s[1..]).Some?
    ensures s[0] == '\"' ==> LiteralSpan(s[1..]).Some?
  {
    hide LiteralSpan;
  }

  lemma ChunkFound(s: string) returns (k: Chunk, rest: string)
    requires s != "" && Minify(s).Some?
    ensures s == ChunkText(k) + rest && IsChunk(k, rest) && |rest| < |s|
  {
    MinifyCases(s);
    hide Minify, AfterComment, LiteralSpan;
    if StartsComment(s) {
      if s[1] == '/' {
        k, rest := LineChunk(s);
      } else {
        k, rest := BlockChunk(s);
      }
    } else if s[0] == '\"' {
      k, rest := QuotedChunk(s);
    } else {
      k, rest := if IsBlank(s[0]) then Space(s[0]) else Other(s[0]), s[1..];
    }
  }

  lemma {:induction false} ChunksFound(s: string) returns (ks: seq<Chunk>)
    requires Minify(s).Some?
    ensures AreChunks(ks) && s == ChunksText(ks)
    decreases |s|
  {
    if s == "" {
      ks := [];
    } else {
      var k, rest := ChunkFound(s);
      hide Minify, ChunkText, IsChunk;
      ChunkMinified(k, rest);
      var more := ChunksFound(rest);
      ks := [k] + more;
      assert ks[1..] == more;
    }
  }

  /** A text falls into chunks that leave t. */
  ghost predicate Leaves(s: string, t: string) {
    exists ks: seq<Chunk> :: AreChunks(ks) && s == ChunksText(ks) && t == Kept(ks)
  }

  /** cJSON_Minify keeps the literals and the characters that are neither white space nor in a comment, and nothing
      else; it leaves the text if and only if the text falls into whole chunks. */
  lemma MinifyKeeps(s: string, t: string)
    ensures Minify(s) == Some(t) <==> Leaves(s, t)
  {
    hide Minify, AreChunks, ChunksText, Kept;
    if Minify(s) == Some(t) {
      var ks := ChunksFound(s);
      ChunksMinified(ks);
    }
    if Leaves(s, t) {
      var ks: seq<Chunk> :| AreChunks(ks) && s == ChunksText(ks) && t == Kept(ks);
      ChunksMinified(ks);
    }
  }

  // ---- no white space is left ----

  /** The characters outside of literals; a literal ends at the first quote that no backslash stands in front of. */
  function Outside(s: string, quoted: bool): string
    decreases |s|
  {
    if s == "" then ""
    else if s[0] == '\"' then Outside(s[1..], !quoted)
    else if !quoted then [s[0]] + Outside(s[1..], false)
    else if s[0] == '\\' && |s| > 1 then Outside(s[2..], true)
    else Outside(s[1..], true)
  }

  /** Outside of its literals the text has none of the four characters of white space. */
  ghost predicate IsTight(s: string) {
    forall c | c in Outside(s, false) :: c != ' ' && c != '\t' && c != '\r' && c != '\n'
  }

  lemma {:induction false} OutsideBody(body: string, rest: string)
    requires IsBody(body)
    ensures Outside(body + ("\"" + rest), true) == Outside(rest, false)
    decreases |body|
  {
    var s := body + ("\"" + rest);
    if body == "" {
      assert s == "\"" + rest && s[1..] == rest;
    } else if body[0] == '\\' {
      assert s[2..] == body[2..] + ("\"" + rest);
      OutsideBody(body[2..], rest);
    } else {
      assert s[1..] == body[1..] + ("\"" + rest);
      OutsideBody(body[1..], rest);
    }
  }

  lemma {:induction false} KeptIsTight(ks: seq<Chunk>)
    requires AreChunks(ks)
    ensures IsTight(Kept(ks))
  {
    if ks != [] {
      KeptIsTight(ks[1..]);
      var rest := Kept(ks[1..]);
      match ks[0]
      case Quoted(body) =>
        assert Kept(ks) == "\"" + (body + ("\"" + rest));
        assert Kept(ks)[1..] == body + ("\"" + rest);
        OutsideBody(body, rest);
      case Other(c) => assert Kept(ks)[1..] == rest;
      case _ => assert Kept(ks) == rest;
    }
  }

  /** What cJSON_Minify leaves has no white space outside of its literals. */
  lemma MinifiedIsTight(s: string)
    requires Minify(s).Some?
    ensures IsTight(Minify(s).value)
  {
    hide Minify, AreChunks, ChunksText, Kept, IsTight;
    var ks := ChunksFound(s);
    ChunksMinified(ks);
    KeptIsTight(ks);
  }
}
