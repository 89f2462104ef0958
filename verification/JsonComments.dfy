/** Comments, and what cJSON_Minify takes for them. */
module JsonComments {
  import opened CText
  import opened JsonMinify

  // ---- block comments ----

  /** A comment from its opening slash and star to the first closing star and slash behind these two. */
  ghost predicate IsBlockComment(c: string) {
    && |c| >= 4 && c[0] == '/' && c[1] == '*' && c[|c| - 2] == '*' && c[|c| - 1] == '/'
    && forall i | 2 <= i < |c| - 2 :: !(c[i] == '*' && c[i + 1] == '/')
  }

  /** What the first star and slash leave. */
  function BehindClose(s: string): (r: Option<string>)
    ensures r.Some? ==> |r.value| < |s|
  {
    if |s| < 2 then None
    else if s[0] == '*' && s[1] == '/' then Some(s[2..])
    else BehindClose(s[1..])
  }

  /** What a block comment leaves: the close is looked for behind the two opening characters. */
  function CommentEnd(s: string): (r: Option<string>)
    ensures r.Some? ==> |r.value| < |s|
  {
    if |s| < 2 then None else BehindClose(s[2..])
  }

  lemma {:induction false} BehindCloseIs(s: string, n: nat)
    requires n + 2 <= |s| && s[n] == '*' && s[n + 1] == '/'
    requires forall i | 0 <= i < n :: !(s[i] == '*' && s[i + 1] == '/')
    ensures BehindClose(s) == Some(s[n + 2..])
  {
    if n > 0 {
      BehindCloseIs(s[1..], n - 1);
      assert s[1..][n + 1..] == s[n + 2..];
    }
  }

  lemma {:induction false} BehindCloseAt(s: string) returns (n: nat)
    requires BehindClose(s).Some?
    ensures n + 2 <= |s| && s[n] == '*' && s[n + 1] == '/' && forall i | 0 <= i < n :: !(s[i] == '*' && s[i + 1] == '/')
    ensures BehindClose(s).value == s[n + 2..]
  {
    if s[0] == '*' && s[1] == '/' {
      n := 0;
    } else {
      n := BehindCloseAt(s[1..]);
      n := n + 1;
      forall i | 0 < i < n
        ensures !(s[i] == '*' && s[i + 1] == '/')
      {
        assert s[i] == s[1..][i - 1] && s[i + 1] == s[1..][i];
      }
      assert s[1..][n + 1..] == s[n + 2..];
    }
  }

  /** CommentEnd leaves t if and only if what is in front of t is a comment. */
  lemma CommentEndIs(s: string, t: string)
    requires Peek(s) == '/' && |s| > 1 && s[1] == '*'
    ensures CommentEnd(s) == Some(t) <==> |t| <= |s| && IsBlockComment(s[..|s| - |t|]) && s[|s| - |t|..] == t
  {
    if CommentEnd(s) == Some(t) {
      var n := BehindCloseAt(s[2..]);
      var c := s[..n + 4];
      assert s[2..][n + 2..] == s[n + 4..] && |c| == |s| - |t|;
      forall i | 2 <= i < |c| - 2
        ensures !(c[i] == '*' && c[i + 1] == '/')
      {
        assert s[2..][i - 2] == c[i] && s[2..][i - 1] == c[i + 1];
      }
    }
    if |t| <= |s| && IsBlockComment(s[..|s| - |t|]) && s[|s| - |t|..] == t {
      var c := s[..|s| - |t|];
      forall i | 0 <= i < |c| - 4
        ensures !(s[2..][i] == '*' && s[2..][i + 1] == '/')
      {
        assert s[2..][i] == c[i + 2] && s[2..][i + 1] == c[i + 3];
      }
      BehindCloseIs(s[2..], |c| - 4);
      assert s[2..][|c| - 2..] == s[|c|..];
    }
  }

  lemma {:induction false} AfterCommentScans(s: string)
    ensures AfterComment(s) == BehindClose(s)
  {
    if |s| > 1 {
      AfterCommentScans(s[1..]);
    } else if |s| == 1 {
      assert AfterComment(s[1..]) == None;
    }
  }

  /** cJSON_Minify ends a block comment where it ends if and only if the comment does not start with slash, star, slash:
      the code looks for the close from the opening slash on, and takes the opening star for the closing one. */
  lemma CommentEndAgrees(s: string)
    requires Peek(s) == '/' && |s| > 1 && s[1] == '*'
    ensures AfterComment(s) == CommentEnd(s) <==> Peek(s[2..]) != '/'
  {
    AfterCommentScans(s[2..]);
    assert AfterComment(s) == AfterComment(s[1..]);
    assert s[1..][1..] == s[2..];
  }

  // ---- the comments of a text ----

  /** The comments of a text, each by the number of characters that are left where it starts and behind it, up to one
      that is not closed; and those that the code takes for comments. */
  function Comments(s: string, asCoded: bool): seq<(nat, Option<nat>)>
    decreases |s|
  {
    if s == [] then []
    else if StartsComment(s) then
      if s[1] == '/' then [(|s|, Some(|AfterLine(s)|))] + Comments(AfterLine(s), asCoded)
      else match if asCoded then AfterComment(s) else CommentEnd(s)
        case None => [(|s|, None)]
        case Some(t) => [(|s|, Some(|t|))] + Comments(t, asCoded)
    else if s[0] == '\"' then
      match LiteralSpan(s[1..])
      case None => []
      case Some(k) => Comments(s[k + 2..], asCoded)
    else Comments(s[1..], asCoded)
  }

  /** No block comment of the text starts with slash, star, slash. */
  predicate NoEarlyClose(s: string)
    decreases |s|
  {
    if s == [] then true
    else if StartsComment(s) then
      if s[1] == '/' then NoEarlyClose(AfterLine(s))
      else
        Peek(s[2..]) != '/' && match CommentEnd(s) { case None => true case Some(t) => NoEarlyClose(t) }
    else if s[0] == '\"' then
      match LiteralSpan(s[1..])
      case None => true
      case Some(k) => NoEarlyClose(s[k + 2..])
    else NoEarlyClose(s[1..])
  }

  lemma EarlyClose(s: string)
    requires Peek(s) == '/' && |s| > 2 && s[1] == '*' && s[2] == '/'
    ensures AfterComment(s) == Some(s[3..]) && (CommentEnd(s).Some? ==> |CommentEnd(s).value| < |s| - 3)
  {
    assert AfterComment(s) == AfterComment(s[1..]) && s[1..][2..] == s[3..];
    assert s[2..][0] == '/';
  }

  /** The code finds exactly the comments of a text if and only if none of them starts with slash, star, slash. */
  lemma {:induction false} CommentsFound(s: string)
    ensures Comments(s, true) == Comments(s, false) <==> NoEarlyClose(s)
    decreases |s|
  {
    if s == [] {
    } else if StartsComment(s) {
      if s[1] == '/' {
        CommentsFound(AfterLine(s));
        SameTail((|s|, Some(|AfterLine(s)|)), Comments(AfterLine(s), true), Comments(AfterLine(s), false));
      } else {
        CommentEndAgrees(s);
        if Peek(s[2..]) == '/' {
          EarlyClose(s);
          assert Comments(s, true)[0] == (|s|, Some(|s| - 3));
          assert Comments(s, false)[0] != (|s|, Some(|s| - 3));
        } else if CommentEnd(s).Some? {
          var t := CommentEnd(s).value;
          CommentsFound(t);
          SameTail((|s|, Some(|t|)), Comments(t, true), Comments(t, false));
        }
      }
    } else if s[0] == '\"' {
      if LiteralSpan(s[1..]).Some? {
        CommentsFound(s[LiteralSpan(s[1..]).value + 2..]);
      }
    } else {
      CommentsFound(s[1..]);
    }
  }

  lemma SameTail<T>(x: T, a: seq<T>, b: seq<T>)
    ensures [x] + a == [x] + b <==> a == b
  {
    assert ([x] + a)[1..] == a && ([x] + b)[1..] == b;
  }

  // ---- a text without its comments ----

  /** The text with a space in the place of each comment, and the literals as they are. */
  function Decomment(s: string): Option<string>
    decreases |s|
  {
    if s == [] then Some([])
    else if StartsComment(s) then
      if s[1] == '/' then Behind(" ", Decomment(AfterLine(s)))
      else match CommentEnd(s) { case None => None case Some(t) => Behind(" ", Decomment(t)) }
    else if s[0] == '\"' then
      match LiteralSpan(s[1..])
      case None => None
      case Some(k) => Behind(s[..k + 2], Decomment(s[k + 2..]))
    else Behind(s[..1], Decomment(s[1..]))
  }

  lemma {:induction false} LiteralSpanLocal(s: string, r: string)
    requires LiteralSpan(s).Some?
    ensures LiteralSpan(s[..LiteralSpan(s).value + 1] + r) == LiteralSpan(s)
    decreases |s|
  {
    var k := LiteralSpan(s).value;
    var t := s[..k + 1] + r;
    if s[0] == '\"' {
    } else if s[0] == '\\' {
      LiteralSpanLocal(s[2..], r);
      assert t[2..] == s[2..][..k - 1] + r;
    } else {
      LiteralSpanLocal(s[1..], r);
      assert t[1..] == s[1..][..k] + r;
    }
  }

  lemma DecommentHead(s: string)
    requires Decomment(s).Some?
    ensures Peek(Decomment(s).value) == if StartsComment(s) then ' ' else Peek(s)
  {}

  /** Comments are nothing to the minifier but what a space is, when it finds them. */
  lemma {:induction false} MinifyDecomment(s: string)
    requires NoEarlyClose(s)
    ensures Decomment(s).None? <==> Minify(s).None?
    ensures Decomment(s).Some? ==> Minify(Decomment(s).value) == Minify(s)
    decreases |s|
  {
    if s == [] {
    } else if StartsComment(s) {
      if s[1] == '/' {
        MinifyDecomment(AfterLine(s));
        SpaceBefore(Decomment(AfterLine(s)));
      } else {
        CommentEndAgrees(s);
        if CommentEnd(s).Some? {
          MinifyDecomment(CommentEnd(s).value);
          SpaceBefore(Decomment(CommentEnd(s).value));
        }
      }
    } else if s[0] == '\"' {
      if LiteralSpan(s[1..]).Some? {
        var k := LiteralSpan(s[1..]).value;
        MinifyDecomment(s[k + 2..]);
        if Decomment(s[k + 2..]).Some? {
          MinifyLiteral(s, k, Decomment(s[k + 2..]).value);
        }
      }
    } else {
      MinifyDecomment(s[1..]);
      if Decomment(s[1..]).Some? {
        DecommentHead(s[1..]);
        var u := Decomment(s[1..]).value;
        assert (s[..1] + u)[1..] == u && (s[..1] + u)[..1] == s[..1];
      }
    }
  }

  lemma SpaceBefore(r: Option<string>)
    ensures r.Some? ==> Behind(" ", r).Some? && Minify(Behind(" ", r).value) == Minify(r.value)
  {
    if r.Some? {
      MinifyBlanks(" ", r.value);
    }
  }

  /** A closed literal is copied, whatever follows it. */
  lemma MinifyLiteral(s: string, k: nat, r: string)
    requires Peek(s) == '\"' && LiteralSpan(s[1..]) == Some(k)
    ensures Minify(s[..k + 2] + r) == Behind(s[..k + 2], Minify(r))
  {
    var t := s[..k + 2] + r;
    assert t[1..] == s[1..][..k + 1] + r;
    LiteralSpanLocal(s[1..], r);
    assert t[..k + 2] == s[..k + 2] && t[k + 2..] == r;
  }

  lemma PlainStart(c: char, rest: string)
    requires !IsBlank(c) && c != '\"' && !StartsComment([c] + rest)
    ensures Minify([c] + rest) == Behind([c], Minify(rest)) && Decomment([c] + rest) == Behind([c], Decomment(rest))
  {
    assert ([c] + rest)[1..] == rest && ([c] + rest)[..1] == [c];
  }

  /** A comment with an early close: the minifier leaves the rest of the comment in the text. */
  lemma EarlyCloseMinified()
    ensures var s := "/*/ */1"; !NoEarlyClose(s) && Minify(s) == Some("*/1") && Decomment(s) == Some(" 1")
  {
    var s := "/*/ */1";
    assert Minify("") == Decomment("") == Some("");
    PlainStart('1', "");
    assert ['1'] + "" == "1" && Minify("1") == Decomment("1") == Some("1");
    PlainStart('/', "1");
    assert ['/'] + "1" == "/1" && Minify("/1") == Some("/1");
    PlainStart('*', "/1");
    assert ['*'] + "/1" == "*/1" && Minify("*/1") == Some("*/1");
    assert " */1"[1..] == "*/1" && Minify(" */1") == Some("*/1");
    EarlyClose(s);
    assert s[3..] == " */1";
    BehindCloseIs(s[2..], 2);
    assert s[2..][4..] == "1" && CommentEnd(s) == Some("1") && " " + "1" == " 1";
  }

  lemma {:induction false} AfterLineOf(line: string, rest: string)
    requires '\n' !in line
    ensures AfterLine(line + ("\n" + rest)) == "\n" + rest
  {
    if line == [] {
      assert line + ("\n" + rest) == "\n" + rest;
    } else {
      assert (line + ("\n" + rest))[1..] == line[1..] + ("\n" + rest);
      AfterLineOf(line[1..], rest);
    }
  }

  /** Such a comment does no harm when what the code leaves of it goes away all the same: at the level of whole texts
      the condition is more than what is needed. */
  lemma EarlyCloseUnnoticed()
    ensures var s := "/*/// */\n"; !NoEarlyClose(s) && Minify(s) == Some("") && Decomment(s) == Some(" \n")
  {
    UnnoticedMinified();
    UnnoticedDecomment();
  }

  lemma UnnoticedMinified()
    ensures var s := "/*/// */\n"; !NoEarlyClose(s) && Minify(s) == Some("")
  {
    hide AfterComment, CommentEnd;
    var s, t := "/*/// */\n", "// */\n";
    assert "\n"[1..] == [] && Minify("\n") == Some("");
    AfterLineOf("// */", "");
    assert t == "// */" + ("\n" + "") && AfterLine(t) == "\n" && Minify(t) == Some("");
    EarlyClose(s);
    assert s[3..] == t;
  }

  lemma UnnoticedDecomment()
    ensures Decomment("/*/// */\n") == Some(" \n")
  {
    var s := "/*/// */\n";
    PlainLineFeed();
    BehindCloseIs(s[2..], 4);
    assert s[2..][6..] == "\n" && CommentEnd(s) == Some("\n") && " " + "\n" == " \n";
  }

  lemma PlainLineFeed()
    ensures Decomment("\n") == Some("\n")
  {
    assert "\n"[1..] == [] && "\n"[..1] == "\n" && Decomment("") == Some("");
    assert "\n" + "" == "\n";
  }
}
