/** What a compiled LIKE pattern accepts. `Test` is the regular-expression
    search the evaluator performs (`RegExp.prototype.test` without flags);
    `GlobMatch` is the SQL reading of the token list. On subjects without
    line terminators and patterns without a literal backslash the two agree. */
module LikeMatch {
  import opened Values
  import opened Like

  /** The characters `.` does not match when the `s` flag is absent. */
  predicate LineTerminator(c: char)
  {
    c == '\n' || c == '\r' || c as int == 0x2028 || c as int == 0x2029
  }

  /** The body matches the whole of `t`. */
  predicate MatchBody(body: seq<Atom>, t: string)
    decreases |body|, |t|
  {
    if body == [] then t == []
    else match body[0]
      case Exact(c) => t != [] && t[0] == c && MatchBody(body[1..], t[1..])
      case Dot => t != [] && !LineTerminator(t[0]) && MatchBody(body[1..], t[1..])
      case DotStar =>
        MatchBody(body[1..], t) || (t != [] && !LineTerminator(t[0]) && MatchBody(body, t[1..]))
  }

  /** A regular-expression search: some slice of the subject matches the
      body, starting at the front when anchored by `^` and ending at the end
      when anchored by `$`. */
  predicate Test(m: Matcher, s: string)
  {
    exists i, j :: 0 <= i <= j <= |s| && (m.anchorStart ==> i == 0) && (m.anchorEnd ==> j == |s|) &&
                   MatchBody(m.body, s[i..j])
  }

  /** SQL LIKE: `%` matches any run of characters, `_` exactly one, every
      other token itself. */
  predicate GlobMatch(ts: seq<Token>, s: string)
    decreases |ts|, |s|
  {
    if ts == [] then s == []
    else match ts[0]
      case Lit(c) => s != [] && s[0] == c && GlobMatch(ts[1..], s[1..])
      case AnyOne => s != [] && GlobMatch(ts[1..], s[1..])
      case AnyRun => GlobMatch(ts[1..], s) || (s != [] && GlobMatch(ts, s[1..]))
  }

  predicate Plain(s: string)
  {
    forall i :: 0 <= i < |s| ==> !LineTerminator(s[i])
  }

  predicate NoBackslash(ts: seq<Token>)
  {
    forall i :: 0 <= i < |ts| ==> ts[i] != Lit('\\')
  }

  /** Atom by atom, the compiled body and the glob reading agree. */
  lemma {:induction false} BodyIsGlob(ts: seq<Token>, t: string)
    requires Plain(t) && NoBackslash(ts)
    ensures MatchBody(Atoms(ts), t) == GlobMatch(ts, t)
    decreases |ts|, |t|
  {
    if ts != [] {
      assert Atoms(ts)[1..] == Atoms(ts[1..]);
      if t != [] {
        BodyIsGlob(ts[1..], t[1..]);
        BodyIsGlob(ts, t[1..]);
      }
      BodyIsGlob(ts[1..], t);
    }
  }

  /** `.*` matches every subject without line terminators. */
  lemma {:induction false} RunMatchesPlain(t: string)
    requires Plain(t)
    ensures MatchBody([DotStar], t)
    decreases |t|
  {
    if t != [] {
      RunMatchesPlain(t[1..]);
    }
  }

  /** A leading `.*` lets the rest of the body start anywhere. */
  lemma {:induction false} LeadingRun(b: seq<Atom>, t: string)
    requires Plain(t)
    ensures MatchBody([DotStar] + b, t) <==> exists i :: 0 <= i <= |t| && MatchBody(b, t[i..])
    decreases |t|
  {
    assert ([DotStar] + b)[1..] == b;
    assert t[0..] == t;
    if t != [] {
      LeadingRun(b, t[1..]);
      if MatchBody([DotStar] + b, t) && !MatchBody(b, t) {
        var i :| 0 <= i <= |t| - 1 && MatchBody(b, t[1..][i..]);
        assert t[1..][i..] == t[i + 1..];
      }
      if exists i :: 0 <= i <= |t| && MatchBody(b, t[i..]) {
        var i :| 0 <= i <= |t| && MatchBody(b, t[i..]);
        if i > 0 {
          assert t[1..][i - 1..] == t[i..];
        }
      }
    }
  }

  /** A trailing `.*` lets the rest of the body end anywhere. */
  lemma {:induction false} TrailingRun(b: seq<Atom>, t: string)
    requires Plain(t)
    ensures MatchBody(b + [DotStar], t) <==> exists j :: 0 <= j <= |t| && MatchBody(b, t[..j])
    decreases |b|, 1
  {
    if b == [] {
      assert b + [DotStar] == [DotStar];
      RunMatchesPlain(t);
      assert t[..0] == [];
    } else {
      var a, rest := b[0], b[1..];
      assert (b + [DotStar])[1..] == rest + [DotStar];
      assert b + [DotStar] == [a] + (rest + [DotStar]);
      match a
      case DotStar =>
        assert b == [DotStar] + rest;
        TrailingRunAfterRun(rest, t);
      case _ =>
        if t != [] {
          TrailingRun(rest, t[1..]);
          if MatchBody(b + [DotStar], t) {
            var j :| 0 <= j <= |t| - 1 && MatchBody(rest, t[1..][..j]);
            assert t[..j + 1][1..] == t[1..][..j];
          }
          if exists j :: 0 <= j <= |t| && MatchBody(b, t[..j]) {
            var j :| 0 <= j <= |t| && MatchBody(b, t[..j]);
            assert j > 0;
            assert t[..j][1..] == t[1..][..j - 1];
          }
        } else {
          assert forall j :: 0 <= j <= |t| ==> t[..j] == [];
        }
    }
  }

  /** The `.*` head case of TrailingRun, through LeadingRun twice. */
  lemma {:induction false} TrailingRunAfterRun(rest: seq<Atom>, t: string)
    requires Plain(t)
    ensures MatchBody([DotStar] + (rest + [DotStar]), t) <==>
            exists j :: 0 <= j <= |t| && MatchBody([DotStar] + rest, t[..j])
    decreases |rest| + 1, 0
  {
    LeadingRun(rest + [DotStar], t);
    if MatchBody([DotStar] + (rest + [DotStar]), t) {
      var i :| 0 <= i <= |t| && MatchBody(rest + [DotStar], t[i..]);
      TrailingRun(rest, t[i..]);
      var k :| 0 <= k <= |t[i..]| && MatchBody(rest, t[i..][..k]);
      var j := i + k;
      assert t[..j][i..] == t[i..][..k];
      LeadingRun(rest, t[..j]);
    }
    if exists j :: 0 <= j <= |t| && MatchBody([DotStar] + rest, t[..j]) {
      var j :| 0 <= j <= |t| && MatchBody([DotStar] + rest, t[..j]);
      LeadingRun(rest, t[..j]);
      var i :| 0 <= i <= j && MatchBody(rest, t[..j][i..]);
      assert t[i..][..j - i] == t[..j][i..];
      TrailingRun(rest, t[i..]);
    }
  }

  lemma TestAnchored(b: seq<Atom>, s: string)
    ensures Test(Matcher(true, true, b), s) <==> MatchBody(b, s)
  {
    assert s[0..|s|] == s;
  }

  lemma TestOpenStart(b: seq<Atom>, s: string)
    ensures Test(Matcher(false, true, b), s) <==> exists i :: 0 <= i <= |s| && MatchBody(b, s[i..])
  {
    if exists i :: 0 <= i <= |s| && MatchBody(b, s[i..]) {
      var i :| 0 <= i <= |s| && MatchBody(b, s[i..]);
      assert s[i..|s|] == s[i..];
    }
    if Test(Matcher(false, true, b), s) {
      var i, j :| 0 <= i <= j <= |s| && j == |s| && MatchBody(b, s[i..j]);
      assert s[i..j] == s[i..];
    }
  }

  lemma TestOpenEnd(b: seq<Atom>, s: string)
    ensures Test(Matcher(true, false, b), s) <==> exists j :: 0 <= j <= |s| && MatchBody(b, s[..j])
  {
    if exists j :: 0 <= j <= |s| && MatchBody(b, s[..j]) {
      var j :| 0 <= j <= |s| && MatchBody(b, s[..j]);
      assert s[0..j] == s[..j];
    }
    if Test(Matcher(true, false, b), s) {
      var i, j :| 0 <= i <= j <= |s| && i == 0 && MatchBody(b, s[i..j]);
      assert s[i..j] == s[..j];
    }
  }

  /** With both anchors dropped, the search is a leading and a trailing `.*`. */
  lemma TestOpenBoth(b: seq<Atom>, s: string)
    requires Plain(s)
    ensures Test(Matcher(false, false, b), s) <==> MatchBody([DotStar] + (b + [DotStar]), s)
  {
    LeadingRun(b + [DotStar], s);
    if Test(Matcher(false, false, b), s) {
      var i, j :| 0 <= i <= j <= |s| && MatchBody(b, s[i..j]);
      assert s[i..][..j - i] == s[i..j];
      TrailingRun(b, s[i..]);
    }
    if MatchBody([DotStar] + (b + [DotStar]), s) {
      var i :| 0 <= i <= |s| && MatchBody(b + [DotStar], s[i..]);
      TrailingRun(b, s[i..]);
      var k :| 0 <= k <= |s| - i && MatchBody(b, s[i..][..k]);
      assert s[i..][..k] == s[i..i + k];
    }
  }

  /** The compiled pattern accepts exactly what SQL LIKE accepts, on
      subjects without line terminators and patterns without a literal
      backslash. */
  lemma TestIsGlob(ts: seq<Token>, s: string)
    requires Plain(s) && NoBackslash(ts)
    ensures Test(Compile(ts), s) <==> GlobMatch(ts, s)
  {
    var A := Atoms(ts);
    BodyIsGlob(ts, s);
    if ts == [] {
      TestAnchored([], s);
    } else {
      var n := |ts|;
      var st, en := ts[0] == AnyRun, ts[n - 1] == AnyRun;
      var b := Compile(ts).body;
      if !st && !en {
        assert b == A;
        TestAnchored(b, s);
      } else if st && !en {
        assert A == [DotStar] + b;
        TestOpenStart(b, s);
        LeadingRun(b, s);
      } else if !st && en {
        assert A == b + [DotStar];
        TestOpenEnd(b, s);
        TrailingRun(b, s);
      } else if n == 1 {
        assert b == [] && A == [DotStar];
        RunMatchesPlain(s);
        assert MatchBody(b, s[0..0]);
      } else {
        assert A == [DotStar] + (b + [DotStar]);
        TestOpenBoth(b, s);
      }
    }
  }

  /** An empty pattern accepts only the empty subject. */
  lemma EmptyPatternMatchesEmpty(esc: string, s: string)
    ensures Test(Compile(ParseLikePattern("", esc)), s) <==> s == ""
  {
    TestAnchored([], s);
  }

  /** An escaped wildcard is literal: with escape `!`, the pattern `!%`
      accepts `%` and nothing else of length one. */
  lemma EscapedWildcardIsLiteral(c: char)
    ensures ParseLikePattern("!%", "!") == [Lit('%')]
    ensures Test(Compile([Lit('%')]), [c]) <==> c == '%'
  {
    assert "!%"[2..] == "";
    assert Compile([Lit('%')]).body == [Exact('%')];
    TestAnchored([Exact('%')], [c]);
    assert [c][1..] == [];
  }

  /** `%` does not run across a line break, unlike SQL LIKE: `a%b` rejects
      `a`, newline, `b`. */
  lemma PercentStopsAtLineBreak()
    ensures GlobMatch([Lit('a'), AnyRun, Lit('b')], "a\nb")
    ensures !Test(Compile([Lit('a'), AnyRun, Lit('b')]), "a\nb")
  {
    var ts := [Lit('a'), AnyRun, Lit('b')];
    var b := [Exact('a'), DotStar, Exact('b')];
    assert Compile(ts).body == b;
    TestAnchored(b, "a\nb");
    assert "a\nb"[1..] == "\nb" && "\nb"[1..] == "b" && "b"[1..] == "";
    assert ts[1..] == [AnyRun, Lit('b')] && ts[1..][1..] == [Lit('b')];
    assert GlobMatch([Lit('b')], "b");
    assert GlobMatch(ts[1..], "b");
    assert GlobMatch(ts[1..], "\nb");
    assert b[1..] == [DotStar, Exact('b')] && b[1..][1..] == [Exact('b')];
    assert !MatchBody([Exact('b')], "\nb");
    assert !MatchBody(b[1..], "\nb");
  }

  /** A backslash in the pattern compiles to `\/` and so matches a slash,
      not a backslash. */
  lemma BackslashMatchesSlash()
    ensures ParseLikePattern("a\\b", "") == [Lit('a'), Lit('\\'), Lit('b')]
    ensures Test(Compile([Lit('a'), Lit('\\'), Lit('b')]), "a/b")
    ensures !Test(Compile([Lit('a'), Lit('\\'), Lit('b')]), "a\\b")
  {
    var b := [Exact('a'), Exact('/'), Exact('b')];
    assert Compile([Lit('a'), Lit('\\'), Lit('b')]).body == b;
    TestAnchored(b, "a/b");
    TestAnchored(b, "a\\b");
    assert b[1..] == [Exact('/'), Exact('b')] && b[1..][1..] == [Exact('b')] && b[1..][1..][1..] == [];
    assert "a/b"[1..] == "/b" && "/b"[1..] == "b" && "b"[1..] == "";
    assert "a\\b"[1..] == "\\b";
  }
}
