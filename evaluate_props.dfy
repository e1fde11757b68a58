/** What evaluation promises: it is idempotent, comparisons are
    three-valued, the null tests never answer `false`, and a few operators
    resolve exactly when their inputs allow. */
module EvaluateProps {
  import opened Values
  import opened Reduce
  import opened Like
  import opened LikeMatch
  import opened RegExpCache
  import opened Evaluate

  // ---------------------------------------------------------------------
  // Idempotence

  /** A node that its own rule leaves as it is: a pattern match that still
      waits for an operand, or any other operator whose rule returns the
      node unchanged. */
  predicate Stays(op: string, args: seq<Expr>, ctx: Context)
  {
    if IsLikeOp(op) then LikeBlocked(args) else Rule(op, args, ctx) == Node(op, args)
  }

  /** A tree evaluation cannot simplify any further. */
  predicate Normal(e: Expr, ctx: Context)
    decreases e
  {
    match e
    case Leaf(_) => true
    case Node(op, args) => (forall i :: 0 <= i < |args| ==> Normal(args[i], ctx)) && Stays(op, args, ctx)
  }

  predicate AllNormal(es: seq<Expr>, ctx: Context)
  {
    forall i :: 0 <= i < |es| ==> Normal(es[i], ctx)
  }

  /** A normal tree evaluates to itself and leaves the cache untouched. */
  lemma {:induction false} NormalIsFixed(e: Expr, ctx: Context, cache: Entries)
    requires Normal(e, ctx)
    ensures Eval(e, ctx, cache) == EvalOut(e, cache)
    decreases e, 1
  {
    if e.Node? {
      NormalAllFixed(e.args, ctx, cache);
    }
  }

  lemma {:induction false} NormalAllFixed(es: seq<Expr>, ctx: Context, cache: Entries)
    requires AllNormal(es, ctx)
    ensures EvalAll(es, ctx, cache) == (es, cache)
    decreases es, 0
  {
    if es != [] {
      NormalIsFixed(es[0], ctx, cache);
      assert AllNormal(es[1..], ctx) by {
        forall i | 0 <= i < |es[1..]| ensures Normal(es[1..][i], ctx) {
          assert es[1..][i] == es[i + 1];
        }
      }
      NormalAllFixed(es[1..], ctx, cache);
      assert es == [es[0]] + es[1..];
    }
  }

  /** Every operand `reduce` leaves behind is normal. */
  lemma FixNormal(op: string, args: seq<Expr>, ctx: Context)
    requires AllNormal(args, ctx)
    ensures AllNormal(Fix(op, args), ctx)
  {
    FixIsFixpoint(op, args);
    var f := Fix(op, args);
    forall i | 0 <= i < |f| ensures Normal(f[i], ctx) {
      assert f[i] in f;
      if !f[i].Leaf? {
        var k :| 0 <= k < |args| && args[k] == f[i];
      }
    }
  }

  /** Applying a rule to normal operands gives a normal tree. */
  lemma VisitNormal(op: string, args: seq<Expr>, ctx: Context, cache: Entries)
    requires AllNormal(args, ctx)
    ensures Normal(Visit(op, args, ctx, cache).expr, ctx)
  {
    if !IsLikeOp(op) {
      var r := Rule(op, args, ctx);
      if r.Leaf? || r == Node(op, args) {
      } else if op == "NOT" && |args| > 0 && args[0].Node? && r == Arg(args[0].args, 0) {
        assert Normal(args[0], ctx);
      } else {
        assert op in FoldOps && r == ReduceSpec(op, args);
        FixNormal(op, args, ctx);
        FixIsFixpoint(op, args);
        var f := Fix(op, args);
        if |f| != 1 {
          assert Rule(op, f, ctx) == ReduceSpec(op, f);
        }
      }
    }
  }

  lemma {:induction false} EvalIsNormal(e: Expr, ctx: Context, cache: Entries)
    ensures Normal(Eval(e, ctx, cache).expr, ctx)
    decreases e, 1
  {
    if e.Node? {
      var inner := EvalAll(e.args, ctx, cache);
      EvalAllNormal(e.args, ctx, cache);
      VisitNormal(e.op, inner.0, ctx, inner.1);
    }
  }

  lemma {:induction false} EvalAllNormal(es: seq<Expr>, ctx: Context, cache: Entries)
    ensures AllNormal(EvalAll(es, ctx, cache).0, ctx)
    decreases es, 0
  {
    if es != [] {
      var head := Eval(es[0], ctx, cache);
      EvalIsNormal(es[0], ctx, cache);
      EvalAllNormal(es[1..], ctx, head.cache);
    }
  }

  /** Evaluating an evaluated tree again, under the same record and clock,
      changes nothing, whatever the cache holds by then. */
  lemma Idempotent(e: Expr, ctx: Context, cache: Entries, later: Entries)
    ensures Eval(Eval(e, ctx, cache).expr, ctx, later) == EvalOut(Eval(e, ctx, cache).expr, later)
  {
    EvalIsNormal(e, ctx, cache);
    NormalIsFixed(Eval(e, ctx, cache).expr, ctx, later);
  }

  // ---------------------------------------------------------------------
  // Single operators

  /** Evaluating a node whose operands are scalars applies its rule once. */
  lemma OnScalars(op: string, args: seq<Expr>, ctx: Context, cache: Entries)
    requires forall i :: 0 <= i < |args| ==> args[i].Leaf?
    ensures Eval(Node(op, args), ctx, cache) == Visit(op, args, ctx, cache)
  {
    assert AllNormal(args, ctx);
    NormalAllFixed(args, ctx, cache);
  }

  /** The comparisons are three-valued: over two scalars the result is
      `null` exactly when one of them is `null`, and otherwise the truth of
      the comparison. */
  lemma CompareThreeValued(op: string, a: Value, b: Value, ctx: Context, cache: Entries)
    requires op in Comparisons
    ensures var r := Eval(Node(op, [Leaf(a), Leaf(b)]), ctx, cache).expr;
      r.Leaf? && (r.v == Null <==> a == Null || b == Null) &&
      (r.v != Null ==> r.v == Bool(Compare(op, a, b)))
  {
    var args := [Leaf(a), Leaf(b)];
    OnScalars(op, args, ctx, cache);
    VisitComparison(op, args, ctx, cache);
    assert Arg(args, 0) == Leaf(a) && Arg(args, 1) == Leaf(b);
  }

  /** A comparison waits while either side is unresolved: the node is
      kept, over its evaluated operands. */
  lemma CompareWaits(op: string, a: Expr, b: Expr, ctx: Context, cache: Entries)
    requires op in Comparisons
    ensures var ha := Eval(a, ctx, cache);
      var hb := Eval(b, ctx, ha.cache);
      ha.expr.Node? || hb.expr.Node? ==> Eval(Node(op, [a, b]), ctx, cache).expr == Node(op, [ha.expr, hb.expr])
  {
    var ha := Eval(a, ctx, cache);
    var hb := Eval(b, ctx, ha.cache);
    var args := [ha.expr, hb.expr];
    TwoOperands(a, b, ctx, cache);
    assert Eval(Node(op, [a, b]), ctx, cache) == Visit(op, args, ctx, hb.cache);
    assert Arg(args, 0) == ha.expr && Arg(args, 1) == hb.expr;
    VisitComparison(op, args, ctx, hb.cache);
  }

  /** The comparisons go to their own rule and leave the cache alone. */
  lemma VisitComparison(op: string, args: seq<Expr>, ctx: Context, cache: Entries)
    requires op in Comparisons
    ensures Visit(op, args, ctx, cache) == EvalOut(CompareRule(op, args), cache)
  {
    assert !IsLikeOp(op) && op != "FUNC" && op != "PARAM" && op !in FoldOps;
    assert op != "NOT" && op != "IS NULL" && op != "IS NOT NULL";
  }

  /** `["=", ["PARAM", "a"], 5]` holds for the record `{a: 5}`. */
  lemma ParamEqualsExample()
    ensures Eval(Node("=", [Node("PARAM", [Leaf(Str("a"))]), Leaf(Num(5))]),
                 Context(Some(map["a" := Scalar(Num(5))]), None), map[]).expr == Leaf(Bool(true))
  {
    var ctx := Context(Some(map["a" := Scalar(Num(5))]), None);
    OnScalars("PARAM", [Leaf(Str("a"))], ctx, map[]);
    assert ToStr(Str("a")) == "a";
    assert Eval(Node("PARAM", [Leaf(Str("a"))]), ctx, map[]).expr == Leaf(Num(5));
    assert EvalAll([Node("PARAM", [Leaf(Str("a"))]), Leaf(Num(5))], ctx, map[]).0 == [Leaf(Num(5)), Leaf(Num(5))];
  }

  /** `IS NULL` and `IS NOT NULL` never answer `false`: over a scalar they
      answer `true` when the test holds and `null` when it does not. */
  lemma NullTestsNeverFalse(negated: bool, args: seq<Expr>, ctx: Context, cache: Entries)
    ensures var op := if negated then "IS NOT NULL" else "IS NULL";
      var inner := EvalAll(args, ctx, cache).0;
      var r := Eval(Node(op, args), ctx, cache).expr;
      r != Leaf(Bool(false)) &&
      (Arg(inner, 0).Leaf? ==> (r == Leaf(Bool(true)) <==> (Arg(inner, 0).v == Null) != negated)) &&
      (Arg(inner, 0).Leaf? ==> (r == Leaf(Null) <==> (Arg(inner, 0).v == Null) == negated)) &&
      (Arg(inner, 0).Node? ==> r == Node(op, inner))
  {
  }

  /** `NOT` of a scalar is JavaScript `!`; in particular `NOT null` is
      `true`. */
  lemma NotOfScalar(v: Value, ctx: Context, cache: Entries)
    ensures Eval(Node("NOT", [Leaf(v)]), ctx, cache).expr == Leaf(Bool(!Truthy(v)))
    ensures v == Null ==> Eval(Node("NOT", [Leaf(v)]), ctx, cache).expr == Leaf(Bool(true))
  {
    OnScalars("NOT", [Leaf(v)], ctx, cache);
  }

  /** A double negation cancels when its operand stays a tree that is not
      itself a negation; over a scalar it gives the scalar's truth value. */
  lemma DoubleNotCancels(x: Expr, ctx: Context, cache: Entries)
    ensures var y := Eval(x, ctx, cache).expr;
      var r := Eval(Node("NOT", [Node("NOT", [x])]), ctx, cache).expr;
      (y.Node? && y.op != "NOT" ==> r == y) &&
      (y.Leaf? ==> r == Leaf(Bool(Truthy(y.v))))
  {
    var inner := Eval(Node("NOT", [x]), ctx, cache);
    var y := Eval(x, ctx, cache);
    OneOperand(x, ctx, cache);
    OneOperand(Node("NOT", [x]), ctx, cache);
    assert EvalAll([x], ctx, cache) == ([y.expr], y.cache);
    assert EvalAll([Node("NOT", [x])], ctx, cache) == ([inner.expr], inner.cache);
    if y.expr.Leaf? {
      assert inner.expr == Leaf(Bool(!Truthy(y.expr.v)));
    }
  }

  lemma OneOperand(x: Expr, ctx: Context, cache: Entries)
    ensures EvalAll([x], ctx, cache) == ([Eval(x, ctx, cache).expr], Eval(x, ctx, cache).cache)
  {
    assert [x][0] == x && [x][1..] == [];
    var head := Eval(x, ctx, cache);
    assert EvalAll([], ctx, head.cache) == ([], head.cache);
    assert [head.expr] + [] == [head.expr];
  }

  /** `NOW` resolves exactly when the clock reading is present and non-zero. */
  lemma NowResolves(ctx: Context, cache: Entries)
    ensures var r := Eval(Node("FUNC", [Leaf(Str("NOW"))]), ctx, cache).expr;
      (r.Leaf? <==> ctx.now.Some? && ctx.now.value != 0) &&
      (r.Leaf? ==> r == Leaf(Num(ctx.now.value)))
  {
    OnScalars("FUNC", [Leaf(Str("NOW"))], ctx, cache);
  }

  /** `r` is `s` with no lower-case ASCII letter left and every other
      character unchanged. */
  predicate UpperCased(r: string, s: string)
  {
    |r| == |s| &&
    forall i :: 0 <= i < |r| ==> !('a' <= r[i] <= 'z') && ('A' <= r[i] <= 'Z' || r[i] == s[i])
  }

  predicate LowerCased(r: string, s: string)
  {
    |r| == |s| &&
    forall i :: 0 <= i < |r| ==> !('A' <= r[i] <= 'Z') && ('a' <= r[i] <= 'z' || r[i] == s[i])
  }

  lemma UpperIsUpperCased(s: string)
    ensures UpperCased(Upper(s), s)
  {
    forall i | 0 <= i < |s| ensures !('a' <= Upper(s)[i] <= 'z') && ('A' <= Upper(s)[i] <= 'Z' || Upper(s)[i] == s[i]) {
      assert Upper(s)[i] == UpperChar(s[i]);
    }
  }

  lemma LowerIsLowerCased(s: string)
    ensures LowerCased(Lower(s), s)
  {
    forall i | 0 <= i < |s| ensures !('A' <= Lower(s)[i] <= 'Z') && ('a' <= Lower(s)[i] <= 'z' || Lower(s)[i] == s[i]) {
      assert Lower(s)[i] == LowerChar(s[i]);
    }
  }

  /** `UPPER` and `LOWER` of a scalar: `null` stays `null`; anything else
      becomes its string form with every ASCII letter in the requested case
      and every other character kept. */
  lemma CaseFunctions(v: Value, ctx: Context, cache: Entries)
    ensures var up := Eval(Node("FUNC", [Leaf(Str("UPPER")), Leaf(v)]), ctx, cache).expr;
      (v == Null ==> up == Leaf(Null)) &&
      (v != Null ==> up.Leaf? && up.v.Str? && UpperCased(up.v.s, ToStr(v)))
    ensures var low := Eval(Node("FUNC", [Leaf(Str("LOWER")), Leaf(v)]), ctx, cache).expr;
      (v == Null ==> low == Leaf(Null)) &&
      (v != Null ==> low.Leaf? && low.v.Str? && LowerCased(low.v.s, ToStr(v)))
  {
    var up, low := [Leaf(Str("UPPER")), Leaf(v)], [Leaf(Str("LOWER")), Leaf(v)];
    OnScalars("FUNC", up, ctx, cache);
    VisitFunc(up, ctx, cache);
    assert Arg(up, 0) == Leaf(Str("UPPER")) && Arg(up, 1) == Leaf(v);
    UpperIsUpperCased(ToStr(v));
    OnScalars("FUNC", low, ctx, cache);
    VisitFunc(low, ctx, cache);
    assert Arg(low, 0) == Leaf(Str("LOWER")) && Arg(low, 1) == Leaf(v);
    LowerIsLowerCased(ToStr(v));
  }

  /** The functions go to their own rule and leave the cache alone. */
  lemma VisitFunc(args: seq<Expr>, ctx: Context, cache: Entries)
    ensures Visit("FUNC", args, ctx, cache) == EvalOut(FuncRule(args, ctx.now), cache)
  {
    assert !IsLikeOp("FUNC");
  }

  /** Without a record, a field reference with a non-null name stays as it
      is; with one, it is the field's value, `null` when missing. */
  lemma ParamResolves(name: Value, ctx: Context, cache: Entries)
    requires name != Null
    ensures var r := Eval(Node("PARAM", [Leaf(name)]), ctx, cache).expr;
      (ctx.obj.None? ==> r == Node("PARAM", [Leaf(name)])) &&
      (ctx.obj.Some? && ToStr(name) in ctx.obj.value ==> r == Leaf(FieldValue(ctx.obj.value[ToStr(name)]))) &&
      (ctx.obj.Some? && ToStr(name) !in ctx.obj.value ==> r == Leaf(Null))
  {
    OnScalars("PARAM", [Leaf(name)], ctx, cache);
  }

  /** `AND` and `OR` of two scalars are JavaScript `&&` and `||`. */
  lemma LogicOfScalars(a: Value, b: Value, ctx: Context, cache: Entries)
    ensures Eval(Node("AND", [Leaf(a), Leaf(b)]), ctx, cache).expr == if Truthy(a) then Leaf(b) else Leaf(a)
    ensures Eval(Node("OR", [Leaf(a), Leaf(b)]), ctx, cache).expr == if Truthy(a) then Leaf(a) else Leaf(b)
  {
    OnScalars("AND", [Leaf(a), Leaf(b)], ctx, cache);
    OnScalars("OR", [Leaf(a), Leaf(b)], ctx, cache);
    var xs := [Leaf(a), Leaf(b)];
    LogicFold("AND", xs);
    LogicFold("OR", xs);
    assert xs[1..] == [Leaf(b)] && [Leaf(b)][1..] == [];
    assert Trees([Leaf(b)]) == [];
    assert Trees(xs) == [];
  }

  // ---------------------------------------------------------------------
  // The cache is shared by the whole tree

  lemma TwoOperands(x: Expr, y: Expr, ctx: Context, cache: Entries)
    ensures var hx := Eval(x, ctx, cache);
      var hy := Eval(y, ctx, hx.cache);
      EvalAll([x, y], ctx, cache) == ([hx.expr, hy.expr], hy.cache)
  {
    var hx := Eval(x, ctx, cache);
    assert [x, y][0] == x && [x, y][1..] == [y];
    OneOperand(y, ctx, hx.cache);
    var hy := Eval(y, ctx, hx.cache);
    assert [hx.expr] + [hy.expr] == [hx.expr, hy.expr];
  }

  /** The matchers of the two colliding patterns, tested against `x`. */
  lemma CollidingMatchers()
    ensures CompileLike(Str("x"), Str(":")) == Matcher(true, true, [Exact('x')])
    ensures CompileLike(Str(":x"), Null) == Matcher(true, true, [Exact(':'), Exact('x')])
    ensures CacheKey(Str(":x"), Null) == CacheKey(Str("x"), Str(":"))
    ensures Test(CompileLike(Str("x"), Str(":")), ToStr(Str("x")))
    ensures !Test(CompileLike(Str(":x"), Null), ToStr(Str("x")))
  {
    KeyCollision();
    TestAnchored([Exact(':'), Exact('x')], "x");
    TestAnchored([Exact('x')], "x");
    assert "x"[1..] == "" && [Exact('x')][1..] == [];
  }

  /** A pattern match over non-null scalars tests the subject's string form
      with the matcher the cache lookup returns, and leaves the cache as
      the lookup does. */
  lemma LikeOnScalars(op: string, args: seq<Expr>, ctx: Context, cache: Entries)
    requires IsLikeOp(op) && forall i :: 0 <= i < |args| ==> args[i].Leaf?
    requires Arg(args, 0).v != Null && Arg(args, 1).v != Null && (|args| >= 3 ==> Arg(args, 2).v != Null)
    ensures var found := Lookup(cache, Arg(args, 1).v, Arg(args, 2).v);
      var matched := Test(found.0, ToStr(Arg(args, 0).v));
      Eval(Node(op, args), ctx, cache) == EvalOut(Leaf(Bool(if op == "LIKE" then matched else !matched)), found.1)
  {
    OnScalars(op, args, ctx, cache);
  }

  /** `x LIKE 'x' ESCAPE ':'` on an empty cache. */
  lemma EscapedAlone(ctx: Context)
    ensures Eval(Node("LIKE", [Leaf(Str("x")), Leaf(Str("x")), Leaf(Str(":"))]), ctx, map[]).expr == Leaf(Bool(true))
  {
    var x, colon := Str("x"), Str(":");
    var args := [Leaf(x), Leaf(x), Leaf(colon)];
    LikeOnScalars("LIKE", args, ctx, map[]);
    assert Lookup(map[], x, colon).0 == CompileLike(x, colon);
    CollidingMatchers();
  }

  /** `x LIKE ':x'` on an empty cache: false, and its matcher is now cached
      under the shared key. */
  lemma UnescapedFirst(ctx: Context)
    ensures var r := Eval(Node("LIKE", [Leaf(Str("x")), Leaf(Str(":x"))]), ctx, map[]);
      r.expr == Leaf(Bool(false)) &&
      r.cache == map[CacheKey(Str("x"), Str(":")) := CompileLike(Str(":x"), Null)]
  {
    var x, cx := Str("x"), Str(":x");
    var args := [Leaf(x), Leaf(cx)];
    assert Arg(args, 2) == Leaf(Null);
    LikeOnScalars("LIKE", args, ctx, map[]);
    var found := Lookup(map[], cx, Null);
    assert found == (CompileLike(cx, Null), map[CacheKey(cx, Null) := CompileLike(cx, Null)]);
    CollidingMatchers();
  }

  /** `x LIKE 'x' ESCAPE ':'` after that: the cached matcher is the wrong
      one, so the answer is false. */
  lemma EscapedSecond(ctx: Context)
    ensures Eval(Node("LIKE", [Leaf(Str("x")), Leaf(Str("x")), Leaf(Str(":"))]), ctx,
                 map[CacheKey(Str("x"), Str(":")) := CompileLike(Str(":x"), Null)]).expr == Leaf(Bool(false))
  {
    var x, colon := Str("x"), Str(":");
    var c := map[CacheKey(x, colon) := CompileLike(Str(":x"), Null)];
    var args := [Leaf(x), Leaf(x), Leaf(colon)];
    LikeOnScalars("LIKE", args, ctx, c);
    assert Lookup(c, x, colon).0 == CompileLike(Str(":x"), Null);
    CollidingMatchers();
  }

  /** Because `:x` without an escape and `x` with the escape `:` share a
      cache key, the result of a pattern match depends on what was matched
      before it in the same tree: `x LIKE 'x' ESCAPE ':'` holds on its own,
      but is false after `x LIKE ':x'` has been evaluated. */
  lemma CacheOrderMatters(ctx: Context)
    ensures Eval(Node("LIKE", [Leaf(Str("x")), Leaf(Str("x")), Leaf(Str(":"))]), ctx, map[]).expr == Leaf(Bool(true))
    ensures Eval(Node("OR", [Node("LIKE", [Leaf(Str("x")), Leaf(Str(":x"))]),
                             Node("LIKE", [Leaf(Str("x")), Leaf(Str("x")), Leaf(Str(":"))])]), ctx, map[]).expr
            == Leaf(Bool(false))
  {
    EscapedAlone(ctx);
    var first := Node("LIKE", [Leaf(Str("x")), Leaf(Str(":x"))]);
    var second := Node("LIKE", [Leaf(Str("x")), Leaf(Str("x")), Leaf(Str(":"))]);
    UnescapedFirst(ctx);
    var a := Eval(first, ctx, map[]);
    EscapedSecond(ctx);
    var b := Eval(second, ctx, a.cache);
    TwoOperands(first, second, ctx, map[]);
    OnScalars("OR", [a.expr, b.expr], ctx, b.cache);
    LogicOfScalars(Bool(false), Bool(false), ctx, b.cache);
  }

  // ---------------------------------------------------------------------
  // Evaluating again over a cache that already holds every entry

  lemma ExtendsTrans(a: Entries, b: Entries, c: Entries)
    requires Extends(a, b) && Extends(b, c)
    ensures Extends(a, c)
  {
  }

  /** A node's rule applied over a cache that holds every entry the first
      application left gives the same tree and adds nothing: each lookup is
      a hit on the matcher the first application used. */
  lemma VisitReplay(op: string, args: seq<Expr>, ctx: Context, c1: Entries, c2: Entries)
    requires Extends(Visit(op, args, ctx, c1).cache, c2)
    ensures Visit(op, args, ctx, c2) == EvalOut(Visit(op, args, ctx, c1).expr, c2)
  {
    if IsLikeOp(op) && !LikeBlocked(args) {
      var s, p, esc := Arg(args, 0), Arg(args, 1), Arg(args, 2);
      if !(s.v == Null || p.v == Null || (|args| >= 3 && esc.v == Null)) {
        var k := CacheKey(p.v, esc.v);
        var found := Lookup(c1, p.v, esc.v);
        assert k in found.1 && found.0 == found.1[k];
        assert k in c2 && c2[k] == found.0;
        assert Lookup(c2, p.v, esc.v) == (found.0, c2);
      }
    }
  }

  /** Evaluating a tree again over a cache that holds every entry its first
      evaluation left gives the same result and leaves that cache as it is. */
  lemma {:induction false} Replay(e: Expr, ctx: Context, c1: Entries, c2: Entries)
    requires Extends(Eval(e, ctx, c1).cache, c2)
    ensures Eval(e, ctx, c2) == EvalOut(Eval(e, ctx, c1).expr, c2)
    decreases e, 1
  {
    if e.Node? {
      var inner := EvalAll(e.args, ctx, c1);
      ExtendsTrans(inner.1, Eval(e, ctx, c1).cache, c2);
      ReplayAll(e.args, ctx, c1, c2);
      VisitReplay(e.op, inner.0, ctx, inner.1, c2);
    }
  }

  lemma {:induction false} ReplayAll(es: seq<Expr>, ctx: Context, c1: Entries, c2: Entries)
    requires Extends(EvalAll(es, ctx, c1).1, c2)
    ensures EvalAll(es, ctx, c2) == (EvalAll(es, ctx, c1).0, c2)
    decreases es, 0
  {
    if es != [] {
      var head := Eval(es[0], ctx, c1);
      var tail := EvalAll(es[1..], ctx, head.cache);
      ExtendsTrans(head.cache, tail.1, c2);
      Replay(es[0], ctx, c1, c2);
      ReplayAll(es[1..], ctx, head.cache, c2);
    }
  }
}
