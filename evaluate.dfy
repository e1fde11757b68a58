/** `evaluate`: the bottom-up partial evaluator. Every node is rewritten
    after its operands, by the rule of its operator; a node whose operands
    are still trees usually stays as it is, so the result is a scalar or a
    smaller tree. The compiled-pattern cache is threaded through the
    traversal from left to right. */
module Evaluate {
  import opened Values
  import opened Reduce
  import opened Like
  import opened LikeMatch
  import opened RegExpCache

  /** A field of the record a filter is evaluated against: a scalar, or an
      object whose `value` list holds the scalar first (an absent list is
      modelled as an empty one; both read as `null`). */
  datatype Field = Scalar(v: Value) | Structured(value: seq<Value>)

  type Record = map<string, Field>

  /** The record (absent: `obj` is `undefined`) and the clock reading `now`
      (absent: `undefined`). */
  datatype Context = Context(obj: Option<Record>, now: Option<int>)

  datatype EvalOut = EvalOut(expr: Expr, cache: Entries)

  // ---------------------------------------------------------------------
  // The rules, one per operator

  /** `FUNC`: `NOW` is the clock reading when it is truthy; `UPPER` and
      `LOWER` map a `null` operand to `null` and convert any other scalar. */
  function FuncRule(args: seq<Expr>, now: Option<int>): (r: Expr)
    ensures r.Leaf? || r == Node("FUNC", args)
  {
    var name, x := Arg(args, 0), Arg(args, 1);
    if name == Leaf(Str("NOW")) then
      if now.Some? && now.value != 0 then Leaf(Num(now.value)) else Node("FUNC", args)
    else if name == Leaf(Str("UPPER")) then
      if x == Leaf(Null) then Leaf(Null)
      else if x.Leaf? then Leaf(Str(Upper(ToStr(x.v))))
      else Node("FUNC", args)
    else if name == Leaf(Str("LOWER")) then
      if x == Leaf(Null) then Leaf(Null)
      else if x.Leaf? then Leaf(Str(Lower(ToStr(x.v))))
      else Node("FUNC", args)
    else Node("FUNC", args)
  }

  /** The value a record gives for a field. */
  function FieldValue(f: Field): Value
  {
    match f
    case Scalar(v) => v
    case Structured(vs) => if vs == [] then Null else vs[0]
  }

  /** `PARAM`: a `null` name is `null`; with a record and a scalar name, the
      field under the name's string form, `null` when missing. */
  function ParamRule(args: seq<Expr>, obj: Option<Record>): (r: Expr)
    ensures r.Leaf? || r == Node("PARAM", args)
  {
    var name := Arg(args, 0);
    if name == Leaf(Null) then Leaf(Null)
    else if obj.Some? && name.Leaf? then
      var key := ToStr(name.v);
      if key in obj.value then Leaf(FieldValue(obj.value[key])) else Leaf(Null)
    else Node("PARAM", args)
  }

  /** `NOT`: JavaScript `!` on a scalar; a negated negation gives the inner
      operand. */
  function NotRule(args: seq<Expr>): (r: Expr)
    ensures r.Leaf? || r == Node("NOT", args) || (|args| > 0 && args[0].Node? && r == Arg(args[0].args, 0))
  {
    var x := Arg(args, 0);
    if x.Leaf? then Leaf(Bool(!Truthy(x.v)))
    else if x.op == "NOT" then Arg(x.args, 0)
    else Node("NOT", args)
  }

  /** `IS NULL` (`negated` false) and `IS NOT NULL` (`negated` true). */
  function NullTestRule(negated: bool, args: seq<Expr>): (r: Expr)
    ensures r.Leaf? || r == Node(if negated then "IS NOT NULL" else "IS NULL", args)
  {
    var x := Arg(args, 0);
    if x.Node? then Node(if negated then "IS NOT NULL" else "IS NULL", args)
    else if (x.v == Null) != negated then Leaf(Bool(true))
    else Leaf(Null)
  }

  /** The six comparisons: a tree operand leaves the node, a `null` operand
      gives `null`. */
  function CompareRule(op: string, args: seq<Expr>): (r: Expr)
    requires op in Comparisons
    ensures r.Leaf? || r == Node(op, args)
  {
    var a, b := Arg(args, 0), Arg(args, 1);
    if a.Node? || b.Node? then Node(op, args)
    else if a.v == Null || b.v == Null then Leaf(Null)
    else Leaf(Bool(Compare(op, a.v, b.v)))
  }

  /** Every operator but the two pattern matches. The result is a scalar,
      the node itself, the operand of a negated negation, or a folded node. */
  function Rule(op: string, args: seq<Expr>, ctx: Context): (r: Expr)
    ensures r.Leaf? || r == Node(op, args) ||
            (op == "NOT" && |args| > 0 && args[0].Node? && r == Arg(args[0].args, 0)) ||
            (op in FoldOps && r == ReduceSpec(op, args))
  {
    if op == "FUNC" then FuncRule(args, ctx.now)
    else if op == "PARAM" then ParamRule(args, ctx.obj)
    else if op in FoldOps then ReduceSpec(op, args)
    else if op == "NOT" then NotRule(args)
    else if op == "IS NULL" then NullTestRule(false, args)
    else if op == "IS NOT NULL" then NullTestRule(true, args)
    else if op in Comparisons then CompareRule(op, args)
    else Node(op, args)
  }

  predicate IsLikeOp(op: string)
  {
    op == "LIKE" || op == "NOT LIKE"
  }

  /** A pattern match waits while the subject, the pattern or the escape is
      a tree. */
  predicate LikeBlocked(args: seq<Expr>)
  {
    Arg(args, 0).Node? || Arg(args, 1).Node? || Arg(args, 2).Node?
  }

  /** `LIKE` and `NOT LIKE`: `null` when the subject or the pattern is
      `null`, or when an escape operand is present and `null`; otherwise the
      cached matcher is tested against the subject's string form. */
  function LikeRule(op: string, args: seq<Expr>, cache: Entries): (r: EvalOut)
    requires IsLikeOp(op)
    ensures LikeBlocked(args) ==> r == EvalOut(Node(op, args), cache)
    ensures !LikeBlocked(args) ==> r.expr.Leaf? && (r.expr.v.Null? || r.expr.v.Bool?)
    ensures cache.Keys <= r.cache.Keys && forall k :: k in cache ==> r.cache[k] == cache[k]
  {
    var s, p, esc := Arg(args, 0), Arg(args, 1), Arg(args, 2);
    if LikeBlocked(args) then EvalOut(Node(op, args), cache)
    else if s.v == Null || p.v == Null || (|args| >= 3 && esc.v == Null) then EvalOut(Leaf(Null), cache)
    else
      var found := Lookup(cache, p.v, esc.v);
      var matched := Test(found.0, ToStr(s.v));
      EvalOut(Leaf(Bool(if op == "LIKE" then matched else !matched)), found.1)
  }

  /** The callback `evaluate` hands to the post-order traversal, applied to
      a node whose operands are already evaluated. */
  function Visit(op: string, args: seq<Expr>, ctx: Context, cache: Entries): (r: EvalOut)
    ensures cache.Keys <= r.cache.Keys && forall k :: k in cache ==> r.cache[k] == cache[k]
  {
    if IsLikeOp(op) then LikeRule(op, args, cache) else EvalOut(Rule(op, args, ctx), cache)
  }

  /** The cache only grows, and no entry is ever replaced. */
  predicate Extends(before: Entries, after: Entries)
  {
    before.Keys <= after.Keys && forall k :: k in before ==> after[k] == before[k]
  }

  /** `evaluate(exp, obj, now)`: operands first, then the node. */
  function Eval(e: Expr, ctx: Context, cache: Entries): (r: EvalOut)
    ensures Extends(cache, r.cache)
    ensures e.Leaf? ==> r == EvalOut(e, cache)
    decreases e
  {
    match e
    case Leaf(_) => EvalOut(e, cache)
    case Node(op, args) =>
      var inner := EvalAll(args, ctx, cache);
      Visit(op, inner.0, ctx, inner.1)
  }

  /** The operands, left to right, each seeing the cache its left neighbours
      left behind. */
  function EvalAll(es: seq<Expr>, ctx: Context, cache: Entries): (r: (seq<Expr>, Entries))
    ensures |r.0| == |es|
    ensures Extends(cache, r.1)
    decreases es
  {
    if es == [] then ([], cache)
    else
      var head := Eval(es[0], ctx, cache);
      var tail := EvalAll(es[1..], ctx, head.cache);
      ([head.expr] + tail.0, tail.1)
  }

  // ---------------------------------------------------------------------
  // The per-tree cache

  /** One filter tree and the compiled patterns cached for it; the
      process-wide weak map from trees to their caches is one such object per
      tree. */
  class Filter {
    const exp: Expr
    var regExps: Entries

    constructor (exp: Expr)
      ensures this.exp == exp && regExps == map[]
    {
      this.exp := exp;
      regExps := map[];
    }

    /** `getRegExp`: look the key up, and on a miss compile the pattern to
        its source, build the matcher from that source and store it. */
    method GetRegExp(pat: Value, esc: Value) returns (m: Matcher)
      modifies this
      ensures (m, regExps) == Lookup(old(regExps), pat, esc)
    {
      var k := CacheKey(pat, esc);
      if k !in regExps {
        var source := LikePatternToRegExp(ToStr(pat), EscString(esc));
        ParseRender(CompileLike(pat, esc));
        var re := ParseRegex(source);
        regExps := regExps[k := re.value];
      }
      m := regExps[k];
    }

    /** The traversal: operands first, left to right, then the node's rule;
        the pattern matches go through the cache. */
    method EvalTree(e: Expr, ctx: Context) returns (r: Expr)
      modifies this
      ensures EvalOut(r, regExps) == Eval(e, ctx, old(regExps))
      decreases e
    {
      if e.Leaf? {
        return e;
      }
      var args: seq<Expr> := [];
      ghost var start := regExps;
      var i := 0;
      assert e.args[0..] == e.args;
      assert EvalAll(e.args, ctx, start).0 == [] + EvalAll(e.args, ctx, start).0;
      while i < |e.args|
        invariant 0 <= i <= |e.args|
        invariant EvalAll(e.args, ctx, start).0 == args + EvalAll(e.args[i..], ctx, regExps).0
        invariant EvalAll(e.args, ctx, start).1 == EvalAll(e.args[i..], ctx, regExps).1
      {
        ghost var before := regExps;
        assert e.args[i..][0] == e.args[i] && e.args[i..][1..] == e.args[i + 1..];
        var a := EvalTree(e.args[i], ctx);
        assert EvalAll(e.args[i..], ctx, before) ==
               ([a] + EvalAll(e.args[i + 1..], ctx, regExps).0, EvalAll(e.args[i + 1..], ctx, regExps).1);
        ghost var tail := EvalAll(e.args[i + 1..], ctx, regExps).0;
        assert args + ([a] + tail) == (args + [a]) + tail;
        args := args + [a];
        i := i + 1;
      }
      assert e.args[i..] == [];
      assert EvalAll(e.args[i..], ctx, regExps) == ([], regExps);
      assert args + [] == args;
      assert EvalAll(e.args, ctx, start) == (args, regExps);
      ghost var mid := regExps;
      if IsLikeOp(e.op) && !LikeBlocked(args) {
        var s, p, esc := Arg(args, 0), Arg(args, 1), Arg(args, 2);
        if s.v == Null || p.v == Null || (|args| >= 3 && esc.v == Null) {
          r := Leaf(Null);
        } else {
          var m := GetRegExp(p.v, esc.v);
          var matched := Test(m, ToStr(s.v));
          r := Leaf(Bool(if e.op == "LIKE" then matched else !matched));
        }
        assert EvalOut(r, regExps) == LikeRule(e.op, args, mid);
      } else if IsLikeOp(e.op) {
        r := Node(e.op, args);
      } else {
        r := Rule(e.op, args, ctx);
      }
    }

    /** `evaluate(exp, obj, now)` on this tree, with its cache. */
    method Evaluate(ctx: Context) returns (r: Expr)
      modifies this
      ensures EvalOut(r, regExps) == Eval(exp, ctx, old(regExps))
    {
      r := EvalTree(exp, ctx);
    }
  }
}
