/** `subset(exp1, exp2)`: whether every record matching the first filter
    also matches the second, decided by evaluating `NOT (NOT exp1 OR exp2)`
    without a record and asking whether what is left can hold. */
module SubsetCheck {
  import opened Values
  import opened Reduce
  import opened RegExpCache
  import opened Evaluate
  import opened EvaluateProps
  import opened Sat

  /** No record and no clock: the context `subset` evaluates in. */
  const Bare := Context(None, None)

  /** The tree `NOT (NOT a OR b)` that `subset` evaluates. */
  function Difference(a: Expr, b: Expr): Expr
  {
    Node("NOT", [Node("OR", [Node("NOT", [a]), b])])
  }

  function Subset(a: Expr, b: Expr): (r: bool)
  {
    var e := Eval(Difference(a, b), Bare, map[]).expr;
    if e.Leaf? then !Truthy(e.v) else !Decide(e)
  }

  /** The `NOT` rule negates the Boolean reading of its operand, whatever
      the operand is. */
  lemma NotRuleNegates(x: Expr, t: set<Expr>)
    ensures Holds(NotRule([x]), t) <==> !Holds(x, t)
  {
    assert Arg([x], 0) == x;
  }

  /** Over two operands, the `OR` rule is disjunction of their Boolean
      readings. */
  lemma OrRuleMeaning(p: Expr, q: Expr, ctx: Context, t: set<Expr>)
    ensures Holds(Rule("OR", [p, q], ctx), t) <==> Holds(p, t) || Holds(q, t)
  {
    var xs := [p, q];
    assert Rule("OR", xs, ctx) == ReduceSpec("OR", xs);
    var c := Combine("OR", p, q, 0);
    if c.Some? {
      assert xs[..0] + [c.value] + xs[2..] == [c.value];
      assert PassFrom("OR", xs, 0) == ([c.value], true);
      assert Fix("OR", xs) == Fix("OR", [c.value]) == [c.value];
    } else {
      assert PassFrom("OR", xs, 0) == (xs, false);
      assert Fix("OR", xs) == xs;
      var r := Node("OR", xs);
      assert Holds(r, t) <==> Holds(xs[0], t) || Holds(xs[1], t);
    }
  }

  /** The evaluated pieces of `NOT (NOT a OR b)`: the first operand, and
      the second evaluated with the cache the first left behind. */
  function Left(a: Expr): EvalOut
  {
    Eval(a, Bare, map[])
  }

  function Right(a: Expr, b: Expr): Expr
  {
    Eval(b, Bare, Left(a).cache).expr
  }

  /** The evaluated `NOT (NOT a OR b)` is built by the `NOT` and `OR` rules
      from the evaluated `a` and `b`. */
  lemma DifferenceShape(a: Expr, b: Expr)
    ensures Eval(Difference(a, b), Bare, map[]).expr ==
            NotRule([Rule("OR", [NotRule([Left(a).expr]), Right(a, b)], Bare)])
  {
    var na := Node("NOT", [a]);
    OneOperand(a, Bare, map[]);
    var n := Eval(na, Bare, map[]);
    assert n.expr == NotRule([Left(a).expr]);
    var or := Node("OR", [na, b]);
    TwoOperands(na, b, Bare, map[]);
    var o := Eval(or, Bare, map[]);
    assert o.expr == Rule("OR", [n.expr, Right(a, b)], Bare);
    OneOperand(or, Bare, map[]);
  }

  /** The tree `subset` inspects holds exactly where the evaluated `a`
      holds and the evaluated `b` does not. */
  lemma DifferenceMeaning(a: Expr, b: Expr, t: set<Expr>)
    ensures Holds(Eval(Difference(a, b), Bare, map[]).expr, t) <==> Holds(Left(a).expr, t) && !Holds(Right(a, b), t)
  {
    DifferenceShape(a, b);
    var n := NotRule([Left(a).expr]);
    NotRuleNegates(Left(a).expr, t);
    var o := Rule("OR", [n, Right(a, b)], Bare);
    OrRuleMeaning(n, Right(a, b), Bare, t);
    NotRuleNegates(o, t);
  }

  /** An `OR` of two operands, one of them a truthy scalar, is a truthy
      scalar. */
  lemma OrOfTruthy(p: Expr, q: Expr, ctx: Context)
    requires (p.Leaf? && Truthy(p.v)) || (q.Leaf? && Truthy(q.v))
    ensures Rule("OR", [p, q], ctx).Leaf? && Truthy(Rule("OR", [p, q], ctx).v)
  {
    var xs := [p, q];
    assert Rule("OR", xs, ctx) == ReduceSpec("OR", xs);
    var c := Combine("OR", p, q, 0).value;
    assert c.Leaf? && Truthy(c.v);
    assert xs[..0] + [c] + xs[2..] == [c];
    assert PassFrom("OR", xs, 0) == ([c], true);
    assert Fix("OR", xs) == Fix("OR", [c]) == [c];
  }

  /** A scalar reads the same under every assignment. */
  lemma LeafConstant(e: Expr, t: set<Expr>)
    requires e.Leaf?
    ensures Holds(e, t) == Truthy(e.v)
  {
  }

  /** `subset` holds exactly when, under every assignment of the atoms, the
      evaluated first filter implies the evaluated second one. */
  lemma SubsetIsImplication(a: Expr, b: Expr)
    ensures Subset(a, b) <==> forall t :: Holds(Left(a).expr, t) ==> Holds(Right(a, b), t)
  {
    var e := Eval(Difference(a, b), Bare, map[]).expr;
    forall t ensures Holds(e, t) <==> Holds(Left(a).expr, t) && !Holds(Right(a, b), t) {
      DifferenceMeaning(a, b, t);
    }
    if e.Leaf? {
      forall t ensures Holds(e, t) == Truthy(e.v) {
        LeafConstant(e, t);
      }
      if Truthy(e.v) {
        assert Holds(e, {});
        assert !(Holds(Left(a).expr, {}) ==> Holds(Right(a, b), {}));
      } else {
        forall t ensures Holds(Left(a).expr, t) ==> Holds(Right(a, b), t) {
          assert !Holds(e, t);
        }
      }
    } else {
      DecideIsSat(e);
      if Decide(e) {
        var t :| Holds(e, t);
        assert !(Holds(Left(a).expr, t) ==> Holds(Right(a, b), t));
      } else {
        forall t ensures Holds(Left(a).expr, t) ==> Holds(Right(a, b), t) {
          assert !Holds(e, t);
        }
      }
    }
  }

  /** On filters that are already evaluated, `subset` is implication of
      their Boolean readings. */
  lemma SubsetOfNormal(a: Expr, b: Expr)
    requires Normal(a, Bare) && Normal(b, Bare)
    ensures Subset(a, b) <==> forall t :: Holds(a, t) ==> Holds(b, t)
  {
    NormalIsFixed(a, Bare, map[]);
    NormalIsFixed(b, Bare, Left(a).cache);
    SubsetIsImplication(a, b);
  }

  /** Every filter is a subset of itself: the second evaluation of `a`
      finds every pattern the first one cached and gives the same tree. */
  lemma SubsetReflexive(a: Expr)
    ensures Right(a, a) == Left(a).expr
    ensures Subset(a, a)
  {
    Replay(a, Bare, map[], Left(a).cache);
    SubsetIsImplication(a, a);
  }

  /** On scalars, `subset` is material implication of their truthiness. */
  lemma SubsetOfScalars(x: Value, y: Value)
    ensures Subset(Leaf(x), Leaf(y)) <==> !Truthy(x) || Truthy(y)
  {
    SubsetOfNormal(Leaf(x), Leaf(y));
    assert Holds(Leaf(x), {}) == Truthy(x) && Holds(Leaf(y), {}) == Truthy(y);
  }

  /** Everything is a subset of `true`: the counterexample tree folds to
      the scalar `false`, so no satisfiability search is needed. */
  lemma SubsetOfTrue(a: Expr)
    ensures Eval(Difference(a, Leaf(Bool(true))), Bare, map[]).expr == Leaf(Bool(false))
    ensures Subset(a, Leaf(Bool(true)))
  {
    var y := Leaf(Bool(true));
    DifferenceShape(a, y);
    assert Right(a, y) == y;
    OrOfTruthy(NotRule([Left(a).expr]), y, Bare);
  }

  /** `false` is a subset of everything, again without a search. */
  lemma SubsetFromFalse(b: Expr)
    ensures Eval(Difference(Leaf(Bool(false)), b), Bare, map[]).expr == Leaf(Bool(false))
    ensures Subset(Leaf(Bool(false)), b)
  {
    var x := Leaf(Bool(false));
    DifferenceShape(x, b);
    assert Left(x).expr == x;
    assert NotRule([x]) == Leaf(Bool(true));
    OrOfTruthy(Leaf(Bool(true)), Right(x, b), Bare);
  }
}
