/** The fixpoint pair-combiner `reduce` that folds the n-ary `AND`, `OR`,
    `*`, `/`, `+`, `-` and `||` nodes, and what its fixpoint is. */
module Reduce {
  import opened Values

  const FoldOps: set<string> := {"AND", "OR", "*", "/", "+", "-", "||"}

  /** The operand value that decides a logical node on its own: a falsy
      scalar for `AND`, a truthy one for `OR`. */
  predicate Absorbs(op: string, v: Value)
  {
    if op == "AND" then !Truthy(v) else Truthy(v)
  }

  /** The arithmetic of one pair; `i` is the operand index of the left
      element. Only the pair at index 0 of a `-` or `/` chain subtracts or
      divides: every later pair belongs to the subtrahend or the divisor. */
  function Arith(op: string, a: Value, b: Value, i: nat): Value
  {
    if op == "*" then Times(a, b)
    else if op == "/" then (if i == 0 then Divide(a, b) else Times(a, b))
    else if op == "+" then Plus(a, b)
    else if op == "-" then (if i == 0 then Minus(a, b) else Plus(a, b))
    else Concat(a, b)
  }

  /** The per-operator callbacks; `None` is `REDUCE_SKIP`. A logical pair
      combines as soon as one side is a scalar; an arithmetic pair only when
      both are, and then `null` on either side gives `null`. */
  function Combine(op: string, a: Expr, b: Expr, i: nat): (r: Option<Expr>)
    ensures (op == "AND" || op == "OR") ==> (r.None? <==> a.Node? && b.Node?)
    ensures (op == "AND" || op == "OR") && r.Some? ==> r.value == a || r.value == b
    ensures !(op == "AND" || op == "OR") ==> (r.None? <==> a.Node? || b.Node?)
    ensures !(op == "AND" || op == "OR") && r.Some? ==> r.value.Leaf?
    ensures !(op == "AND" || op == "OR") && r.Some? ==> (r.value.v.Null? <==> a.v.Null? || b.v.Null?)
  {
    if op == "AND" || op == "OR" then
      if a.Leaf? then Some(if Absorbs(op, a.v) then a else b)
      else if b.Leaf? then Some(if Absorbs(op, b.v) then b else a)
      else None
    else if a.Leaf? && b.Leaf? then
      if a.v.Null? || b.v.Null? then Some(Leaf(Null))
      else Some(Leaf(Arith(op, a.v, b.v, i)))
    else None
  }

  /** One pass of the inner `for` loop from operand index `j` on: the new
      operand list and whether some pair combined. A combined pair is replaced
      by its result and the scan resumes after it. Every combination removes
      one operand, so a pass that changed something is strictly shorter. */
  function PassFrom(op: string, xs: seq<Expr>, j: nat): (r: (seq<Expr>, bool))
    ensures |r.0| <= |xs|
    ensures r.1 <==> |r.0| < |xs|
    ensures !r.1 ==> r.0 == xs
    decreases |xs| - j
  {
    if j + 1 >= |xs| then (xs, false)
    else match Combine(op, xs[j], xs[j + 1], j)
      case None => PassFrom(op, xs, j + 1)
      case Some(c) => (PassFrom(op, xs[..j] + [c] + xs[j + 2..], j + 1).0, true)
  }

  /** The outer `while (loop)`: passes until one changes nothing. */
  function Fix(op: string, xs: seq<Expr>): seq<Expr>
    decreases |xs|
  {
    var p := PassFrom(op, xs, 0);
    if p.1 then Fix(op, p.0) else xs
  }

  /** A node left with a single operand is that operand. */
  function Collapse(op: string, xs: seq<Expr>): Expr
  {
    if |xs| == 1 then xs[0] else Node(op, xs)
  }

  function ReduceSpec(op: string, xs: seq<Expr>): Expr
  {
    Collapse(op, Fix(op, xs))
  }

  /** `reduce(exp, callback)`, on the operands of `exp`. The list is a value,
      so the caller's operands are never changed, as in the source where every
      combination first copies the array. */
  method Reduce(op: string, operands: seq<Expr>) returns (r: Expr)
    ensures r == ReduceSpec(op, operands)
  {
    var exp := operands;
    var loop := true;
    while loop
      invariant loop ==> Fix(op, exp) == Fix(op, operands)
      invariant !loop ==> exp == Fix(op, operands)
      decreases if loop then |exp| + 1 else 0
    {
      loop := false;
      ghost var start := exp;
      var k := 1;
      while k < |exp|
        invariant 1 <= k <= |exp| + 1
        invariant |exp| <= |start|
        invariant loop <==> |exp| < |start|
        invariant PassFrom(op, start, 0) == (PassFrom(op, exp, k - 1).0, loop || PassFrom(op, exp, k - 1).1)
        decreases |exp| + 1 - k
      {
        var res := Combine(op, exp[k - 1], exp[k], k - 1);
        if res.Some? {
          loop := true;
          exp := exp[..k - 1] + [res.value] + exp[k + 1..];
        }
        k := k + 1;
      }
    }
    r := if |exp| == 1 then exp[0] else Node(op, exp);
  }

  // ---------------------------------------------------------------------
  // The fixpoint

  lemma {:induction false} NoCombineAtFixpoint(op: string, ys: seq<Expr>, j: nat)
    requires !PassFrom(op, ys, j).1
    ensures forall k :: j <= k && k + 1 < |ys| ==> Combine(op, ys[k], ys[k + 1], k).None?
    decreases |ys| - j
  {
    if j + 1 < |ys| {
      NoCombineAtFixpoint(op, ys, j + 1);
    }
  }

  /** What `reduce` returns is a fixpoint: one more pass changes nothing, no
      operand list is longer than the input, and every operand left is an
      input operand or a scalar produced by a callback. */
  lemma {:induction false} FixIsFixpoint(op: string, xs: seq<Expr>)
    ensures !PassFrom(op, Fix(op, xs), 0).1
    ensures Fix(op, Fix(op, xs)) == Fix(op, xs)
    ensures |Fix(op, xs)| <= |xs|
    ensures forall x :: x in Fix(op, xs) ==> x in xs || x.Leaf?
    decreases |xs|
  {
    var p := PassFrom(op, xs, 0);
    if p.1 {
      FixIsFixpoint(op, p.0);
      PassKeepsOperands(op, xs, 0);
    }
  }

  lemma {:induction false} PassKeepsOperands(op: string, xs: seq<Expr>, j: nat)
    ensures forall x :: x in PassFrom(op, xs, j).0 ==> x in xs || x.Leaf?
    decreases |xs| - j
  {
    if j + 1 < |xs| {
      match Combine(op, xs[j], xs[j + 1], j)
      case None => PassKeepsOperands(op, xs, j + 1);
      case Some(c) =>
        var ys := xs[..j] + [c] + xs[j + 2..];
        PassKeepsOperands(op, ys, j + 1);
        assert c == xs[j] || c == xs[j + 1] || c.Leaf?;
        forall x | x in ys ensures x in xs || x.Leaf? {
          if x != c {
            assert x in xs[..j] || x in xs[j + 2..];
          }
        }
    }
  }

  // ---------------------------------------------------------------------
  // Normal forms that every pass preserves

  /** The leftmost scalar operand that decides the logical node. */
  function FirstAbsorbing(op: string, xs: seq<Expr>): Option<Value>
  {
    if xs == [] then None
    else if xs[0].Leaf? && Absorbs(op, xs[0].v) then Some(xs[0].v)
    else FirstAbsorbing(op, xs[1..])
  }

  /** The operands still unresolved, in order. */
  function Trees(xs: seq<Expr>): seq<Expr>
  {
    if xs == [] then [] else (if xs[0].Node? then [xs[0]] else []) + Trees(xs[1..])
  }

  /** The operands a logical node keeps: the leftmost deciding scalar if
      there is one; otherwise the unresolved operands; a node of scalars
      only keeps its last one. */
  function LogicNorm(op: string, xs: seq<Expr>): seq<Expr>
  {
    match FirstAbsorbing(op, xs)
    case Some(v) => [Leaf(v)]
    case None => if Trees(xs) != [] then Trees(xs) else if xs == [] then [] else [xs[|xs| - 1]]
  }

  predicate AllNum(xs: seq<Expr>)
  {
    forall i :: 0 <= i < |xs| ==> xs[i].Leaf? && xs[i].v.Num?
  }

  predicate AllStr(xs: seq<Expr>)
  {
    forall i :: 0 <= i < |xs| ==> xs[i].Leaf? && xs[i].v.Str?
  }

  predicate AllLeaf(xs: seq<Expr>)
  {
    forall i :: 0 <= i < |xs| ==> xs[i].Leaf?
  }

  predicate HasNull(xs: seq<Expr>)
  {
    exists i :: 0 <= i < |xs| && xs[i] == Leaf(Null)
  }

  function NumOf(x: Expr): int
  {
    if x.Leaf? && x.v.Num? then x.v.n else 0
  }

  function StrOf(x: Expr): string
  {
    if x.Leaf? && x.v.Str? then x.v.s else ""
  }

  function Nums(xs: seq<Expr>): seq<int>
  {
    if xs == [] then [] else [NumOf(xs[0])] + Nums(xs[1..])
  }

  function Sum(ns: seq<int>): int
  {
    if ns == [] then 0 else ns[0] + Sum(ns[1..])
  }

  function Prod(ns: seq<int>): int
  {
    if ns == [] then 1 else ns[0] * Prod(ns[1..])
  }

  function Joined(xs: seq<Expr>): string
  {
    if xs == [] then "" else StrOf(xs[0]) + Joined(xs[1..])
  }

  /** The value of a chain of numbers under the source's pairing rules:
      the first operand minus the sum of the others for `-`. */
  function NumMeaning(op: string, ns: seq<int>): int
  {
    if op == "+" then Sum(ns)
    else if op == "*" then Prod(ns)
    else if ns == [] then 0 else ns[0] - Sum(ns[1..])
  }

  /** A `/` chain: a number (or `NaN`, once a zero divisor was met) followed
      by numbers. */
  predicate DivChain(xs: seq<Expr>)
  {
    |xs| >= 1 && xs[0].Leaf? && (xs[0].v.Num? || xs[0].v.NaN?) &&
    forall i :: 1 <= i < |xs| ==> xs[i].Leaf? && xs[i].v.Num?
  }

  /** The value of a `/` chain under the source's pairing rules: the first
      operand divided by the product of the others, `NaN` when a divisor is
      zero. */
  function DivMeaning(x: Expr, ds: seq<int>): Value
  {
    if x.Leaf? && x.v.Num? && Prod(ds) != 0 then Num(TruncDiv(x.v.n, Prod(ds))) else NaN
  }

  datatype Kind = Logic | Numeric | Division | Strings | NullChain

  /** The operand lists for which a normal form is tracked. */
  predicate Tracked(kind: Kind, op: string, xs: seq<Expr>)
  {
    match kind
    case Logic => op == "AND" || op == "OR"
    case Numeric => op in {"+", "-", "*"} && |xs| >= 1 && AllNum(xs)
    case Division => op == "/" && DivChain(xs)
    case Strings => op == "||" && |xs| >= 1 && AllStr(xs)
    case NullChain => op in {"*", "/", "+", "-", "||"} && AllLeaf(xs) && HasNull(xs)
  }

  function Norm(kind: Kind, op: string, xs: seq<Expr>): seq<Expr>
  {
    match kind
    case Logic => LogicNorm(op, xs)
    case Numeric => [Leaf(Num(NumMeaning(op, Nums(xs))))]
    case Division => if xs == [] then [] else [Leaf(DivMeaning(xs[0], Nums(xs[1..])))]
    case Strings => [Leaf(Str(Joined(xs)))]
    case NullChain => [Leaf(Null)]
  }

  lemma FirstAbsorbingAppend(op: string, p: seq<Expr>, q: seq<Expr>)
    ensures FirstAbsorbing(op, p + q) ==
            if FirstAbsorbing(op, p).Some? then FirstAbsorbing(op, p) else FirstAbsorbing(op, q)
  {
    if p == [] {
      assert p + q == q;
    } else {
      assert (p + q)[1..] == p[1..] + q;
      FirstAbsorbingAppend(op, p[1..], q);
    }
  }

  lemma TreesAppend(p: seq<Expr>, q: seq<Expr>)
    ensures Trees(p + q) == Trees(p) + Trees(q)
  {
    if p == [] {
      assert p + q == q;
    } else {
      assert (p + q)[1..] == p[1..] + q;
      TreesAppend(p[1..], q);
    }
  }

  lemma NumsAppend(p: seq<Expr>, q: seq<Expr>)
    ensures Nums(p + q) == Nums(p) + Nums(q)
  {
    if p == [] {
      assert p + q == q;
    } else {
      assert (p + q)[1..] == p[1..] + q;
      NumsAppend(p[1..], q);
    }
  }

  lemma JoinedAppend(p: seq<Expr>, q: seq<Expr>)
    ensures Joined(p + q) == Joined(p) + Joined(q)
  {
    if p == [] {
      assert p + q == q;
    } else {
      assert (p + q)[1..] == p[1..] + q;
      JoinedAppend(p[1..], q);
    }
  }

  lemma SumAppend(p: seq<int>, q: seq<int>)
    ensures Sum(p + q) == Sum(p) + Sum(q)
  {
    if p == [] {
      assert p + q == q;
    } else {
      assert (p + q)[1..] == p[1..] + q;
      SumAppend(p[1..], q);
    }
  }

  lemma MulAssoc(h: int, a: int, b: int)
    ensures h * (a * b) == (h * a) * b
  {
  }

  lemma {:induction false} ProdAppend(p: seq<int>, q: seq<int>)
    ensures Prod(p + q) == Prod(p) * Prod(q)
  {
    if p == [] {
      assert p + q == q;
    } else {
      assert (p + q)[1..] == p[1..] + q;
      ProdAppend(p[1..], q);
      MulAssoc(p[0], Prod(p[1..]), Prod(q));
    }
  }

  /** What LogicNorm looks at, on an operand list in three pieces. */
  lemma Split3(op: string, p: seq<Expr>, m: seq<Expr>, s: seq<Expr>)
    ensures FirstAbsorbing(op, p + m + s) ==
            if FirstAbsorbing(op, p).Some? then FirstAbsorbing(op, p)
            else if FirstAbsorbing(op, m).Some? then FirstAbsorbing(op, m)
            else FirstAbsorbing(op, s)
    ensures Trees(p + m + s) == Trees(p) + Trees(m) + Trees(s)
  {
    FirstAbsorbingAppend(op, p + m, s);
    FirstAbsorbingAppend(op, p, m);
    TreesAppend(p + m, s);
    TreesAppend(p, m);
  }

  /** The last operand of a list in three pieces with a non-empty middle. */
  lemma Last3(p: seq<Expr>, m: seq<Expr>, s: seq<Expr>)
    requires m != []
    ensures p + m + s != []
    ensures (p + m + s)[|p + m + s| - 1] == if s != [] then s[|s| - 1] else m[|m| - 1]
  {
    var xs := p + m + s;
    if s != [] {
      assert xs[|xs| - 1] == s[|s| - 1];
    } else {
      assert xs[|xs| - 1] == m[|m| - 1];
    }
  }

  /** Replacing the middle `m1` of an operand list by `m2` keeps the logical
      normal form when the two agree on what LogicNorm looks at. */
  lemma LogicNormCongruence(op: string, p: seq<Expr>, m1: seq<Expr>, m2: seq<Expr>, s: seq<Expr>)
    requires m1 != [] && m2 != []
    requires FirstAbsorbing(op, m1) == FirstAbsorbing(op, m2)
    requires FirstAbsorbing(op, m1).None? ==> Trees(m1) == Trees(m2)
    requires FirstAbsorbing(op, m1).None? && Trees(m1) == [] ==> m1[|m1| - 1] == m2[|m2| - 1]
    ensures LogicNorm(op, p + m1 + s) == LogicNorm(op, p + m2 + s)
  {
    Split3(op, p, m1, s);
    Split3(op, p, m2, s);
    Last3(p, m1, s);
    Last3(p, m2, s);
  }

  lemma PairFacts(op: string, a: Expr, b: Expr)
    ensures FirstAbsorbing(op, [a]) == if a.Leaf? && Absorbs(op, a.v) then Some(a.v) else None
    ensures FirstAbsorbing(op, [a, b]) == if a.Leaf? && Absorbs(op, a.v) then Some(a.v) else FirstAbsorbing(op, [b])
    ensures Trees([a]) == if a.Node? then [a] else []
    ensures Trees([a, b]) == Trees([a]) + Trees([b])
  {
    assert [a][1..] == [];
    assert [a, b][1..] == [b];
  }

  lemma LogicStep(op: string, xs: seq<Expr>, j: nat, c: Expr)
    requires op == "AND" || op == "OR"
    requires j + 1 < |xs|
    requires Combine(op, xs[j], xs[j + 1], j) == Some(c)
    ensures LogicNorm(op, xs[..j] + [c] + xs[j + 2..]) == LogicNorm(op, xs)
  {
    var a, b := xs[j], xs[j + 1];
    var p, s := xs[..j], xs[j + 2..];
    assert xs == p + [a, b] + s;
    PairFacts(op, a, b);
    PairFacts(op, c, c);
    PairFacts(op, b, b);
    LogicNormCongruence(op, p, [a, b], [c], s);
  }

  lemma NumsPair(a: Expr, b: Expr)
    ensures Nums([a, b]) == [NumOf(a), NumOf(b)]
    ensures Nums([a]) == [NumOf(a)]
  {
    assert [a][1..] == [];
    assert Nums([a]) == [NumOf(a)] + [];
    assert [b][1..] == [];
    assert Nums([b]) == [NumOf(b)] + [];
    assert [a, b][1..] == [b];
    assert Nums([a, b]) == [NumOf(a)] + [NumOf(b)];
  }

  lemma JoinedPair(a: Expr, b: Expr)
    ensures Joined([a, b]) == StrOf(a) + StrOf(b)
    ensures Joined([a]) == StrOf(a)
  {
    assert [a][1..] == [];
    assert Joined([a]) == StrOf(a) + "";
    assert [b][1..] == [];
    assert Joined([b]) == StrOf(b) + "";
    assert [a, b][1..] == [b];
    assert Joined([a, b]) == StrOf(a) + StrOf(b);
  }

  lemma NumsConcat3(p: seq<Expr>, m: seq<Expr>, s: seq<Expr>)
    ensures Nums(p + m + s) == Nums(p) + Nums(m) + Nums(s)
  {
    NumsAppend(p + m, s);
    NumsAppend(p, m);
  }

  /** The numbers of an operand list, split around a pair `a, b`, and the
      same list with the pair replaced by `c`. */
  lemma NumsSplit(p: seq<Expr>, a: Expr, b: Expr, s: seq<Expr>, c: Expr)
    ensures Nums(p + [a, b] + s) == Nums(p) + [NumOf(a), NumOf(b)] + Nums(s)
    ensures Nums(p + [c] + s) == Nums(p) + [NumOf(c)] + Nums(s)
  {
    NumsConcat3(p, [a, b], s);
    NumsConcat3(p, [c], s);
    NumsPair(a, b);
    NumsPair(c, c);
  }

  /** The strings of an operand list, split around a pair `a, b`, and the
      same list with the pair replaced by `c`. */
  lemma JoinedSplit(p: seq<Expr>, a: Expr, b: Expr, s: seq<Expr>, c: Expr)
    ensures Joined(p + [a, b] + s) == Joined(p) + (StrOf(a) + StrOf(b)) + Joined(s)
    ensures Joined(p + [c] + s) == Joined(p) + StrOf(c) + Joined(s)
  {
    JoinedAppend(p + [a, b], s);
    JoinedAppend(p, [a, b]);
    JoinedPair(a, b);
    JoinedAppend(p + [c], s);
    JoinedAppend(p, [c]);
    JoinedPair(c, c);
  }

  lemma ReplaceNum(xs: seq<Expr>, j: nat, c: Expr)
    requires j + 1 < |xs| && AllNum(xs) && c.Leaf? && c.v.Num?
    ensures AllNum(xs[..j] + [c] + xs[j + 2..])
  {
    var ys := xs[..j] + [c] + xs[j + 2..];
    forall i | 0 <= i < |ys| ensures ys[i].Leaf? && ys[i].v.Num? {
      if i < j { assert ys[i] == xs[i]; }
      else if i > j { assert ys[i] == xs[i + 1]; }
    }
  }

  lemma ReplaceStr(xs: seq<Expr>, j: nat, c: Expr)
    requires j + 1 < |xs| && AllStr(xs) && c.Leaf? && c.v.Str?
    ensures AllStr(xs[..j] + [c] + xs[j + 2..])
  {
    var ys := xs[..j] + [c] + xs[j + 2..];
    forall i | 0 <= i < |ys| ensures ys[i].Leaf? && ys[i].v.Str? {
      if i < j { assert ys[i] == xs[i]; }
      else if i > j { assert ys[i] == xs[i + 1]; }
    }
  }

  /** Combining two adjacent numbers keeps the meaning of the chain. */
  lemma MeaningStep(op: string, np: seq<int>, x: int, y: int, r: int, ns: seq<int>)
    requires op in {"+", "-", "*"}
    requires r == if op == "*" then x * y else if op == "-" && np == [] then x - y else x + y
    ensures NumMeaning(op, np + [r] + ns) == NumMeaning(op, np + [x, y] + ns)
  {
    SumAppend(np + [x, y], ns);
    SumAppend(np, [x, y]);
    SumAppend(np + [r], ns);
    SumAppend(np, [r]);
    assert [x, y][1..] == [y];
    assert [y][1..] == [];
    assert [r][1..] == [];
    if op == "*" {
      ProdAppend(np + [x, y], ns);
      ProdAppend(np, [x, y]);
      ProdAppend(np + [r], ns);
      ProdAppend(np, [r]);
      assert Prod([x, y]) == x * y;
      assert Prod([r]) == r;
      var a, b := Prod(np), Prod(ns);
      assert a * (x * y) * b == a * r * b;
    } else if op == "-" {
      if np == [] {
        assert (np + [x, y] + ns)[1..] == [y] + ns;
        assert (np + [r] + ns)[1..] == ns;
        SumAppend([y], ns);
      } else {
        assert (np + [x, y] + ns)[1..] == np[1..] + [x, y] + ns;
        assert (np + [r] + ns)[1..] == np[1..] + [r] + ns;
        SumAppend(np[1..] + [x, y], ns);
        SumAppend(np[1..], [x, y]);
        SumAppend(np[1..] + [r], ns);
        SumAppend(np[1..], [r]);
      }
    }
  }

  /** The value a numeric pair combines to. */
  lemma NumCombine(op: string, a: Expr, b: Expr, j: nat, c: Expr)
    requires op in {"+", "-", "*"} && a.Leaf? && a.v.Num? && b.Leaf? && b.v.Num?
    requires Combine(op, a, b, j) == Some(c)
    ensures c == Leaf(Num(if op == "*" then a.v.n * b.v.n
                          else if op == "-" && j == 0 then a.v.n - b.v.n
                          else a.v.n + b.v.n))
  {
  }

  /** An operand list seen as prefix, pair and suffix. */
  lemma SplitAt(xs: seq<Expr>, j: nat)
    requires j + 1 < |xs|
    ensures xs == xs[..j] + [xs[j], xs[j + 1]] + xs[j + 2..]
    ensures |xs[..j]| == j
  {
  }

  lemma NumericStep(op: string, xs: seq<Expr>, j: nat, c: Expr)
    requires op in {"+", "-", "*"} && AllNum(xs)
    requires j + 1 < |xs|
    requires Combine(op, xs[j], xs[j + 1], j) == Some(c)
    ensures AllNum(xs[..j] + [c] + xs[j + 2..])
    ensures NumMeaning(op, Nums(xs[..j] + [c] + xs[j + 2..])) == NumMeaning(op, Nums(xs))
  {
    var p, a, b, s := xs[..j], xs[j], xs[j + 1], xs[j + 2..];
    NumCombine(op, a, b, j, c);
    ReplaceNum(xs, j, c);
    SplitAt(xs, j);
    NumsSplit(p, a, b, s, c);
    NumsLength(p);
    var np, ns := Nums(p), Nums(s);
    assert np == [] <==> j == 0;
    MeaningStep(op, np, a.v.n, b.v.n, c.v.n, ns);
  }

  lemma StringsStep(op: string, xs: seq<Expr>, j: nat, c: Expr)
    requires op == "||" && AllStr(xs)
    requires j + 1 < |xs|
    requires Combine(op, xs[j], xs[j + 1], j) == Some(c)
    ensures AllStr(xs[..j] + [c] + xs[j + 2..])
    ensures Joined(xs[..j] + [c] + xs[j + 2..]) == Joined(xs)
  {
    var p, a, b, s := xs[..j], xs[j], xs[j + 1], xs[j + 2..];
    assert c == Leaf(Str(a.v.s + b.v.s));
    ReplaceStr(xs, j, c);
    SplitAt(xs, j);
    JoinedSplit(p, a, b, s, c);
  }

  /** The numbers after the first operand of a `/` chain. */
  lemma DivisorsAreNums(xs: seq<Expr>)
    requires DivChain(xs)
    ensures AllNum(xs[1..])
  {
    forall i | 0 <= i < |xs[1..]| ensures xs[1..][i].Leaf? && xs[1..][i].v.Num? {
      assert xs[1..][i] == xs[i + 1];
    }
  }

  lemma MulNonzero(x: int, y: int)
    requires x != 0 && y != 0
    ensures x * y != 0
  {
    AbsMul(x, y);
    MulAway(Abs(x), Abs(y));
  }

  /** The first pair of a `/` chain divides: the quotient takes the place of
      the dividend, and the first divisor leaves the product. */
  lemma DivisionHead(xs: seq<Expr>, c: Expr)
    requires DivChain(xs) && 1 < |xs|
    requires Combine("/", xs[0], xs[1], 0) == Some(c)
    ensures DivChain(xs[..0] + [c] + xs[2..])
    ensures DivMeaning(c, Nums(xs[2..])) == DivMeaning(xs[0], Nums(xs[1..]))
  {
    var a, b, s := xs[0], xs[1], xs[2..];
    assert c == Leaf(Divide(a.v, b.v));
    var ys := xs[..0] + [c] + s;
    forall i | 1 <= i < |ys| ensures ys[i].Leaf? && ys[i].v.Num? {
      assert ys[i] == xs[i + 1];
    }
    assert xs[1..][0] == b && xs[1..][1..] == s;
    var d := b.v.n;
    var p := Prod(Nums(s));
    assert Prod(Nums(xs[1..])) == d * p;
    if a.v.Num? && d != 0 && p != 0 {
      TruncDivTwice(a.v.n, d, p);
      MulNonzero(d, p);
    }
  }

  /** A later pair of a `/` chain multiplies two divisors, which keeps their
      product. */
  lemma DivisionTail(xs: seq<Expr>, j: nat, c: Expr)
    requires DivChain(xs) && 0 < j && j + 1 < |xs|
    requires Combine("/", xs[j], xs[j + 1], j) == Some(c)
    ensures DivChain(xs[..j] + [c] + xs[j + 2..])
    ensures (xs[..j] + [c] + xs[j + 2..])[0] == xs[0]
    ensures Prod(Nums((xs[..j] + [c] + xs[j + 2..])[1..])) == Prod(Nums(xs[1..]))
  {
    var t := xs[1..];
    var k := j - 1;
    DivisorsAreNums(xs);
    var a, b := t[k], t[k + 1];
    assert a == xs[j] && b == xs[j + 1];
    assert c == Leaf(Num(a.v.n * b.v.n));
    var ys := xs[..j] + [c] + xs[j + 2..];
    assert ys[1..] == t[..k] + [c] + t[k + 2..];
    ReplaceNum(t, k, c);
    forall i | 1 <= i < |ys| ensures ys[i].Leaf? && ys[i].v.Num? {
      assert ys[i] == ys[1..][i - 1];
    }
    SplitAt(t, k);
    NumsSplit(t[..k], a, b, t[k + 2..], c);
    MeaningStep("*", Nums(t[..k]), a.v.n, b.v.n, c.v.n, Nums(t[k + 2..]));
  }

  lemma NullChainStep(op: string, xs: seq<Expr>, j: nat, c: Expr)
    requires op in {"*", "/", "+", "-", "||"} && AllLeaf(xs) && HasNull(xs)
    requires j + 1 < |xs|
    requires Combine(op, xs[j], xs[j + 1], j) == Some(c)
    ensures AllLeaf(xs[..j] + [c] + xs[j + 2..]) && HasNull(xs[..j] + [c] + xs[j + 2..])
  {
    var ys := xs[..j] + [c] + xs[j + 2..];
    forall i | 0 <= i < |ys| ensures ys[i].Leaf? {
      if i < j { assert ys[i] == xs[i]; }
      else if i > j { assert ys[i] == xs[i + 1]; }
    }
    var i :| 0 <= i < |xs| && xs[i] == Leaf(Null);
    if i < j {
      assert ys[i] == xs[i];
    } else if i > j + 1 {
      assert ys[i - 1] == xs[i];
    } else {
      assert ys[j] == c == Leaf(Null);
    }
  }

  lemma Step(kind: Kind, op: string, xs: seq<Expr>, j: nat, c: Expr)
    requires Tracked(kind, op, xs)
    requires j + 1 < |xs|
    requires Combine(op, xs[j], xs[j + 1], j) == Some(c)
    ensures Tracked(kind, op, xs[..j] + [c] + xs[j + 2..])
    ensures Norm(kind, op, xs[..j] + [c] + xs[j + 2..]) == Norm(kind, op, xs)
  {
    match kind
    case Logic => LogicStep(op, xs, j, c);
    case Numeric => NumericStep(op, xs, j, c);
    case Division => if j == 0 { DivisionHead(xs, c); } else { DivisionTail(xs, j, c); }
    case Strings => StringsStep(op, xs, j, c);
    case NullChain => NullChainStep(op, xs, j, c);
  }

  lemma {:induction false} PassPreserves(kind: Kind, op: string, xs: seq<Expr>, j: nat)
    requires Tracked(kind, op, xs)
    ensures Tracked(kind, op, PassFrom(op, xs, j).0)
    ensures Norm(kind, op, PassFrom(op, xs, j).0) == Norm(kind, op, xs)
    decreases |xs| - j
  {
    if j + 1 < |xs| {
      match Combine(op, xs[j], xs[j + 1], j)
      case None => PassPreserves(kind, op, xs, j + 1);
      case Some(c) =>
        Step(kind, op, xs, j, c);
        PassPreserves(kind, op, xs[..j] + [c] + xs[j + 2..], j + 1);
    }
  }

  lemma {:induction false} FixPreserves(kind: Kind, op: string, xs: seq<Expr>)
    requires Tracked(kind, op, xs)
    ensures Tracked(kind, op, Fix(op, xs))
    ensures Norm(kind, op, Fix(op, xs)) == Norm(kind, op, xs)
    decreases |xs|
  {
    var p := PassFrom(op, xs, 0);
    if p.1 {
      PassPreserves(kind, op, xs, 0);
      FixPreserves(kind, op, p.0);
    }
  }

  lemma AllTreesNorm(op: string, ys: seq<Expr>)
    requires forall i :: 0 <= i < |ys| ==> ys[i].Node?
    ensures FirstAbsorbing(op, ys).None? && Trees(ys) == ys
  {
    if ys != [] {
      AllTreesNorm(op, ys[1..]);
      assert ys == [ys[0]] + ys[1..];
    }
  }

  /** At a fixpoint the normal form is the operand list itself. */
  lemma FixpointIsNorm(kind: Kind, op: string, ys: seq<Expr>)
    requires Tracked(kind, op, ys)
    requires !PassFrom(op, ys, 0).1
    ensures Norm(kind, op, ys) == ys
  {
    NoCombineAtFixpoint(op, ys, 0);
    if |ys| >= 2 {
      match kind
      case Logic =>
        forall i | 0 <= i < |ys| ensures ys[i].Node? {
          if i + 1 < |ys| {
            assert Combine(op, ys[i], ys[i + 1], i).None?;
          } else {
            var k := i - 1;
            assert Combine(op, ys[k], ys[k + 1], k).None?;
          }
        }
        AllTreesNorm(op, ys);
        assert Trees(ys) == ys && ys != [];
      case Numeric => assert false;
      case Division => assert false;
      case Strings => assert false;
      case NullChain => assert false;
    } else if |ys| == 1 {
      match kind
      case Logic =>
        var y := ys[0];
        assert ys == [y];
        PairFacts(op, y, y);
        if y.Leaf? {
          assert Leaf(y.v) == y;
        }
      case Numeric =>
        var y := ys[0];
        assert ys == [y];
        NumsPair(y, y);
        var ns := [y.v.n];
        assert Nums(ys) == ns && ns[1..] == [];
        assert Sum(ns) == y.v.n && Prod(ns) == y.v.n;
        assert Leaf(Num(y.v.n)) == y;
      case Division =>
        var y := ys[0];
        assert ys[1..] == [];
        assert Prod(Nums(ys[1..])) == 1;
        if y.v.Num? {
          assert TruncDiv(y.v.n, 1) == y.v.n;
          assert Leaf(Num(y.v.n)) == y;
        } else {
          assert Leaf(NaN) == y;
        }
      case Strings =>
        var y := ys[0];
        assert ys == [y];
        JoinedPair(y, y);
        assert Leaf(Str(y.v.s)) == y;
      case NullChain =>
        assert ys[0] == Leaf(Null);
    }
  }

  /** The fixpoint `reduce` reaches is the normal form of its input. */
  lemma FixIsNorm(kind: Kind, op: string, xs: seq<Expr>)
    requires Tracked(kind, op, xs)
    ensures Fix(op, xs) == Norm(kind, op, xs)
  {
    FixPreserves(kind, op, xs);
    FixIsFixpoint(op, xs);
    FixpointIsNorm(kind, op, Fix(op, xs));
  }

  // ---------------------------------------------------------------------
  // What the folding of each operator yields

  /** `AND` and `OR` folding. If some scalar operand decides the node (falsy
      for `AND`, truthy for `OR`), the node evaluates to the leftmost such
      scalar. Otherwise the other scalars are dropped and the unresolved
      operands are kept in order, side by side, unfolded; a node of
      non-deciding scalars only evaluates to its last one. */
  lemma LogicFold(op: string, xs: seq<Expr>)
    requires op == "AND" || op == "OR"
    ensures forall i :: (0 <= i < |xs| && xs[i].Leaf? && Absorbs(op, xs[i].v) &&
                         (forall k :: 0 <= k < i ==> !(xs[k].Leaf? && Absorbs(op, xs[k].v)))) ==>
              ReduceSpec(op, xs) == xs[i]
    ensures (forall i :: 0 <= i < |xs| ==> !(xs[i].Leaf? && Absorbs(op, xs[i].v))) ==>
              ReduceSpec(op, xs) == if Trees(xs) != [] then Collapse(op, Trees(xs))
                                    else if xs == [] then Node(op, [])
                                    else xs[|xs| - 1]
    ensures forall t :: t in Trees(xs) <==> t in xs && t.Node?
  {
    FixIsNorm(Logic, op, xs);
    forall i | 0 <= i < |xs| && xs[i].Leaf? && Absorbs(op, xs[i].v) &&
               (forall k :: 0 <= k < i ==> !(xs[k].Leaf? && Absorbs(op, xs[k].v)))
      ensures ReduceSpec(op, xs) == xs[i]
    {
      LeftmostAbsorbing(op, xs, i);
    }
    if forall i :: 0 <= i < |xs| ==> !(xs[i].Leaf? && Absorbs(op, xs[i].v)) {
      NoAbsorbing(op, xs);
    }
    TreesMembers(xs);
  }

  lemma {:induction false} LeftmostAbsorbing(op: string, xs: seq<Expr>, i: nat)
    requires i < |xs| && xs[i].Leaf? && Absorbs(op, xs[i].v)
    requires forall k :: 0 <= k < i ==> !(xs[k].Leaf? && Absorbs(op, xs[k].v))
    ensures FirstAbsorbing(op, xs) == Some(xs[i].v)
    decreases i
  {
    if i > 0 {
      assert !(xs[0].Leaf? && Absorbs(op, xs[0].v));
      forall k | 0 <= k < i - 1 ensures !(xs[1..][k].Leaf? && Absorbs(op, xs[1..][k].v)) {
        assert xs[1..][k] == xs[k + 1];
      }
      LeftmostAbsorbing(op, xs[1..], i - 1);
    }
  }

  lemma {:induction false} NoAbsorbing(op: string, xs: seq<Expr>)
    requires forall k :: 0 <= k < |xs| ==> !(xs[k].Leaf? && Absorbs(op, xs[k].v))
    ensures FirstAbsorbing(op, xs).None?
  {
    if xs != [] {
      assert !(xs[0].Leaf? && Absorbs(op, xs[0].v));
      forall k | 0 <= k < |xs| - 1 ensures !(xs[1..][k].Leaf? && Absorbs(op, xs[1..][k].v)) {
        assert xs[1..][k] == xs[k + 1];
      }
      NoAbsorbing(op, xs[1..]);
    }
  }

  lemma TreesMembers(xs: seq<Expr>)
    ensures forall t :: t in Trees(xs) <==> t in xs && t.Node?
  {
    if xs != [] {
      TreesMembers(xs[1..]);
      assert xs == [xs[0]] + xs[1..];
    }
  }

  /** Left-to-right binary application of one arithmetic operator. */
  function FoldLeft(op: string, ns: seq<int>): int
    requires |ns| >= 1
    decreases |ns|
  {
    if |ns| == 1 then ns[0]
    else
      var acc := FoldLeft(op, ns[..|ns| - 1]);
      var x := ns[|ns| - 1];
      if op == "-" then acc - x else if op == "*" then acc * x else acc + x
  }

  lemma {:induction false} FoldLeftIsMeaning(op: string, ns: seq<int>)
    requires op in {"+", "-", "*"} && |ns| >= 1
    ensures FoldLeft(op, ns) == NumMeaning(op, ns)
    decreases |ns|
  {
    if |ns| > 1 {
      var init, x := ns[..|ns| - 1], ns[|ns| - 1];
      FoldLeftIsMeaning(op, init);
      assert ns == init + [x];
      SumAppend(init, [x]);
      ProdAppend(init, [x]);
      assert ns[1..] == init[1..] + [x];
      SumAppend(init[1..], [x]);
    } else {
      assert ns == [ns[0]] && ns[1..] == [];
      assert Sum(ns) == ns[0] + Sum([]);
      assert Prod(ns) == ns[0] * Prod([]);
    }
  }

  /** On a chain of non-null integers, `+`, `-` and `*` compute ordinary
      left-to-right binary application, `((o1 - o2) - o3) …` for `-`. */
  lemma NumericChain(op: string, xs: seq<Expr>)
    requires op in {"+", "-", "*"} && |xs| >= 1 && AllNum(xs)
    ensures |Nums(xs)| == |xs|
    ensures ReduceSpec(op, xs) == Leaf(Num(FoldLeft(op, Nums(xs))))
  {
    NumsLength(xs);
    FixIsNorm(Numeric, op, xs);
    FoldLeftIsMeaning(op, Nums(xs));
  }

  /** JavaScript's left-to-right `/`, `((o1 / o2) / o3) …`, with `Divide`. */
  function DivFold(ns: seq<int>): Value
    requires |ns| >= 1
    decreases |ns|
  {
    if |ns| == 1 then Num(ns[0])
    else Divide(DivFold(ns[..|ns| - 1]), Num(ns[|ns| - 1]))
  }

  lemma {:induction false} DivFoldIsMeaning(ns: seq<int>)
    requires |ns| >= 1
    ensures DivFold(ns) == DivMeaning(Leaf(Num(ns[0])), ns[1..])
    decreases |ns|
  {
    if |ns| > 1 {
      var init, x := ns[..|ns| - 1], ns[|ns| - 1];
      DivFoldIsMeaning(init);
      assert init[0] == ns[0];
      assert ns[1..] == init[1..] + [x];
      ProdAppend(init[1..], [x]);
      assert [x][1..] == [];
      var p := Prod(init[1..]);
      assert Prod(ns[1..]) == p * x;
      if p != 0 && x != 0 {
        TruncDivTwice(ns[0], p, x);
        MulNonzero(p, x);
      }
    } else {
      assert ns[1..] == [];
      assert TruncDiv(ns[0], 1) == ns[0];
    }
  }

  /** On a chain of non-null integers, `/` is left-to-right binary division
      `((o1 / o2) / o3) …`, although only the first pair divides and every
      later pair multiplies two divisors: a zero divisor anywhere gives
      `NaN`. */
  lemma DivisionChain(xs: seq<Expr>)
    requires |xs| >= 1 && AllNum(xs)
    ensures |Nums(xs)| == |xs|
    ensures ReduceSpec("/", xs) == Leaf(DivFold(Nums(xs)))
  {
    NumsLength(xs);
    assert DivChain(xs);
    FixIsNorm(Division, "/", xs);
    var ns := Nums(xs);
    assert ns[0] == xs[0].v.n && ns[1..] == Nums(xs[1..]);
    DivFoldIsMeaning(ns);
    assert Leaf(Num(ns[0])) == xs[0];
  }

  /** `["/", 100, 3, 3, 3]` is 3: each division truncates. */
  lemma DivisionRepeated()
    ensures ReduceSpec("/", [Leaf(Num(100)), Leaf(Num(3)), Leaf(Num(3)), Leaf(Num(3))]) == Leaf(Num(3))
  {
    var h := [Leaf(Num(100)), Leaf(Num(3)), Leaf(Num(3)), Leaf(Num(3))];
    DivisionChain(h);
    assert Nums(h) == [100, 3, 3, 3];
    assert [100, 3, 3, 3][..3] == [100, 3, 3] && [100, 3, 3][..2] == [100, 3] && [100, 3][..1] == [100];
    assert DivFold([100, 3]) == Num(33);
    assert DivFold([100, 3, 3]) == Num(11);
  }

  /** `["/", -7, 2, 3]` is -1: truncation toward zero. */
  lemma DivisionTruncates()
    ensures ReduceSpec("/", [Leaf(Num(-7)), Leaf(Num(2)), Leaf(Num(3))]) == Leaf(Num(-1))
  {
    var m := [Leaf(Num(-7)), Leaf(Num(2)), Leaf(Num(3))];
    DivisionChain(m);
    assert Nums(m) == [-7, 2, 3];
    assert [-7, 2, 3][..2] == [-7, 2] && [-7, 2][..1] == [-7];
    assert DivFold([-7, 2]) == Num(-3);
  }

  /** `["/", 7, 0, 2]` is `NaN`: the zero divisor is not undone by the
      later one. */
  lemma DivisionByZero()
    ensures ReduceSpec("/", [Leaf(Num(7)), Leaf(Num(0)), Leaf(Num(2))]) == Leaf(NaN)
  {
    var z := [Leaf(Num(7)), Leaf(Num(0)), Leaf(Num(2))];
    DivisionChain(z);
    assert Nums(z) == [7, 0, 2];
    assert [7, 0, 2][..2] == [7, 0] && [7, 0][..1] == [7];
  }

  lemma NumsLength(xs: seq<Expr>)
    ensures |Nums(xs)| == |xs|
    ensures forall i :: 0 <= i < |xs| ==> Nums(xs)[i] == NumOf(xs[i])
  {
    if xs != [] {
      NumsLength(xs[1..]);
    }
  }

  /** On a chain of strings, `||` is their concatenation in order. */
  lemma StringChain(xs: seq<Expr>)
    requires |xs| >= 1 && AllStr(xs)
    ensures ReduceSpec("||", xs) == Leaf(Str(Joined(xs)))
  {
    FixIsNorm(Strings, "||", xs);
  }

  /** `null` propagates strictly through an arithmetic chain of scalars: one
      `null` operand anywhere makes the whole node `null`. */
  lemma NullChainIsNull(op: string, xs: seq<Expr>)
    requires op in {"*", "/", "+", "-", "||"} && AllLeaf(xs) && HasNull(xs)
    ensures ReduceSpec(op, xs) == Leaf(Null)
  {
    FixIsNorm(NullChain, op, xs);
  }

  /** `["-", 10, 1, 2]` is 7 and `["*", 2, 3, 4]` is 24. */
  lemma ChainExamples()
    ensures ReduceSpec("-", [Leaf(Num(10)), Leaf(Num(1)), Leaf(Num(2))]) == Leaf(Num(7))
    ensures ReduceSpec("*", [Leaf(Num(2)), Leaf(Num(3)), Leaf(Num(4))]) == Leaf(Num(24))
  {
    var m := [Leaf(Num(10)), Leaf(Num(1)), Leaf(Num(2))];
    NumericChain("-", m);
    assert Nums(m) == [10, 1, 2];
    assert FoldLeft("-", [10, 1, 2]) == FoldLeft("-", [10, 1]) - 2;
    assert [10, 1][..1] == [10];
    var t := [Leaf(Num(2)), Leaf(Num(3)), Leaf(Num(4))];
    NumericChain("*", t);
    assert Nums(t) == [2, 3, 4];
    assert FoldLeft("*", [2, 3, 4]) == FoldLeft("*", [2, 3]) * 4;
    assert [2, 3][..1] == [2];
  }
}
