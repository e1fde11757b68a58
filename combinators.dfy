/** The filter builders `and`, `or` and `not`. A scalar operand decides or
    drops out as in JavaScript `&&` and `||`; two trees are joined under one
    node, an operand that already has the same operator contributing its own
    operands (one level deep). */
module Combinators {
  import opened Values
  import opened Sat

  /** The operands a tree contributes to a node with operator `op`. */
  function Operands(op: string, e: Expr): (r: seq<Expr>)
    ensures e.Node? && e.op == op ==> r == e.args
    ensures !(e.Node? && e.op == op) ==> r == [e]
  {
    if e.Node? && e.op == op then e.args else [e]
  }

  function And(x: Expr, y: Expr): (r: Expr)
    ensures x.Leaf? ==> r == (if Truthy(x.v) then y else x)
    ensures x.Node? && y.Leaf? ==> r == (if Truthy(y.v) then x else y)
    ensures x.Node? && y.Node? ==> r.Node? && r.op == "AND"
  {
    if x.Leaf? then (if Truthy(x.v) then y else x)
    else if y.Leaf? then (if Truthy(y.v) then x else y)
    else Node("AND", Operands("AND", x) + Operands("AND", y))
  }

  function Or(x: Expr, y: Expr): (r: Expr)
    ensures x.Leaf? ==> r == (if Truthy(x.v) then x else y)
    ensures x.Node? && y.Leaf? ==> r == (if Truthy(y.v) then y else x)
    ensures x.Node? && y.Node? ==> r.Node? && r.op == "OR"
  {
    if x.Leaf? then (if Truthy(x.v) then x else y)
    else if y.Leaf? then (if Truthy(y.v) then y else x)
    else Node("OR", Operands("OR", x) + Operands("OR", y))
  }

  /** A negation is unwrapped to its operand (`undefined` when it has
      none); anything else is wrapped. */
  function Not(x: Expr): (r: Expr)
    ensures x.Node? && x.op == "NOT" ==> r == Arg(x.args, 0)
    ensures !(x.Node? && x.op == "NOT") ==> r == Node("NOT", [x])
  {
    if x.Node? && x.op == "NOT" then Arg(x.args, 0) else Node("NOT", [x])
  }

  // ---------------------------------------------------------------------
  // Meaning

  /** The operands that `Operands` splices in hold together exactly when
      the tree they came from holds, for `AND`. */
  lemma AndOperands(x: Expr, t: set<Expr>)
    ensures (forall i :: 0 <= i < |Operands("AND", x)| ==> Holds(Operands("AND", x)[i], t)) <==> Holds(x, t)
  {
    if x.Node? && x.op == "AND" {
      assert Operands("AND", x) == x.args;
      assert Holds(x, t) <==> forall i :: 0 <= i < |x.args| ==> Holds(x.args[i], t);
    } else {
      assert Operands("AND", x) == [x] && [x][0] == x;
      assert Holds(Operands("AND", x)[0], t) == Holds(x, t);
    }
  }

  lemma OrOperands(x: Expr, t: set<Expr>)
    ensures (exists i :: 0 <= i < |Operands("OR", x)| && Holds(Operands("OR", x)[i], t)) <==> Holds(x, t)
  {
    if x.Node? && x.op == "OR" {
      assert Operands("OR", x) == x.args;
      assert Holds(x, t) <==> exists i :: 0 <= i < |x.args| && Holds(x.args[i], t);
    } else {
      assert Operands("OR", x) == [x] && [x][0] == x;
      assert Holds(Operands("OR", x)[0], t) == Holds(x, t);
    }
  }

  /** `and` is conjunction under every assignment of the atoms. */
  lemma AndMeaning(x: Expr, y: Expr, t: set<Expr>)
    ensures Holds(And(x, y), t) <==> Holds(x, t) && Holds(y, t)
  {
    if x.Node? && y.Node? {
      var p, q := Operands("AND", x), Operands("AND", y);
      AndOperands(x, t);
      AndOperands(y, t);
      assert forall i :: 0 <= i < |p| ==> (p + q)[i] == p[i];
      assert forall i :: 0 <= i < |q| ==> (p + q)[|p| + i] == q[i];
    }
  }

  /** `or` is disjunction under every assignment of the atoms. */
  lemma OrMeaning(x: Expr, y: Expr, t: set<Expr>)
    ensures Holds(Or(x, y), t) <==> Holds(x, t) || Holds(y, t)
  {
    if x.Node? && y.Node? {
      var p, q := Operands("OR", x), Operands("OR", y);
      OrOperands(x, t);
      OrOperands(y, t);
      assert forall i :: 0 <= i < |p| ==> (p + q)[i] == p[i];
      assert forall i :: 0 <= i < |q| ==> (p + q)[|p| + i] == q[i];
      if Holds(Or(x, y), t) {
        var i :| 0 <= i < |p + q| && Holds((p + q)[i], t);
        if i >= |p| {
          assert (p + q)[i] == q[i - |p|];
        }
      }
    }
  }

  /** `not` is negation under every assignment of the atoms. */
  lemma NotMeaning(x: Expr, t: set<Expr>)
    ensures Holds(Not(x), t) <==> !Holds(x, t)
  {
  }

  /** Negating twice gives the tree back, unless the tree is itself a
      negation. */
  lemma NotNot(x: Expr)
    requires !(x.Node? && x.op == "NOT")
    ensures Not(Not(x)) == x
  {
  }

  /** Unwrapping is not undone: `not(not(["NOT", ["NOT", p]]))` is `p`. */
  lemma NotNotOfNegation(p: Expr)
    ensures Not(Not(Node("NOT", [Node("NOT", [p])]))) == p
    ensures Not(Not(Node("NOT", [Node("NOT", [p])]))) != Node("NOT", [Node("NOT", [p])])
  {
  }

  /** A tree joined with a tree that has the same operator is flattened one
      level: `and(["AND", a, b], c)` is `["AND", a, b, c]`. */
  lemma AndFlattens(a: Expr, b: Expr, c: Expr)
    requires a.Node? && b.Node? && c.Node? && c.op != "AND"
    ensures And(Node("AND", [a, b]), c) == Node("AND", [a, b, c])
  {
  }

  /** The same one-level flattening for `or`. */
  lemma OrFlattens(a: Expr, b: Expr, c: Expr)
    requires a.Node? && b.Node? && c.Node? && c.op != "OR"
    ensures Or(Node("OR", [a, b]), c) == Node("OR", [a, b, c])
  {
  }
}
