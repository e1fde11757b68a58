/** The Boolean reading of a partially evaluated filter, and a decision
    procedure for its satisfiability. `AND`, `OR` and `NOT` are connectives,
    a scalar is its truthiness, and every other tree is an atom whose truth is
    free: an assignment is the set of atoms taken to be true. */
module Sat {
  import opened Values

  predicate IsConnective(op: string)
  {
    op == "AND" || op == "OR" || op == "NOT"
  }

  /** The truth of `e` when exactly the atoms in `t` are true. `NOT` without
      an operand negates `undefined`. */
  predicate Holds(e: Expr, t: set<Expr>)
    decreases e
  {
    match e
    case Leaf(v) => Truthy(v)
    case Node(op, args) =>
      if op == "AND" then forall i :: 0 <= i < |args| ==> Holds(args[i], t)
      else if op == "OR" then exists i :: 0 <= i < |args| && Holds(args[i], t)
      else if op == "NOT" then (if args == [] then true else !Holds(args[0], t))
      else e in t
  }

  /** The atoms of `e`, left to right (repeats allowed). */
  function Vars(e: Expr): (r: seq<Expr>)
    ensures e.Node? && !IsConnective(e.op) ==> e in r
    decreases e, 1
  {
    match e
    case Leaf(_) => []
    case Node(op, args) => if IsConnective(op) then VarsAll(args) else [e]
  }

  function VarsAll(es: seq<Expr>): (r: seq<Expr>)
    ensures forall i, a :: 0 <= i < |es| && a in Vars(es[i]) ==> a in r
    decreases es, 0
  {
    if es == [] then [] else Vars(es[0]) + VarsAll(es[1..])
  }

  /** Two assignments that agree on the atoms of `e`. */
  predicate Agree(e: Expr, t: set<Expr>, u: set<Expr>)
  {
    forall a :: a in Vars(e) ==> (a in t <==> a in u)
  }

  /** Only the atoms of `e` matter to its truth. */
  lemma {:induction false} OnlyVarsMatter(e: Expr, t: set<Expr>, u: set<Expr>)
    requires Agree(e, t, u)
    ensures Holds(e, t) == Holds(e, u)
    decreases e
  {
    if e.Node? && IsConnective(e.op) {
      forall i | 0 <= i < |e.args| ensures Holds(e.args[i], t) == Holds(e.args[i], u) {
        OnlyVarsMatter(e.args[i], t, u);
      }
    }
  }

  /** Every assignment of the atoms in `vs`, on top of `chosen`. */
  predicate DecideFrom(e: Expr, vs: seq<Expr>, chosen: set<Expr>)
    decreases |vs|
  {
    if vs == [] then Holds(e, chosen)
    else DecideFrom(e, vs[1..], chosen + {vs[0]}) || DecideFrom(e, vs[1..], chosen - {vs[0]})
  }

  /** Whether some assignment of its atoms makes `e` true. */
  predicate Decide(e: Expr)
  {
    DecideFrom(e, Vars(e), {})
  }

  lemma {:induction false} DecideSound(e: Expr, vs: seq<Expr>, chosen: set<Expr>)
    requires DecideFrom(e, vs, chosen)
    ensures exists t :: Holds(e, t)
    decreases |vs|
  {
    if vs != [] {
      if DecideFrom(e, vs[1..], chosen + {vs[0]}) {
        DecideSound(e, vs[1..], chosen + {vs[0]});
      } else {
        DecideSound(e, vs[1..], chosen - {vs[0]});
      }
    }
  }

  lemma {:induction false} DecideComplete(e: Expr, vs: seq<Expr>, chosen: set<Expr>, t: set<Expr>)
    requires Holds(e, t)
    requires forall a :: a in Vars(e) && a !in vs ==> (a in chosen <==> a in t)
    ensures DecideFrom(e, vs, chosen)
    decreases |vs|
  {
    if vs == [] {
      OnlyVarsMatter(e, chosen, t);
    } else if vs[0] in t {
      DecideComplete(e, vs[1..], chosen + {vs[0]}, t);
    } else {
      DecideComplete(e, vs[1..], chosen - {vs[0]}, t);
    }
  }

  /** The search answers exactly whether `e` is satisfiable. */
  lemma DecideIsSat(e: Expr)
    ensures Decide(e) <==> exists t :: Holds(e, t)
  {
    if Decide(e) {
      DecideSound(e, Vars(e), {});
    }
    if exists t :: Holds(e, t) {
      var t :| Holds(e, t);
      DecideComplete(e, Vars(e), {}, t);
    }
  }
}
