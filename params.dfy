/** `extractParams`: the distinct field references of a filter, in the
    order a post-order walk first meets them. A `PARAM` node contributes its
    first operand (`undefined`, read as `null`, when it has none). */
module Params {
  import opened Values

  /** Every `PARAM` operand in post-order: a node's operands are walked
      before the node itself. */
  function ParamNames(e: Expr): seq<Expr>
    decreases e, 1
  {
    match e
    case Leaf(_) => []
    case Node(op, args) => ParamNamesAll(args) + (if op == "PARAM" then [Arg(args, 0)] else [])
  }

  function ParamNamesAll(es: seq<Expr>): seq<Expr>
    decreases es, 0
  {
    if es == [] then [] else ParamNames(es[0]) + ParamNamesAll(es[1..])
  }

  /** `Set.prototype.add` on an insertion-ordered set. */
  function Insert(items: seq<Expr>, x: Expr): (r: seq<Expr>)
    ensures x in r
    ensures forall y :: y in r <==> y in items || y == x
    ensures |items| <= |r| <= |items| + 1 && r[..|items|] == items
  {
    if x in items then items else items + [x]
  }

  /** Adding every element of `xs` in turn. */
  function InsertAll(items: seq<Expr>, xs: seq<Expr>): seq<Expr>
    decreases |xs|
  {
    if xs == [] then items else InsertAll(Insert(items, xs[0]), xs[1..])
  }

  predicate Distinct(s: seq<Expr>)
  {
    forall i, j :: 0 <= i < j < |s| ==> s[i] != s[j]
  }

  /** Inserting adds exactly the new elements. */
  lemma {:induction false} InsertAllMembers(items: seq<Expr>, xs: seq<Expr>)
    ensures forall y :: y in InsertAll(items, xs) <==> y in items || y in xs
    decreases |xs|
  {
    if xs != [] {
      InsertAllMembers(Insert(items, xs[0]), xs[1..]);
      assert xs == [xs[0]] + xs[1..];
    }
  }

  /** Inserting keeps what was there, in place, and adds at most one
      element per insertion. */
  lemma {:induction false} InsertAllKeeps(items: seq<Expr>, xs: seq<Expr>)
    ensures |items| <= |InsertAll(items, xs)| <= |items| + |xs|
    ensures InsertAll(items, xs)[..|items|] == items
    decreases |xs|
  {
    if xs != [] {
      var next := Insert(items, xs[0]);
      InsertAllKeeps(next, xs[1..]);
      var r := InsertAll(next, xs[1..]);
      assert r[..|next|][..|items|] == r[..|items|];
    }
  }

  /** Inserting never repeats an element. */
  lemma {:induction false} InsertAllDistinct(items: seq<Expr>, xs: seq<Expr>)
    requires Distinct(items)
    ensures Distinct(InsertAll(items, xs))
    decreases |xs|
  {
    if xs != [] {
      var next := Insert(items, xs[0]);
      assert Distinct(next);
      InsertAllDistinct(next, xs[1..]);
    }
  }

  lemma {:induction false} InsertAllAppend(items: seq<Expr>, xs: seq<Expr>, ys: seq<Expr>)
    ensures InsertAll(items, xs + ys) == InsertAll(InsertAll(items, xs), ys)
    decreases |xs|
  {
    if xs == [] {
      assert xs + ys == ys;
    } else {
      assert (xs + ys)[0] == xs[0] && (xs + ys)[1..] == xs[1..] + ys;
      InsertAllAppend(Insert(items, xs[0]), xs[1..], ys);
    }
  }

  /** The set `extractParams` fills, with its elements in insertion order. */
  class ParamSet {
    var items: seq<Expr>

    constructor ()
      ensures items == []
    {
      items := [];
    }

    method Add(x: Expr)
      modifies this
      ensures items == Insert(old(items), x)
    {
      if x !in items {
        items := items + [x];
      }
    }

    /** The traversal with the collecting callback: operands first, left to
        right, then the node itself. */
    method Collect(e: Expr)
      modifies this
      ensures items == InsertAll(old(items), ParamNames(e))
      decreases e
    {
      if e.Leaf? {
        return;
      }
      ghost var start := items;
      var i := 0;
      assert e.args[..0] == [];
      while i < |e.args|
        invariant 0 <= i <= |e.args|
        invariant items == InsertAll(start, ParamNamesAll(e.args[..i]))
      {
        ghost var before := items;
        Collect(e.args[i]);
        PrefixStep(e.args, i);
        InsertAllAppend(start, ParamNamesAll(e.args[..i]), ParamNames(e.args[i]));
        i := i + 1;
      }
      assert e.args[..i] == e.args;
      ghost var mid := items;
      if e.op == "PARAM" {
        Add(Arg(e.args, 0));
        assert items == InsertAll(mid, [Arg(e.args, 0)]);
      }
      InsertAllAppend(start, ParamNamesAll(e.args), if e.op == "PARAM" then [Arg(e.args, 0)] else []);
    }
  }

  lemma {:induction false} PrefixStep(es: seq<Expr>, i: nat)
    requires i < |es|
    ensures ParamNamesAll(es[..i + 1]) == ParamNamesAll(es[..i]) + ParamNames(es[i])
    decreases i
  {
    if i == 0 {
      assert es[..1] == [es[0]] && es[..1][1..] == [];
    } else {
      assert es[..i + 1][1..] == es[1..][..i];
      assert es[..i][1..] == es[1..][..i - 1];
      PrefixStep(es[1..], i - 1);
      assert es[1..][i - 1] == es[i];
    }
  }

  /** `extractParams(exp)`: the distinct `PARAM` operands, in the order of
      their first appearance in the post-order walk. */
  method ExtractParams(e: Expr) returns (params: seq<Expr>)
    ensures params == InsertAll([], ParamNames(e))
    ensures Distinct(params)
    ensures forall x :: x in params <==> x in ParamNames(e)
  {
    var found := new ParamSet();
    found.Collect(e);
    params := found.items;
    InsertAllMembers([], ParamNames(e));
    InsertAllDistinct([], ParamNames(e));
  }

  /** `a = 1 AND a > 0` refers to the field `a` twice and lists it once. */
  lemma ParamsExample()
    ensures InsertAll([], ParamNames(Node("AND", [
              Node("=", [Node("PARAM", [Leaf(Str("a"))]), Leaf(Num(1))]),
              Node(">", [Node("PARAM", [Leaf(Str("a"))]), Leaf(Num(0))])]))) == [Leaf(Str("a"))]
  {
    var pa := Node("PARAM", [Leaf(Str("a"))]);
    var x := Node("=", [pa, Leaf(Num(1))]);
    var y := Node(">", [pa, Leaf(Num(0))]);
    assert ParamNamesAll([Leaf(Str("a"))]) == [];
    assert ParamNames(pa) == [Leaf(Str("a"))];
    assert ParamNamesAll([Leaf(Num(1))]) == [];
    assert ParamNamesAll([Leaf(Num(0))]) == [];
    assert [pa, Leaf(Num(1))][1..] == [Leaf(Num(1))] && [pa, Leaf(Num(0))][1..] == [Leaf(Num(0))];
    assert ParamNamesAll([pa, Leaf(Num(1))]) == [Leaf(Str("a"))];
    assert ParamNamesAll([pa, Leaf(Num(0))]) == [Leaf(Str("a"))];
    assert ParamNames(x) == [Leaf(Str("a"))];
    assert ParamNames(y) == [Leaf(Str("a"))];
    assert [x, y][1..] == [y] && [y][1..] == [];
    assert ParamNamesAll([y]) == [Leaf(Str("a"))];
    assert ParamNamesAll([x, y]) == [Leaf(Str("a")), Leaf(Str("a"))];
  }
}
