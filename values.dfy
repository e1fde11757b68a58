/** Scalars and filter trees of the expression engine, with the JavaScript
    operator semantics the evaluator relies on (truthiness, string
    conversion, `+`, `-`, `*`, `/`, strict equality and relational order). */
module Values {

  datatype Option<T> = None | Some(value: T)

  /** A resolved scalar. `NaN` is JavaScript's not-a-number, the value that
      arithmetic on operands without a numeric reading produces. */
  datatype Value = Null | Bool(b: bool) | Num(n: int) | Str(s: string) | NaN

  /** A filter: a scalar leaf, or the array `[op, operand, …]`. */
  datatype Expr = Leaf(v: Value) | Node(op: string, args: seq<Expr>)

  /** `e[i + 1]` of the array `[op] + args`; a missing slot reads as
      JavaScript `undefined`, which every test of the engine treats like `null`. */
  function Arg(args: seq<Expr>, i: nat): Expr
  {
    if i < |args| then args[i] else Leaf(Null)
  }

  /** JavaScript truthiness: `false`, `null`, `0`, `""` and `NaN` are falsy. */
  predicate Truthy(v: Value)
  {
    match v
    case Null => false
    case Bool(b) => b
    case Num(n) => n != 0
    case Str(s) => s != ""
    case NaN => false
  }

  function DigitChar(d: nat): char
    requires d < 10
  {
    "0123456789"[d]
  }

  function NatToStr(n: nat): string
    decreases n
  {
    if n < 10 then [DigitChar(n)] else NatToStr(n / 10) + [DigitChar(n % 10)]
  }

  function IntToStr(i: int): string
  {
    if i < 0 then "-" + NatToStr(-i) else NatToStr(i)
  }

  /** JavaScript's `${v}`. */
  function ToStr(v: Value): string
  {
    match v
    case Null => "null"
    case Bool(b) => if b then "true" else "false"
    case Num(n) => IntToStr(n)
    case Str(s) => s
    case NaN => "NaN"
  }

  /** JavaScript's numeric reading of a scalar; strings are not read as
      numbers in this model (None), nor is NaN. */
  function ToNumber(v: Value): Option<int>
  {
    match v
    case Null => Some(0)
    case Bool(b) => Some(if b then 1 else 0)
    case Num(n) => Some(n)
    case Str(_) => None
    case NaN => None
  }

  /** JavaScript `a + b`: string concatenation when either side is a string. */
  function Plus(a: Value, b: Value): (r: Value)
    ensures r.Str? <==> a.Str? || b.Str?
    ensures r.Str? ==> r.s == ToStr(a) + ToStr(b)
    ensures !r.Str? ==> (r.NaN? <==> a.NaN? || b.NaN?)
  {
    if a.Str? || b.Str? then Str(ToStr(a) + ToStr(b))
    else match (ToNumber(a), ToNumber(b))
      case (Some(x), Some(y)) => Num(x + y)
      case _ => NaN
  }

  function Minus(a: Value, b: Value): (r: Value)
    ensures r.NaN? <==> ToNumber(a).None? || ToNumber(b).None?
    ensures !r.NaN? ==> r == Num(ToNumber(a).value - ToNumber(b).value)
  {
    match (ToNumber(a), ToNumber(b))
    case (Some(x), Some(y)) => Num(x - y)
    case _ => NaN
  }

  function Times(a: Value, b: Value): (r: Value)
    ensures r.NaN? <==> ToNumber(a).None? || ToNumber(b).None?
    ensures !r.NaN? ==> r == Num(ToNumber(a).value * ToNumber(b).value)
  {
    match (ToNumber(a), ToNumber(b))
    case (Some(x), Some(y)) => Num(x * y)
    case _ => NaN
  }

  /** Integer division rounding toward zero. */
  function TruncDiv(x: int, y: int): int
    requires y != 0
  {
    var q := (if x < 0 then -x else x) / (if y < 0 then -y else y);
    if (x < 0) == (y < 0) then q else -q
  }

  function Abs(x: int): nat
  {
    if x < 0 then -x else x
  }

  lemma MulLe(x: int, y: int, d: nat)
    requires x <= y
    ensures x * d <= y * d
  {
    assert y * d - x * d == (y - x) * d;
  }

  /** A non-zero multiple of `d` is at least `d` away from zero. */
  lemma MulAway(x: int, d: int)
    requires d >= 0
    ensures x >= 1 ==> x * d >= d
    ensures x <= -1 ==> x * d <= -d
  {
    if x >= 1 {
      MulLe(1, x, d);
    } else if x <= -1 {
      MulLe(x, -1, d);
    }
  }

  /** The quotient of floor division is the unique one with a remainder in
      range. */
  lemma DivUnique(a: int, d: int, k: int, m: int)
    requires d > 0 && 0 <= m < d && a == k * d + m
    ensures a / d == k
  {
    var k' := a / d;
    assert a == k' * d + a % d;
    assert (k - k') * d == a % d - m;
    MulAway(k - k', d);
  }

  lemma DivDiv(a: nat, b: nat, c: nat)
    requires b > 0 && c > 0
    ensures a / b / c == a / (b * c)
  {
    var q, r := a / b, a % b;
    var s, t := q / c, q % c;
    assert a == q * b + r;
    assert q == s * c + t;
    assert q * b == s * (b * c) + t * b by {
      assert (s * c + t) * b == s * c * b + t * b;
      assert s * c * b == s * (b * c);
    }
    MulLe(t, c - 1, b);
    assert (c - 1) * b == b * c - b;
    DivUnique(a, b * c, s, t * b + r);
  }

  lemma AbsMul(y: int, z: int)
    requires y != 0 && z != 0
    ensures Abs(y * z) == Abs(y) * Abs(z)
    ensures (y * z < 0) == ((y < 0) != (z < 0))
  {
    if y < 0 && z < 0 {
      assert y * z == (-y) * (-z);
    } else if y < 0 {
      assert -(y * z) == (-y) * z;
    } else if z < 0 {
      assert -(y * z) == y * (-z);
    }
  }

  lemma DivNonneg(a: int, d: int)
    requires a >= 0 && d > 0
    ensures a / d >= 0
  {
    var q := a / d;
    assert a == q * d + a % d;
    MulAway(q, d);
  }

  lemma TruncDivAbs(x: int, y: int)
    requires y != 0
    ensures Abs(TruncDiv(x, y)) == Abs(x) / Abs(y)
    ensures TruncDiv(x, y) != 0 ==> ((TruncDiv(x, y) < 0) == ((x < 0) != (y < 0)))
  {
    var q := Abs(x) / Abs(y);
    assert TruncDiv(x, y) == if (x < 0) == (y < 0) then q else -q;
    DivNonneg(Abs(x), Abs(y));
  }

  /** Two integers of the same size and, when non-zero, the same sign are
      equal. */
  lemma SameSizeAndSign(u: int, v: int)
    requires Abs(u) == Abs(v) && (u != 0 ==> (u < 0) == (v < 0))
    ensures u == v
  {
  }

  /** `TruncDivTwice` with the product `p` of the divisors given by its
      size and sign. */
  lemma TruncDivBySigns(x: int, y: int, z: int, p: int)
    requires y != 0 && z != 0
    requires Abs(p) == Abs(y) * Abs(z) && (p < 0) == ((y < 0) != (z < 0))
    ensures TruncDiv(TruncDiv(x, y), z) == TruncDiv(x, p)
  {
    var q := TruncDiv(x, y);
    var u, v := TruncDiv(q, z), TruncDiv(x, p);
    TruncDivAbs(x, y);
    TruncDivAbs(q, z);
    TruncDivAbs(x, p);
    DivDiv(Abs(x), Abs(y), Abs(z));
    assert Abs(u) == Abs(v);
    if u != 0 {
      assert Abs(q) != 0;
    }
    SameSizeAndSign(u, v);
  }

  /** Dividing twice, truncating each time, is dividing once by the
      product of the divisors. */
  lemma TruncDivTwice(x: int, y: int, z: int)
    requires y != 0 && z != 0
    ensures TruncDiv(TruncDiv(x, y), z) == TruncDiv(x, y * z)
  {
    AbsMul(y, z);
    TruncDivBySigns(x, y, z, y * z);
  }

  /** `a / b` on integers, truncated; division by zero gives NaN. */
  function Divide(a: Value, b: Value): (r: Value)
    ensures r.NaN? <==> ToNumber(a).None? || ToNumber(b).None? || ToNumber(b).value == 0
    ensures !r.NaN? ==> r == Num(TruncDiv(ToNumber(a).value, ToNumber(b).value))
  {
    match (ToNumber(a), ToNumber(b))
    case (Some(x), Some(y)) => if y == 0 then NaN else Num(TruncDiv(x, y))
    case _ => NaN
  }

  /** `${a}${b}`. */
  function Concat(a: Value, b: Value): (r: Value)
    ensures r.Str? && |r.s| == |ToStr(a)| + |ToStr(b)|
    ensures r.s[..|ToStr(a)|] == ToStr(a) && r.s[|ToStr(a)|..] == ToStr(b)
  {
    Str(ToStr(a) + ToStr(b))
  }

  /** JavaScript `a === b` on scalars: NaN equals nothing. */
  predicate StrictEq(a: Value, b: Value)
  {
    a == b && !a.NaN?
  }

  /** Lexicographic order on characters (code points; JavaScript compares
      UTF-16 code units, which orders the same below U+10000). */
  predicate LexLess(s: string, t: string)
  {
    if s == [] then t != []
    else t != [] && (s[0] < t[0] || (s[0] == t[0] && LexLess(s[1..], t[1..])))
  }

  /** The string order is a strict total order: exactly one of
      `s < t`, `s == t`, `t < s` holds. */
  lemma {:induction false} LexTrichotomy(s: string, t: string)
    ensures LexLess(s, t) || s == t || LexLess(t, s)
    ensures !(LexLess(s, t) && LexLess(t, s))
    ensures LexLess(s, t) ==> s != t
  {
    if s != [] && t != [] && s[0] == t[0] {
      LexTrichotomy(s[1..], t[1..]);
      if s[1..] == t[1..] {
        assert s == [s[0]] + s[1..] && t == [t[0]] + t[1..];
      }
    }
  }

  const Comparisons: set<string> := {"=", "<>", ">", ">=", "<", "<="}

  /** The comparison operators on two non-null scalars: strings compare
      lexicographically, values with a numeric reading numerically, and
      every other pair compares false. */
  predicate Compare(op: string, a: Value, b: Value)
    requires op in Comparisons
  {
    if op == "=" then StrictEq(a, b)
    else if op == "<>" then !StrictEq(a, b)
    else if a.Str? && b.Str? then
      if op == ">" then LexLess(b.s, a.s)
      else if op == ">=" then !LexLess(a.s, b.s)
      else if op == "<" then LexLess(a.s, b.s)
      else !LexLess(b.s, a.s)
    else match (ToNumber(a), ToNumber(b))
      case (Some(x), Some(y)) =>
        if op == ">" then x > y
        else if op == ">=" then x >= y
        else if op == "<" then x < y
        else x <= y
      case _ => false
  }

  /** On two strings or two numbers the six comparisons agree with each other
      as an order does: `>=` is `>` or `=`, `<=` is `<` or `=`, and `<` is
      `>` with the operands swapped. */
  lemma CompareIsOrder(a: Value, b: Value)
    requires (a.Str? && b.Str?) || (a.Num? && b.Num?)
    ensures Compare(">=", a, b) <==> Compare(">", a, b) || Compare("=", a, b)
    ensures Compare("<=", a, b) <==> Compare("<", a, b) || Compare("=", a, b)
    ensures Compare("<", a, b) <==> Compare(">", b, a)
    ensures Compare("<>", a, b) <==> !Compare("=", a, b)
  {
    if a.Str? {
      LexTrichotomy(a.s, b.s);
    }
  }

  function UpperChar(c: char): char
  {
    if 'a' <= c <= 'z' then (c as int - 32) as char else c
  }

  function LowerChar(c: char): char
  {
    if 'A' <= c <= 'Z' then (c as int + 32) as char else c
  }

  /** `toUpperCase`, on the ASCII letters. */
  function Upper(s: string): (r: string)
    ensures |r| == |s|
    ensures forall i :: 0 <= i < |s| ==> r[i] == UpperChar(s[i])
  {
    if s == [] then [] else [UpperChar(s[0])] + Upper(s[1..])
  }

  /** `toLowerCase`, on the ASCII letters. */
  function Lower(s: string): (r: string)
    ensures |r| == |s|
    ensures forall i :: 0 <= i < |s| ==> r[i] == LowerChar(s[i])
  {
    if s == [] then [] else [LowerChar(s[0])] + Lower(s[1..])
  }
}
