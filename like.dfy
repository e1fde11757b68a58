/** SQL `LIKE` patterns and the regular expressions they are compiled to.

    The pattern parser produces a token list in which a literal character is
    itself and an unescaped `%` or `_` is tagged with a backslash; the
    compiler maps every token to a piece of regular-expression source,
    escapes the metacharacters, and anchors the result at both ends unless
    the pattern starts or ends with `%`. */
module Like {
  import opened Values

  // ---------------------------------------------------------------------
  // Tokens

  /** One element of the parsed pattern: a literal character, a `%` that
      matches any run of characters, or a `_` that matches one. */
  datatype Token = Lit(c: char) | AnyRun | AnyOne

  /** The string the parser emits for a token: a wildcard is tagged with a
      backslash so that it cannot be mistaken for an escaped literal. */
  function TokenText(t: Token): string
  {
    match t
    case Lit(c) => [c]
    case AnyRun => "\\%"
    case AnyOne => "\\_"
  }

  /** The pattern parser. It lives outside this model; it is written here as
      the behaviour the compiler relies on: the escape is active when it is a
      single character, and it makes the character after it literal; an
      unescaped `%` or `_` is a wildcard; every other character is literal. */
  function ParseLikePattern(pat: string, esc: string): (ts: seq<Token>)
    ensures |ts| <= |pat|
    ensures pat != [] ==> ts != []
    decreases |pat|
  {
    if pat == [] then []
    else if |esc| == 1 && pat[0] == esc[0] && |pat| >= 2 then
      [Lit(pat[1])] + ParseLikePattern(pat[2..], esc)
    else if pat[0] == '%' then [AnyRun] + ParseLikePattern(pat[1..], esc)
    else if pat[0] == '_' then [AnyOne] + ParseLikePattern(pat[1..], esc)
    else [Lit(pat[0])] + ParseLikePattern(pat[1..], esc)
  }

  // ---------------------------------------------------------------------
  // The conversion table and the regular expressions it builds

  /** Token text to regular-expression source, for the tokens that need it. */
  const ConvChars: map<string, string> := map[
    "-" := "\\-", "/" := "\\/", "\\" := "\\/", "^" := "\\^", "$" := "\\$",
    "*" := "\\*", "+" := "\\+", "?" := "\\?", "." := "\\.", "(" := "\\(",
    ")" := "\\)", "|" := "\\|", "[" := "\\[", "]" := "\\]", "{" := "\\{",
    "}" := "\\}", "\\%" := ".*", "\\_" := "."]

  /** `convChars[c] || c`. */
  function Conv(s: string): string
  {
    if s in ConvChars && ConvChars[s] != "" then ConvChars[s] else s
  }

  /** The characters that are special in a regular expression and that the
      table escapes. */
  const Meta: set<char> := {'-', '/', '^', '$', '*', '+', '?', '.', '(', ')', '|', '[', ']', '{', '}'}

  /** One piece of a compiled pattern: a character matched exactly, `.`
      (any one character but a line terminator) or `.*` (any run of them). */
  datatype Atom = Exact(c: char) | Dot | DotStar

  /** A compiled pattern: the body and whether it is anchored by `^` and `$`. */
  datatype Matcher = Matcher(anchorStart: bool, anchorEnd: bool, body: seq<Atom>)

  /** The piece the table produces for a token. A backslash becomes `\/`,
      which matches a slash. */
  function AtomOf(t: Token): Atom
  {
    match t
    case Lit(c) => if c == '\\' then Exact('/') else Exact(c)
    case AnyRun => DotStar
    case AnyOne => Dot
  }

  function Atoms(ts: seq<Token>): (r: seq<Atom>)
    ensures |r| == |ts| && forall i :: 0 <= i < |ts| ==> r[i] == AtomOf(ts[i])
  {
    seq(|ts|, i requires 0 <= i < |ts| => AtomOf(ts[i]))
  }

  /** A matcher whose source can be read back: no atom is an exact
      backslash, which the table never produces. */
  predicate WellFormed(m: Matcher)
  {
    forall i :: 0 <= i < |m.body| ==> m.body[i] != Exact('\\')
  }

  /** What the compiler builds from a token list: an empty list matches only
      the empty subject; otherwise a leading `%` drops the start anchor and
      a trailing `%` drops the end anchor, together with the `.*` they
      would have contributed. */
  function Compile(ts: seq<Token>): (m: Matcher)
    ensures ts == [] ==> m == Matcher(true, true, [])
    ensures ts != [] ==> (m.anchorStart <==> ts[0] != AnyRun)
    ensures ts != [] ==> (m.anchorEnd <==> ts[|ts| - 1] != AnyRun)
    ensures |m.body| <= |ts|
    ensures WellFormed(m)
  {
    if ts == [] then Matcher(true, true, [])
    else
      var s, e := ts[0] == AnyRun, ts[|ts| - 1] == AnyRun;
      var lo, hi := if s then 1 else 0, if e then |ts| - 1 else |ts|;
      Matcher(!s, !e, if lo <= hi then Atoms(ts)[lo..hi] else [])
  }

  function RenderAtom(a: Atom): string
  {
    match a
    case Exact(c) => if c in Meta then ['\\', c] else [c]
    case Dot => "."
    case DotStar => ".*"
  }

  function Join(ss: seq<string>): string
  {
    if ss == [] then "" else ss[0] + Join(ss[1..])
  }

  function Rendered(body: seq<Atom>): (r: seq<string>)
    ensures |r| == |body| && forall i :: 0 <= i < |body| ==> r[i] == RenderAtom(body[i])
  {
    seq(|body|, i requires 0 <= i < |body| => RenderAtom(body[i]))
  }

  /** The regular-expression source of a matcher. */
  function Render(m: Matcher): string
  {
    (if m.anchorStart then "^" else "") + Join(Rendered(m.body)) + (if m.anchorEnd then "$" else "")
  }

  lemma {:induction false} JoinAppend(a: seq<string>, b: seq<string>)
    ensures Join(a + b) == Join(a) + Join(b)
  {
    if a == [] {
      assert a + b == b;
    } else {
      assert (a + b)[1..] == a[1..] + b;
      JoinAppend(a[1..], b);
    }
  }

  lemma JoinOne(s: string)
    ensures Join([s]) == s
  {
    assert [s][1..] == [];
  }

  /** The table and the atom rendering agree on every token. */
  lemma ConvIsRenderAtom(t: Token)
    ensures Conv(TokenText(t)) == RenderAtom(AtomOf(t))
  {
    match t
    case Lit(c) =>
      if c in Meta || c == '\\' {
        assert [c] in ConvChars;
      } else {
        assert [c] !in ConvChars;
      }
    case AnyRun =>
    case AnyOne =>
  }

  lemma RenderAtomShape(a: Atom)
    ensures RenderAtom(a) != ""
    ensures RenderAtom(a) == ".*" <==> a == DotStar
  {
  }

  /** `Array.prototype.join("")`. */
  method JoinSlots(slots: seq<string>) returns (source: string)
    ensures source == Join(slots)
  {
    source := "";
    for i := 0 to |slots|
      invariant source == Join(slots[..i])
    {
      assert slots[..i + 1] == slots[..i] + [slots[i]];
      JoinSnoc(slots[..i], slots[i]);
      source := source + slots[i];
    }
    assert slots[..|slots|] == slots;
  }

  /** `chars.map(c => convChars[c] || c)`, into a fresh array. */
  method ConvertTokens(tokens: seq<Token>) returns (chars: array<string>)
    ensures fresh(chars) && chars[..] == Rendered(Atoms(tokens))
  {
    chars := new string[|tokens|];
    for i := 0 to |tokens|
      invariant forall k :: 0 <= k < i ==> chars[k] == RenderAtom(AtomOf(tokens[k]))
    {
      ConvIsRenderAtom(tokens[i]);
      chars[i] := Conv(TokenText(tokens[i]));
    }
  }

  /** The first slot's rewrite: a leading `.*` is dropped, anything else
      is anchored with `^`. */
  function OpenSlot(x: string): string
  {
    if x == ".*" then "" else "^" + x
  }

  /** The last slot's rewrite: a trailing `.*` or an emptied slot is
      dropped, anything else is anchored with `$`. */
  function CloseSlot(x: string): string
  {
    if x == ".*" || x == "" then "" else x + "$"
  }

  /** The compiler: it converts each token, then overwrites the first slot
      (prefixing `^`, or blanking a leading `.*`) and the last slot (adding
      `$`, or blanking a trailing `.*`), and joins the slots. */
  method LikePatternToRegExp(pat: string, esc: string) returns (source: string)
    ensures source == Render(Compile(ParseLikePattern(pat, esc)))
  {
    var tokens := ParseLikePattern(pat, esc);
    if |tokens| == 0 {
      return "^$";
    }
    var chars := ConvertTokens(tokens);
    ghost var r := chars[..];
    chars[0] := OpenSlot(chars[0]);
    var l := chars.Length - 1;
    chars[l] := CloseSlot(chars[l]);
    var slots := chars[..];
    source := JoinSlots(slots);
    Overwritten(tokens, r, slots);
  }

  /** The converted slots with the first and last overwritten join to the
      rendering of the compiled matcher. */
  lemma Overwritten(ts: seq<Token>, r: seq<string>, f: seq<string>)
    requires ts != [] && r == Rendered(Atoms(ts)) && |f| == |ts|
    requires f[0] == if |ts| == 1 then CloseSlot(OpenSlot(r[0])) else OpenSlot(r[0])
    requires |ts| > 1 ==> f[|ts| - 1] == CloseSlot(r[|ts| - 1])
    requires forall k :: 0 < k < |ts| - 1 ==> f[k] == r[k]
    ensures Join(f) == Render(Compile(ts))
  {
    var l := |ts| - 1;
    RenderAtomShape(AtomOf(ts[0]));
    RenderAtomShape(AtomOf(ts[l]));
    if l == 0 && ts[0] != AnyRun {
      assert ("^" + r[0])[0] == '^';
    }
    SlotsRender(ts, r, f);
  }

  /** The slots after both overwrites join to the rendering of the compiled
      matcher. */
  lemma SlotsRender(ts: seq<Token>, r: seq<string>, f: seq<string>)
    requires ts != [] && r == Rendered(Atoms(ts)) && |f| == |ts|
    requires f[0] == if |ts| == 1 then (if ts[0] == AnyRun then "" else "^" + r[0] + "$")
                     else if ts[0] == AnyRun then "" else "^" + r[0]
    requires |ts| > 1 ==> f[|ts| - 1] == if ts[|ts| - 1] == AnyRun then "" else r[|ts| - 1] + "$"
    requires forall k :: 0 < k < |ts| - 1 ==> f[k] == r[k]
    ensures Join(f) == Render(Compile(ts))
  {
    var l := |ts| - 1;
    var st, en := ts[0] == AnyRun, ts[l] == AnyRun;
    if l == 0 {
      SingleSlot(ts, r, f[0]);
      assert f == [f[0]];
      JoinOne(f[0]);
    } else {
      ManySlots(st, en, r, f);
      BodySlice(ts);
      RenderedSlice(Atoms(ts), if st then 1 else 0, if en then l else l + 1);
      RenderOf(ts, Join(r[(if st then 1 else 0)..(if en then l else l + 1)]));
    }
  }

  /** A one-token pattern: one slot holding the whole source. */
  lemma SingleSlot(ts: seq<Token>, r: seq<string>, f: string)
    requires |ts| == 1 && r == Rendered(Atoms(ts))
    requires f == if ts[0] == AnyRun then "" else "^" + r[0] + "$"
    ensures f == Render(Compile(ts))
  {
    if ts[0] != AnyRun {
      assert Compile(ts).body == [AtomOf(ts[0])];
      assert Rendered(Compile(ts).body) == [r[0]];
      JoinOne(r[0]);
    }
  }

  lemma JoinThree(a: string, mid: seq<string>, b: string)
    ensures Join([a] + mid + [b]) == a + Join(mid) + b
  {
    JoinAppend([a] + mid, [b]);
    JoinAppend([a], mid);
    JoinOne(a);
    JoinOne(b);
  }

  lemma JoinCons(a: string, mid: seq<string>)
    ensures Join([a] + mid) == a + Join(mid)
  {
    JoinAppend([a], mid);
    JoinOne(a);
  }

  lemma JoinSnoc(mid: seq<string>, b: string)
    ensures Join(mid + [b]) == Join(mid) + b
  {
    JoinAppend(mid, [b]);
    JoinOne(b);
  }

  /** The body of a compiled pattern of several tokens is the token list
      without a leading and a trailing `%`. */
  lemma BodySlice(ts: seq<Token>)
    requires |ts| > 1
    ensures Compile(ts).body ==
            Atoms(ts)[(if ts[0] == AnyRun then 1 else 0)..(if ts[|ts| - 1] == AnyRun then |ts| - 1 else |ts|)]
  {
  }

  lemma RenderedSlice(body: seq<Atom>, lo: nat, hi: nat)
    requires lo <= hi <= |body|
    ensures Rendered(body[lo..hi]) == Rendered(body)[lo..hi]
  {
  }

  lemma RenderOf(ts: seq<Token>, b: string)
    requires ts != [] && Join(Rendered(Compile(ts).body)) == b
    ensures Render(Compile(ts)) == (if ts[0] == AnyRun then "" else "^") + b + (if ts[|ts| - 1] == AnyRun then "" else "$")
  {
  }

  lemma Assoc(a: string, b: string, c: string, d: string, e: string)
    ensures a + (b + c + d) + e == (a + b) + c + (d + e)
  {
  }

  /** Joining an outer slot with its anchor, the middle slots and the
      other outer slot. */
  lemma JoinFramed(a: string, first: seq<string>, mid: seq<string>, last: seq<string>, z: string, f0: string, fl: string)
    requires f0 == a + Join(first) && fl == Join(last) + z
    ensures Join([f0] + mid + [fl]) == a + Join(first + mid + last) + z
  {
    JoinThree(f0, mid, fl);
    JoinAppend(first + mid, last);
    JoinAppend(first, mid);
    Assoc(a, Join(first), Join(mid), Join(last), z);
  }

  /** A pattern of several tokens: the first and last slots carry the
      anchors, the slots between hold the rendered atoms. */
  lemma ManySlots(s: bool, e: bool, r: seq<string>, f: seq<string>)
    requires |r| > 1 && |f| == |r|
    requires f[0] == if s then "" else "^" + r[0]
    requires f[|r| - 1] == if e then "" else r[|r| - 1] + "$"
    requires forall k :: 0 < k < |r| - 1 ==> f[k] == r[k]
    ensures Join(f) == (if s then "" else "^") + Join(r[(if s then 1 else 0)..(if e then |r| - 1 else |r|)]) + (if e then "" else "$")
  {
    var n := |r|;
    var lo, hi := if s then 1 else 0, if e then n - 1 else n;
    var mid := r[1..n - 1];
    assert f == [f[0]] + mid + [f[n - 1]];
    var first: seq<string> := if s then [] else [r[0]];
    var last: seq<string> := if e then [] else [r[n - 1]];
    assert r[lo..hi] == first + mid + last;
    if !s { JoinOne(r[0]); }
    if !e { JoinOne(r[n - 1]); }
    JoinFramed(if s then "" else "^", first, mid, last, if e then "" else "$", f[0], f[n - 1]);
  }

  // ---------------------------------------------------------------------
  // Reading the source back

  function Prepend(a: Atom, r: Option<(seq<Atom>, bool)>): Option<(seq<Atom>, bool)>
  {
    match r
    case None => None
    case Some(p) => Some(([a] + p.0, p.1))
  }

  /** Reads the atoms of a regular-expression source and a closing `$`. */
  function ParseBody(s: string): Option<(seq<Atom>, bool)>
    decreases |s|
  {
    if s == [] then Some(([], false))
    else if s == "$" then Some(([], true))
    else if s[0] == '\\' then
      if |s| >= 2 && s[1] in Meta then Prepend(Exact(s[1]), ParseBody(s[2..])) else None
    else if s[0] == '.' then
      if |s| >= 2 && s[1] == '*' then Prepend(DotStar, ParseBody(s[2..]))
      else Prepend(Dot, ParseBody(s[1..]))
    else if s[0] in Meta then None
    else Prepend(Exact(s[0]), ParseBody(s[1..]))
  }

  /** Reads a regular-expression source of the shape the compiler emits. */
  function ParseRegex(src: string): Option<Matcher>
  {
    var start := src != [] && src[0] == '^';
    match ParseBody(if start then src[1..] else src)
    case None => None
    case Some(p) => Some(Matcher(start, p.1, p.0))
  }

  lemma RenderedTail(body: seq<Atom>)
    requires body != []
    ensures Join(Rendered(body)) == RenderAtom(body[0]) + Join(Rendered(body[1..]))
  {
    assert Rendered(body)[1..] == Rendered(body[1..]);
  }

  /** The source of a body never starts with `^` or `*`. */
  lemma {:induction false} BodyHead(body: seq<Atom>, tail: string)
    requires tail == "" || tail == "$"
    ensures var s := Join(Rendered(body)) + tail; s == [] || (s[0] != '^' && s[0] != '*')
  {
    if body != [] {
      RenderedTail(body);
      var r := RenderAtom(body[0]);
      assert (r + Join(Rendered(body[1..])) + tail)[0] == r[0];
    }
  }

  /** One atom read off the front of a source whose rest reads back. */
  lemma ParseStep(a: Atom, rs: string, rest: seq<Atom>, end: bool)
    requires a != Exact('\\')
    requires rs == [] || rs[0] != '*'
    requires ParseBody(rs) == Some((rest, end))
    ensures ParseBody(RenderAtom(a) + rs) == Some(([a] + rest, end))
  {
    var s := RenderAtom(a) + rs;
    match a
    case Exact(c) =>
      if c in Meta {
        assert s[0] == '\\' && s[1] == c && s[2..] == rs;
      } else {
        assert c != '.' && c != '$';
        assert s[0] == c && s[1..] == rs;
        assert s != [] && s != "$" && s[0] != '\\' && s[0] != '.' && s[0] !in Meta;
        assert ParseBody(s) == Prepend(Exact(c), ParseBody(rs));
      }
    case Dot =>
      assert s[0] == '.' && s[1..] == rs;
      assert !(|s| >= 2 && s[1] == '*');
    case DotStar =>
      assert s[2..] == rs;
  }

  /** Reading the source of a well-formed body gives the body back. */
  lemma {:induction false} ParseRenderedBody(body: seq<Atom>, end: bool)
    requires forall i :: 0 <= i < |body| ==> body[i] != Exact('\\')
    ensures ParseBody(Join(Rendered(body)) + (if end then "$" else "")) == Some((body, end))
  {
    var tail := if end then "$" else "";
    if body == [] {
      assert Rendered(body) == [];
    } else {
      RenderedTail(body);
      var a, rest := body[0], body[1..];
      var rs := Join(Rendered(rest)) + tail;
      assert Join(Rendered(body)) + tail == RenderAtom(a) + rs;
      ParseRenderedBody(rest, end);
      BodyHead(rest, tail);
      ParseStep(a, rs, rest, end);
      assert [a] + rest == body;
    }
  }

  /** The compiler's output reads back as the matcher it rendered: the source
      is unambiguous, every metacharacter in it is escaped. */
  lemma ParseRender(m: Matcher)
    requires WellFormed(m)
    ensures ParseRegex(Render(m)) == Some(m)
  {
    var tail := if m.anchorEnd then "$" else "";
    var b := Join(Rendered(m.body)) + tail;
    ParseRenderedBody(m.body, m.anchorEnd);
    BodyHead(m.body, tail);
    if m.anchorStart {
      assert Render(m) == "^" + b;
      assert Render(m)[1..] == b;
    } else {
      assert Render(m) == b;
    }
  }
}
