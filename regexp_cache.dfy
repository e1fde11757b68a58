/** The compiled-pattern cache of the evaluator. Entries are stored under
    the string `${esc || ""}:${pat}`; that key is not injective, and the
    model keeps it as it is. */
module RegExpCache {
  import opened Values
  import opened Like

  type Entries = map<string, Matcher>

  /** `esc || ""`, as the string it contributes to the key. */
  function EscString(esc: Value): (r: string)
    ensures !Truthy(esc) ==> r == ""
    ensures Truthy(esc) ==> r == ToStr(esc)
  {
    if Truthy(esc) then ToStr(esc) else ""
  }

  /** The cache key of a pattern and an escape. */
  function CacheKey(pat: Value, esc: Value): (k: string)
    ensures ':' in k
    ensures |k| == |EscString(esc)| + 1 + |ToStr(pat)|
    ensures k[|EscString(esc)|] == ':' && k[..|EscString(esc)|] == EscString(esc)
    ensures k[|EscString(esc)| + 1..] == ToStr(pat)
  {
    EscString(esc) + ":" + ToStr(pat)
  }

  /** The matcher `likePatternToRegExp(pat, esc)` builds; the pattern and a
      truthy escape reach the parser as their string forms. */
  function CompileLike(pat: Value, esc: Value): Matcher
  {
    Compile(ParseLikePattern(ToStr(pat), EscString(esc)))
  }

  /** A cache lookup: a hit returns the stored matcher and leaves the cache
      as it is; a miss compiles the pattern and stores it. Entries are
      never overwritten and the returned matcher is the one stored under
      the key afterwards. */
  function Lookup(entries: Entries, pat: Value, esc: Value): (r: (Matcher, Entries))
    ensures r.1.Keys == entries.Keys + {CacheKey(pat, esc)}
    ensures forall k :: k in entries ==> r.1[k] == entries[k]
    ensures r.0 == r.1[CacheKey(pat, esc)]
    ensures CacheKey(pat, esc) !in entries ==> r.0 == CompileLike(pat, esc)
  {
    var k := CacheKey(pat, esc);
    if k in entries then (entries[k], entries)
    else
      var m := CompileLike(pat, esc);
      (m, entries[k := m])
  }

  /** Every entry is the compiled form of some pattern and escape whose key
      it is stored under. */
  ghost predicate Consistent(entries: Entries)
  {
    forall k :: k in entries ==>
      exists pat: Value, esc: Value :: CacheKey(pat, esc) == k && entries[k] == CompileLike(pat, esc)
  }

  lemma LookupConsistent(entries: Entries, pat: Value, esc: Value)
    requires Consistent(entries)
    ensures Consistent(Lookup(entries, pat, esc).1)
  {
    var r := Lookup(entries, pat, esc).1;
    forall k | k in r
      ensures exists p: Value, e: Value :: CacheKey(p, e) == k && r[k] == CompileLike(p, e)
    {
      if k in entries {
        var p: Value, e: Value :| CacheKey(p, e) == k && entries[k] == CompileLike(p, e);
        assert r[k] == CompileLike(p, e);
      } else {
        assert k == CacheKey(pat, esc);
        assert r[k] == CompileLike(pat, esc);
      }
    }
  }

  /** The entry for this pattern and escape, if any, is its own compiled
      form. */
  predicate Agrees(entries: Entries, pat: Value, esc: Value)
  {
    CacheKey(pat, esc) in entries ==> entries[CacheKey(pat, esc)] == CompileLike(pat, esc)
  }

  /** When the cache agrees with the pattern, a lookup returns exactly what
      compiling it afresh would. */
  lemma LookupAgrees(entries: Entries, pat: Value, esc: Value)
    requires Agrees(entries, pat, esc)
    ensures Lookup(entries, pat, esc).0 == CompileLike(pat, esc)
    ensures Agrees(Lookup(entries, pat, esc).1, pat, esc)
  {
  }

  /** Two patterns that share a key: no escape with pattern `:x`, and escape
      `:` with pattern `x`. They compile differently, so after the first is
      cached a lookup of the second returns the first one's matcher. */
  lemma {:induction false} KeyCollision()
    ensures CacheKey(Str(":x"), Null) == CacheKey(Str("x"), Str(":"))
    ensures CompileLike(Str(":x"), Null) == Matcher(true, true, [Exact(':'), Exact('x')])
    ensures CompileLike(Str("x"), Str(":")) == Matcher(true, true, [Exact('x')])
    ensures Lookup(Lookup(map[], Str(":x"), Null).1, Str("x"), Str(":")).0 != CompileLike(Str("x"), Str(":"))
  {
    assert ":x"[1..] == "x" && "x"[1..] == "";
    assert ParseLikePattern("", "") == [];
    assert ParseLikePattern("x", "") == [Lit('x')];
    assert ParseLikePattern(":x", "") == [Lit(':'), Lit('x')];
    assert ParseLikePattern("", ":") == [];
    assert ParseLikePattern("x", ":") == [Lit('x')];
    assert Atoms([Lit(':'), Lit('x')]) == [Exact(':'), Exact('x')];
    assert Atoms([Lit('x')]) == [Exact('x')];
  }
}
