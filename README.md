# Filter expression engine: a Dafny model

This project models the core of a filter-expression engine. Filters are
trees of the form `[operator, operand, ...]` over scalars: `null`, booleans,
numbers and strings. The core is `lib/common/expression.ts`, with these
pieces:

- `reduce` is the fixpoint pair-combiner that folds the n-ary `AND`, `OR`,
  `*`, `/`, `+`, `-` and `||` nodes.
- `likePatternToRegExp` compiles a SQL `LIKE` pattern to a regular
  expression.
- `evaluate` is the bottom-up partial evaluator. It takes an optional record
  and an optional clock reading. Its compiled-pattern cache is kept per
  filter tree and keyed by `escape:pattern`.
- `and`, `or` and `not` build filters.
- `subset` decides whether one filter entails another.
- `extractParams` lists the distinct field references of a filter.

Modules, one file each:

- `Values` (`values.dfy`): scalars and trees. Missing operands read as
  `undefined`. It also holds JavaScript truthiness, `${v}`, the arithmetic
  on integers, strict equality and the comparisons.
- `Reduce` (`reduce.dfy`): `reduce` as a specification (`PassFrom`, `Fix`,
  `ReduceSpec`) and as the `while`/`for` method `Reduce` proved equal to
  it. It also characterises the fixpoint for logical, numeric, string and
  null chains.
- `Like` (`like.dfy`): the token list of a pattern and the compiled
  matcher (anchors plus atoms). It renders the matcher to regex source,
  parses that source back, and has the array-based method
  `LikePatternToRegExp`.
- `LikeMatch` (`like_match.dfy`): what a matcher accepts, as a
  regular-expression search, and its agreement with the SQL reading of the
  pattern.
- `RegExpCache` (`regexp_cache.dfy`): the cache key and a lookup that
  compiles on a miss.
- `Evaluate` (`evaluate.dfy`): one rule per operator, and the traversal
  `Eval` threading the cache. It also has the class `Filter`, which holds
  one tree and its cache and runs the traversal as methods.
- `EvaluateProps` (`evaluate_props.dfy`): idempotence of evaluation and
  the behaviour of the individual operators.
- `Sat` (`sat.dfy`): the Boolean reading of a residual tree and a decision
  procedure for its satisfiability.
- `Combinators` (`combinators.dfy`): `and`, `or`, `not`.
- `SubsetCheck` (`subset.dfy`): `subset`, proved to be implication of
  Boolean readings.
- `Params` (`params.dfy`): `extractParams`, as a post-order walk that adds
  to an insertion-ordered set.

Some choices in the model:

- Numbers are unbounded integers.
- Division truncates toward zero, and division by zero gives `NaN`.
- Strings are sequences of Unicode scalar values, compared by code point.
- JavaScript `undefined` and `null` are both `Null`. The engine treats them
  alike everywhere (`== null`, truthiness, `${}` aside).

## Model

| member | source | states |
|---|---|---|
| Values.Truthy | lib/common/expression.ts:96-110 | JavaScript truthiness: `false`, `null`, `0`, `""` and `NaN` are falsy, everything else truthy |
| Values.ToStr | lib/common/expression.ts:82-86 | JavaScript's `${v}`: `null`, `true`/`false`, the decimal form of a number, a string itself, `NaN` |
| Values.Plus | lib/common/expression.ts:172-179 | `a + b`: a string exactly when either side is a string, and then the concatenation of the string forms; otherwise `NaN` exactly when a side is `NaN` |
| Values.Minus | lib/common/expression.ts:180-187 | `a - b`: `NaN` exactly when a side has no numeric reading, otherwise the difference of the readings |
| Values.Times | lib/common/expression.ts:156-163 | `a * b`: `NaN` exactly when a side has no numeric reading, otherwise the product of the readings |
| Values.Divide | lib/common/expression.ts:164-171 | `a / b`: `NaN` exactly when a side has no numeric reading or the divisor is zero, otherwise the quotient truncated toward zero |
| Values.TruncDivTwice | lib/common/expression.ts:164-171 | truncating twice by `y` then `z` is truncating once by `y * z`, which is why only the first pair of a `/` chain divides |
| Values.Concat | lib/common/expression.ts:188-195 | `${a}${b}`: a string made of the string form of `a` followed by that of `b` |
| Values.StrictEq | lib/common/expression.ts:132-139 | `===` on scalars: equal values, except that `NaN` equals nothing |
| Values.Compare | lib/common/expression.ts:132-155 | the six comparisons on non-null scalars: strict (in)equality, lexicographic order on two strings, numeric order on two numeric readings, otherwise false |
| Values.CompareIsOrder | lib/common/expression.ts:140-155 | on two strings or two numbers, `>=` is `>` or `=`, `<=` is `<` or `=`, `<` is `>` swapped, `<>` is the negation of `=` |
| Values.Upper | lib/common/expression.ts:81-83 | `toUpperCase` keeps the length and maps every character through the ASCII upper-case map |
| Values.Lower | lib/common/expression.ts:84-86 | `toLowerCase` keeps the length and maps every character through the ASCII lower-case map |
| Reduce.PassFrom | lib/common/expression.ts:15-22 | one pass of the `for` loop: it reports a change exactly when the operand list got shorter, and a pass without a change returns the list as it was, so the `while` loop terminates |
| Reduce.Reduce | lib/common/expression.ts:11-26 | the `while`/`for` loop with copy-and-splice computes the fixpoint of passes, collapsed to the bare operand when one is left; the caller's operands are not changed |
| Reduce.FixIsFixpoint | lib/common/expression.ts:12-24 | the loop's result is a fixpoint: one more pass changes nothing, it is no longer than the input, and every operand in it is an input operand or a scalar produced by the callback |
| Reduce.LogicFold | lib/common/expression.ts:96-107 | `AND`/`OR`: the leftmost falsy (for `AND`) or truthy (for `OR`) scalar is the result; with none, the other scalars are dropped and the trees kept in order, unfolded; a node of only non-deciding scalars gives its last one |
| Reduce.Arith | lib/common/expression.ts:156-195 | the arithmetic of one pair: only the pair at index 0 of a `-` or `/` chain subtracts or divides, later pairs add or multiply |
| Reduce.Combine | lib/common/expression.ts:96-107 | the callbacks: a logical pair combines exactly when one side is a scalar, and to one of the two operands; an arithmetic pair exactly when both are scalars, to a scalar that is `null` exactly when a side is `null` |
| Reduce.NumericChain | lib/common/expression.ts:156-187 | on non-null integers, `+`, `-` and `*` give left-to-right binary application (for `-`, later pairs are summed into the subtrahend) |
| Reduce.StringChain | lib/common/expression.ts:188-195 | `||` on strings is their concatenation in order |
| Reduce.DivisionChain | lib/common/expression.ts:164-171 | on non-null integers, `/` gives left-to-right truncating division `((o1 / o2) / o3) …`, `NaN` as soon as a divisor is zero, although later pairs multiply |
| Reduce.DivisionRepeated | lib/common/expression.ts:164-171 | `["/", 100, 3, 3, 3]` is 3 |
| Reduce.DivisionTruncates | lib/common/expression.ts:164-171 | `["/", -7, 2, 3]` is -1 |
| Reduce.DivisionByZero | lib/common/expression.ts:164-171 | `["/", 7, 0, 2]` is `NaN` |
| Reduce.NullChainIsNull | lib/common/expression.ts:156-195 | in `*`, `/`, `+`, `-`, `||` over scalars, one `null` operand anywhere makes the node `null` |
| Reduce.ChainExamples | lib/common/expression.ts:180-187 | `["-",10,1,2]` is 7 and `["*",2,3,4]` is 24 |
| Like.ParseLikePattern | lib/common/expression.ts:48 | the tokens of a pattern (assumed reading of `parseLikePattern`): never more tokens than characters, at least one for a non-empty pattern |
| Like.Compile | lib/common/expression.ts:49-54 | no tokens give `^$`; the regex starts with `^` exactly when the first token is not `%` and ends with `$` exactly when the last is not `%`; the body has at most one atom per token and never an unescaped backslash |
| Like.ConvIsRenderAtom | lib/common/expression.ts:29-51 | the `convChars` lookup escapes every regex metacharacter, turns `%` into `.*` and `_` into `.`, and maps a backslash to `\/` |
| Like.LikePatternToRegExp | lib/common/expression.ts:28-56 | the array-slot method (map, overwrite `chars[0]` and `chars[l]`, join) yields exactly the rendering of the compiled matcher |
| Like.Overwritten | lib/common/expression.ts:52-55 | for every non-empty token list, the slots after the `^` rewrite of the first and the `$` rewrite of the last join to the rendering of the compiled matcher, a one-token pattern getting both rewrites |
| Like.ParseRender | lib/common/expression.ts:55 | reading back the rendered source gives the compiled matcher, so `new RegExp(source)` is the matcher the model tests with |
| LikeMatch.Test | lib/common/expression.ts:124-131 | `r.test(subject)`: some slice of the subject matches the body, starting at the front when anchored by `^` and ending at the end when anchored by `$` |
| LikeMatch.TestIsGlob | lib/common/expression.ts:119-125 | on subjects without line terminators and patterns without a literal backslash, `r.test(subject)` is SQL `LIKE`: `%` any run, `_` one character, others themselves |
| LikeMatch.EmptyPatternMatchesEmpty | lib/common/expression.ts:50 | the empty pattern accepts exactly the empty subject |
| LikeMatch.EscapedWildcardIsLiteral | lib/common/expression.ts:46-48 | an escaped `%` is a literal `%` |
| LikeMatch.PercentStopsAtLineBreak | lib/common/expression.ts:46 | `%` compiles to `.*`, which does not run across a line break, where SQL `LIKE` would |
| LikeMatch.BackslashMatchesSlash | lib/common/expression.ts:31 | a literal backslash compiles to `\/` and matches `/`, not a backslash |
| RegExpCache.CompileLike | lib/common/expression.ts:70 | `likePatternToRegExp(pat, esc)`: the pattern's string form parsed with the escape's string form, then compiled |
| RegExpCache.CacheKey | lib/common/expression.ts:67 | the key is the escape's string form (empty when falsy), a colon, then the pattern's string form |
| RegExpCache.Lookup | lib/common/expression.ts:66-72 | after a lookup the key is present, no existing entry is replaced, the result is the entry under the key, and a miss stores the freshly compiled pattern |
| RegExpCache.LookupConsistent | lib/common/expression.ts:70 | every cached matcher remains the compilation of some pattern and escape with that key |
| RegExpCache.KeyCollision | lib/common/expression.ts:67-71 | `:x` without escape and `x` with escape `:` share a key but compile differently, so the second lookup returns the first pattern's matcher |
| Evaluate.FuncRule | lib/common/expression.ts:78-87 | `FUNC` gives a scalar or leaves the node unchanged |
| Evaluate.ParamRule | lib/common/expression.ts:88-95 | `PARAM` gives a scalar or leaves the node unchanged |
| Evaluate.NotRule | lib/common/expression.ts:108-110 | `NOT` gives a scalar, leaves the node, or unwraps the operand of a negated negation |
| Evaluate.NullTestRule | lib/common/expression.ts:111-118 | `IS NULL` / `IS NOT NULL` give a scalar or leave the node unchanged |
| Evaluate.CompareRule | lib/common/expression.ts:132-155 | a comparison gives a scalar or leaves the node unchanged |
| Evaluate.Rule | lib/common/expression.ts:76-197 | every operator other than the pattern matches gives a scalar, the node itself, the unwrapped operand of `NOT NOT`, or the folded node from `reduce` |
| Evaluate.LikeRule | lib/common/expression.ts:119-131 | a pattern match waits while an operand is a tree; otherwise it gives `null` or a boolean, and the cache only grows |
| Evaluate.Visit | lib/common/expression.ts:75-197 | the callback handed to the traversal: the pattern matches go to their rule with the cache, every other operator to its rule; the cache only grows |
| Evaluate.Eval | lib/common/expression.ts:74-198 | the traversal never removes or replaces a cache entry, and a scalar evaluates to itself |
| Evaluate.EvalAll | lib/common/expression.ts:74 | operands are evaluated left to right, one result each, with the cache only growing |
| Evaluate.Filter.GetRegExp | lib/common/expression.ts:66-72 | `getRegExp` on the tree's cache: on a miss it compiles to source and builds the matcher from it; the returned matcher and the new cache are those of `Lookup` |
| Evaluate.Filter.EvalTree | lib/common/expression.ts:74-198 | the traversal with the cache held in the object computes `Eval`, result and final cache |
| Evaluate.Filter.Evaluate | lib/common/expression.ts:65-199 | `evaluate` on the object's tree computes `Eval` from the current cache |
| EvaluateProps.EvalIsNormal | lib/common/expression.ts:74-198 | every evaluation result is normal: no rule applies anywhere in it any more |
| EvaluateProps.NormalIsFixed | lib/common/expression.ts:74-198 | a normal tree evaluates to itself and leaves the cache untouched |
| EvaluateProps.Idempotent | lib/common/expression.ts:74-198 | evaluating an evaluated tree again under the same record and clock gives it back, whatever the cache holds |
| EvaluateProps.OnScalars | lib/common/expression.ts:74-76 | a node over scalars is rewritten by its own rule exactly once |
| EvaluateProps.CompareThreeValued | lib/common/expression.ts:132-155 | over two scalars a comparison is a scalar, `null` exactly when an operand is `null`, and otherwise the comparison's truth |
| EvaluateProps.VisitComparison | lib/common/expression.ts:132-155 | the comparisons go to their own rule and leave the cache untouched |
| EvaluateProps.CompareWaits | lib/common/expression.ts:132-155 | a comparison whose left or right operand evaluates to a tree is kept as the node over the evaluated operands |
| EvaluateProps.ParamEqualsExample | lib/common/expression.ts:88-95 | `["=",["PARAM","a"],5]` against `{a: 5}` is `true` |
| EvaluateProps.NullTestsNeverFalse | lib/common/expression.ts:111-118 | `IS NULL` / `IS NOT NULL` never give `false`: `true` exactly when the test holds, `null` exactly when it fails, the node itself over a tree |
| EvaluateProps.NotOfScalar | lib/common/expression.ts:109 | `NOT` of a scalar is JavaScript `!`, so `NOT null` is `true` |
| EvaluateProps.DoubleNotCancels | lib/common/expression.ts:108-110 | `NOT NOT x` is `x` when `x` stays a tree that is not a negation, and the truth value of `x` when it is a scalar |
| EvaluateProps.NowResolves | lib/common/expression.ts:79-80 | `NOW` resolves exactly when the clock reading is present and non-zero, to that reading |
| EvaluateProps.VisitFunc | lib/common/expression.ts:78-87 | a `FUNC` node goes to its own rule and leaves the cache untouched |
| EvaluateProps.UpperIsUpperCased | lib/common/expression.ts:83 | `toUpperCase` leaves no lower-case ASCII letter and keeps every other character |
| EvaluateProps.LowerIsLowerCased | lib/common/expression.ts:86 | `toLowerCase` leaves no upper-case ASCII letter and keeps every other character |
| EvaluateProps.CaseFunctions | lib/common/expression.ts:81-87 | `UPPER`/`LOWER` of `null` is `null`; of another scalar, its string form in the requested ASCII case with other characters kept |
| EvaluateProps.ParamResolves | lib/common/expression.ts:88-95 | without a record a field reference stays unresolved; with one it is the field's value, `null` when the field is missing |
| EvaluateProps.LogicOfScalars | lib/common/expression.ts:96-107 | `AND` and `OR` of two scalars are JavaScript `&&` and `||` |
| EvaluateProps.LikeOnScalars | lib/common/expression.ts:119-131 | `LIKE`/`NOT LIKE` over non-null scalars tests the string form of the subject with the matcher the cache lookup returns (negated for `NOT LIKE`), and leaves the cache as the lookup does |
| EvaluateProps.CollidingMatchers | lib/common/expression.ts:66-71 | pattern `x` with escape `:` and pattern `:x` without escape share a cache key but compile to matchers that disagree on `x` |
| EvaluateProps.EscapedAlone | lib/common/expression.ts:119-125 | on an empty cache `x LIKE 'x' ESCAPE ':'` is true |
| EvaluateProps.UnescapedFirst | lib/common/expression.ts:119-125 | `x LIKE ':x'` is false and caches its matcher under the key shared with escape `:` and pattern `x` |
| EvaluateProps.EscapedSecond | lib/common/expression.ts:66-71 | with that entry cached, `x LIKE 'x' ESCAPE ':'` is false |
| EvaluateProps.CacheOrderMatters | lib/common/expression.ts:66-72 | `x LIKE 'x' ESCAPE ':'` alone is true, but false inside an `OR` after `x LIKE ':x'` |
| EvaluateProps.VisitReplay | lib/common/expression.ts:66-72 | a rule applied over a cache holding every entry its first application left gives the same tree and adds nothing: each lookup hits the matcher used before |
| EvaluateProps.Replay | lib/common/expression.ts:65-199 | evaluating a tree again over a cache holding every entry its first evaluation left gives the same tree and leaves that cache as it is |
| EvaluateProps.ReplayAll | lib/common/expression.ts:74 | the same for the operands, left to right |
| Sat.OnlyVarsMatter | lib/common/expression.ts:239 | the Boolean reading of a tree depends only on the truth of its atoms |
| Sat.Decide | lib/common/expression.ts:239-240 | the satisfiability test standing in for `booleanCnf` and `naiveDpll`: a search over every assignment of the atoms |
| Sat.DecideIsSat | lib/common/expression.ts:239-240 | the satisfiability search answers exactly whether some assignment of the atoms makes the tree true |
| Combinators.And | lib/common/expression.ts:201-214 | a scalar first operand decides (`&&`); otherwise a scalar second operand decides; two trees make an `AND` node |
| Combinators.Or | lib/common/expression.ts:216-229 | a scalar first operand decides (`||`); otherwise a scalar second operand decides; two trees make an `OR` node |
| Combinators.Not | lib/common/expression.ts:231-234 | a negation is unwrapped to its operand, anything else is wrapped |
| Combinators.AndMeaning | lib/common/expression.ts:201-214 | under every assignment `and(x, y)` holds exactly when both hold |
| Combinators.OrMeaning | lib/common/expression.ts:216-229 | under every assignment `or(x, y)` holds exactly when either holds |
| Combinators.NotMeaning | lib/common/expression.ts:231-234 | under every assignment `not(x)` holds exactly when `x` does not |
| Combinators.NotNot | lib/common/expression.ts:231-234 | `not(not(x))` is `x` when `x` is not a negation |
| Combinators.NotNotOfNegation | lib/common/expression.ts:232 | `not(not(["NOT",["NOT",p]]))` is `p`, not the tree it started from |
| Combinators.AndFlattens | lib/common/expression.ts:207-211 | an `AND` operand contributes its operands one level deep |
| Combinators.OrFlattens | lib/common/expression.ts:222-226 | an `OR` operand contributes its operands one level deep |
| SubsetCheck.NotRuleNegates | lib/common/expression.ts:108-110 | the `NOT` rule negates the Boolean reading of any operand |
| SubsetCheck.OrRuleMeaning | lib/common/expression.ts:102-107 | over two operands the `OR` rule is disjunction of their Boolean readings |
| SubsetCheck.Subset | lib/common/expression.ts:236-241 | `subset`: evaluate `NOT (NOT a OR b)` with no record; a scalar answers by its falsiness, a tree by the absence of a satisfying assignment (its meaning is stated by `SubsetIsImplication`) |
| SubsetCheck.DifferenceShape | lib/common/expression.ts:237 | the evaluated `NOT (NOT a OR b)` is the `NOT` and `OR` rules applied to the evaluated `a` and `b`, `b` seeing the cache `a` left |
| SubsetCheck.OrOfTruthy | lib/common/expression.ts:102-107 | an `OR` of two operands one of which is a truthy scalar is a truthy scalar |
| SubsetCheck.DifferenceMeaning | lib/common/expression.ts:237 | the evaluated `NOT (NOT a OR b)` holds exactly where evaluated `a` holds and evaluated `b` does not |
| SubsetCheck.SubsetIsImplication | lib/common/expression.ts:236-241 | `subset(a, b)` holds exactly when, under every assignment, evaluated `a` implies evaluated `b` |
| SubsetCheck.SubsetOfNormal | lib/common/expression.ts:236-241 | on evaluated filters `subset` is implication of their Boolean readings |
| SubsetCheck.SubsetReflexive | lib/common/expression.ts:236-241 | every filter, evaluated or not, is a subset of itself: the second evaluation of `a` gives the same tree as the first |
| SubsetCheck.SubsetOfScalars | lib/common/expression.ts:237-238 | on scalars `subset` is material implication of truthiness |
| SubsetCheck.SubsetOfTrue | lib/common/expression.ts:237-238 | for every `x` the counterexample tree of `subset(x, true)` evaluates to the scalar `false`, so the answer is true without a satisfiability search |
| SubsetCheck.SubsetFromFalse | lib/common/expression.ts:237-238 | for every `y` the counterexample tree of `subset(false, y)` evaluates to the scalar `false`, so the answer is true without a satisfiability search |
| Params.InsertAllMembers | lib/common/expression.ts:244-249 | after adding, the set holds exactly the earlier elements and the added ones |
| Params.InsertAllKeeps | lib/common/expression.ts:244-249 | adding keeps the earlier elements in place, in their order, and grows the set by at most one per addition |
| Params.InsertAllDistinct | lib/common/expression.ts:244-249 | adding never repeats an element |
| Params.ParamSet.Add | lib/common/expression.ts:246 | `Set.prototype.add`: appends only an element not yet present |
| Params.ParamSet.Collect | lib/common/expression.ts:245-248 | the post-order walk adds every `PARAM` operand, operands before the node, left to right |
| Params.ExtractParams | lib/common/expression.ts:243-250 | the result is the `PARAM` operands in order of first appearance, without repeats, and contains exactly the operands that occur |
| Params.ParamsExample | lib/common/expression.ts:243-250 | `a = 1 AND a > 0` lists `a` once |

## Left out

- The callback `cb` of `evaluate` is not modelled: it calls code that cannot be seen.
- The `flags` argument of `likePatternToRegExp` is not modelled. Every pattern is compiled without flags, as `evaluate` does.
- `map` (the traversal) and `parseLikePattern` live in `expression-parser.ts`, which is not part of this model. `Eval`/`Collect` are a post-order walk, operands left to right. `ParseLikePattern` is an assumed reading: `%` and `_` are wildcards, and a one-character escape makes the next character literal.
- `booleanCnf` and `naiveDpll` are not part of this model. `Sat.Decide` stands in for both: an exhaustive search over the atoms, proved to decide satisfiability of the Boolean reading.
- SubsetCheck.Subset: inherits the stand-in above. Where the CNF conversion treats atoms or three-valued `null` differently, the model does not follow it.
- JavaScript numbers are unbounded integers here. Floating point, `Infinity` and fractional division results are not modelled. `/` truncates toward zero and division by zero gives `NaN`.
- JavaScript's string-to-number coercion is not modelled. A string never has a numeric reading, so mixed string/number comparisons are false and mixed `-`, `*`, `/` give `NaN`.
- Strings are not UTF-16. JavaScript compares strings by UTF-16 code unit, and the regular expression's `.` without the `u` flag consumes one code unit; the model compares code points and `_` consumes one scalar value. The two differ only on characters above U+FFFF: JavaScript orders `"\u{10000}"` before `"\uFFFF"` and `'😀' LIKE '_'` is false there, while the model orders them the other way and the match holds.
- `toUpperCase`/`toLowerCase` map only the ASCII letters. Unicode case mapping is not modelled.
- The process-wide `WeakMap` from trees to caches, and its garbage collection, are not modelled. `Filter` is one tree with its own cache. The pure `Eval` takes the cache as an argument.
- `Set` membership in `extractParams` is value equality on the model's trees. JavaScript compares array operands by identity.
- The user interface, server and build files are outside the engine core and are not modelled.
