# Server utility helpers, modelled in Dafny

This project models the discrete and exactly-arithmetic part of the server's
utility module `backend/utils/misc.ts`:

- `escapeRegExp`: puts a backslash in front of every regular-expression
  metacharacter (module `RegExpEscape`, file `escape_regexp.dfy`);
- `mean`, and the radicand of `stdDev` (the population variance before
  `Math.sqrt`), over exact reals (module `Statistics`, file `statistics.dfy`);
- `buildAgentLog`: builds the request log record. It picks `ip` by JavaScript
  truthiness, formats `agent`, and adds the optional `device` (module
  `AgentLog`, file `agent_log.dfy`).

`options.dfy` holds the `Option` type that stands for a value which may be
`undefined`.

Each operation is related by lemmas to an independent reference definition:

- `escapeRegExp` has an unescaping function, a grammar of well-formed escaped
  text, and a matcher for literal patterns. The lemmas show that escaping is a
  bijection onto well-formed text. Read as a pattern anchored with `^` and `$`
  and without flags, the escaped text matches the whole of a string exactly
  when that string is the original. Searched for without anchors, it is found
  exactly where the original occurs.
- The JavaScript `reduce` is tied to an independent `Sum`. The mean is bounded
  by `Min` and `Max`. The radicand is shown to equal the mean of the squares
  less the square of the mean, the second textbook form of the population
  variance. It is zero exactly when all the samples are equal.
- The `||` chain for `ip` is tied to a general "first truthy operand"
  function. The logged `ip` is shown never to be falsy, and to be either the
  fallback or the value of a truthy candidate. The `agent` text is tied to a
  join of its fields. Splitting at spaces recovers the fields when no field
  holds a space, and a concrete pair shows that they are lost otherwise.

Numbers are `real`, an exact-arithmetic idealisation of JavaScript doubles. In this model
the order in which `reduce` adds its operands does not matter. The two
callbacks in the source differ only in operand order: `(a, b) => a + b` in
`stdDev` and `current += previous` in `mean`. Here both are the same
left-to-right fold, `ReduceAdd`.

Two JavaScript behaviours of `buildAgentLog` are modelled as the code has them:

- `ip` is chosen with `||`, that is, by truthiness (`Truthy`). A header that
  holds the empty string is skipped. A header that holds an array is kept,
  even when the array is empty.
- A parser field that is `undefined` appears in `agent` and `device` as the
  text `undefined`, as a template literal renders it (`Interpolate`).

## Model

| member | source | states |
|---|---|---|
| RegExpEscape.Escape | backend/utils/misc.ts:7-9 | the output is the input plus one backslash per metacharacter of `. * + ? ^ $ { } ( ) \| [ ] \`; the output equals the input exactly when the input holds no metacharacter |
| RegExpEscape.EscapeConcat | backend/utils/misc.ts:8 | because of the `g` flag and the one-character class, escaping distributes over concatenation |
| RegExpEscape.EscapePosition | backend/utils/misc.ts:8 | the input character at index `i` appears at `i` plus the number of metacharacters before it; a metacharacter appears there behind a backslash, and any other character appears there alone |
| RegExpEscape.EscapeWellEscaped | backend/utils/misc.ts:8 | every output reads as a series of copied non-metacharacters and backslash-metacharacter pairs: no other character gains a backslash and no metacharacter is left bare |
| RegExpEscape.UnescapeEscape | backend/utils/misc.ts:8 | dropping each backslash and keeping the character after it recovers the input exactly |
| RegExpEscape.EscapeUnescape | backend/utils/misc.ts:8 | every well-formed escaped string is the escape of some input, so escaping is onto the well-formed strings |
| RegExpEscape.EscapeInjective | backend/utils/misc.ts:8 | different inputs have different escapes |
| RegExpEscape.EscapeMatchesExactly | backend/utils/misc.ts:7-9 | used as a pattern anchored with `^` and `$` and without flags, the escaped text matches the whole of a string exactly when that string is the original text |
| RegExpEscape.EscapeSearch | backend/utils/misc.ts:7-9 | searched for without anchors, as `RegExp.prototype.test` does, the escaped text is found in a string exactly when the original text occurs in it |
| RegExpEscape.EscapeExample | backend/utils/misc.ts:8 | `a.b*c` escapes to `a\.b\*c` |
| Statistics.ReduceAdd | backend/utils/misc.ts:13 | `reduce` with addition and no initial value (defined only on a non-empty array) gives the sum of the elements |
| Statistics.Mean | backend/utils/misc.ts:19-28 | the empty sequence has mean 0, through the caught exception; a non-empty sequence has mean sum divided by length; a singleton's mean is its element |
| Statistics.MeanAtLeast | backend/utils/misc.ts:21-24 | a lower bound on every element of a non-empty sequence is a lower bound on its mean |
| Statistics.MeanAtMost | backend/utils/misc.ts:21-24 | an upper bound on every element of a non-empty sequence is an upper bound on its mean |
| Statistics.MeanBounds | backend/utils/misc.ts:21-24 | the mean of a non-empty sequence lies between its least and its greatest element |
| Statistics.MeanOfConstant | backend/utils/misc.ts:21-24 | a sequence whose elements all equal `c` has mean `c` |
| Statistics.MeanExamples | backend/utils/misc.ts:19-28 | the mean of the empty sequence is 0, and the mean of 2, 4, 6 is 4 |
| Statistics.SquaredDeviations | backend/utils/misc.ts:15 | the squared deviations from `m` are never negative, and one is zero exactly where the element equals `m` |
| Statistics.VarianceRadicand | backend/utils/misc.ts:11-17 | what `stdDev` passes to `Math.sqrt`, defined only on non-empty input because no handler catches the `reduce` exception, is never negative |
| Statistics.VarianceIsMeanSquareLessSquareMean | backend/utils/misc.ts:13-15 | the radicand equals the mean of the squares less the square of the mean, the second textbook form of the population variance |
| Statistics.VarianceZeroIffConstant | backend/utils/misc.ts:13-15 | the radicand is zero if and only if all elements are equal |
| Statistics.VarianceExample | backend/utils/misc.ts:11-17 | the samples 2, 4, 4, 4, 5, 5, 7, 9 have radicand 4, so their standard deviation is 2 |
| AgentLog.FirstTruthy | backend/utils/misc.ts:61-65 | an `a \|\| b \|\| … \|\| fallback` chain gives the first truthy candidate whose predecessors are all falsy, or the fallback when no candidate is truthy; its value is always the fallback or some truthy candidate, so a truthy fallback makes the whole chain truthy |
| AgentLog.BuildAgentLog | backend/utils/misc.ts:57-77 | `ip` is `cf-connecting-ip` when that is truthy, else `x-forwarded-for` when that is truthy, else a non-empty `req.ip`, else `255.255.255.255`; `agent` is the four OS and browser fields joined by single spaces; `device` is present if and only if the vendor is a non-empty string, and is then vendor, model and type joined by single spaces |
| AgentLog.IpProvenance | backend/utils/misc.ts:61-65 | the logged `ip` is never `undefined` or the empty string; it is `255.255.255.255` or the value of a truthy header or `req.ip`; it is `255.255.255.255` only when all three are falsy or one of them holds that very text |
| AgentLog.SplitJoinSpaces | backend/utils/misc.ts:66 | joining space-free fields with single spaces and splitting at spaces gives the fields back |
| AgentLog.AgentFieldsRecoverable | backend/utils/misc.ts:66 | when no OS or browser field holds a space, splitting `agent` at spaces gives back the four fields in order |
| AgentLog.AgentAmbiguousWithSpaces | backend/utils/misc.ts:66 | once a name holds a space the field boundaries are lost: for any `x`, `y` and `v`, OS name `x y` with version `v` and OS name `x` with version `y v` are different parser results that give the same `agent` text |
| AgentLog.IpExamples | backend/utils/misc.ts:61-65 | a lone `x-forwarded-for: 1.2.3.4` gives that address; no headers and no `req.ip` give `255.255.255.255`; an empty-string `cf-connecting-ip` falls through to `req.ip`; an empty-array one is kept |

## Left out

- `roundTo2` (backend/utils/misc.ts:3-5): its meaning rests on binary floating point and `Number.EPSILON`, which exact reals do not have.
- `kogasa` (backend/utils/misc.ts:30-34): it is built on `Math.tanh` and floating-point powers, which have no exact counterpart here.
- `identity` (backend/utils/misc.ts:36-41): it relies on runtime reflection through `Object.prototype.toString`. With its declared `string` parameter it always returns `"string"`.
- `base64UrlEncode` and `base64UrlDecode` (backend/utils/misc.ts:43-49): they are thin wrappers over Node's `Buffer`. Modelling them would model the library, not this code.
- `stdDev` on an empty array (backend/utils/misc.ts:11-13): the first `reduce` throws a `TypeError` and, unlike in `mean`, nothing catches it. The exception is not modelled, so `VarianceRadicand` requires a non-empty sequence.
- The `Math.sqrt` in `stdDev` (backend/utils/misc.ts:14): Dafny has no square root over `real`, so only the radicand is modelled.
- The `ua-parser-js` call (backend/utils/misc.ts:58): the parser is an external library. `BuildAgentLog` takes its result as the parameter `ua`.
- The HTTP request object: only the header map and `req.ip` are modelled. `req.ip` is optional, to allow for `undefined`.
- Floating-point behaviour of `mean` and `stdDev`: rounding, the operand order of additions, `NaN`, infinities, and non-number array elements.
- Full regular-expression matching: the literal-pattern matcher used by `EscapeMatchesExactly` covers only literal characters and backslash-escaped metacharacters, the only kind of pattern `escapeRegExp` produces. Operators and other escapes, such as the class escape `\d`, match nothing in it.
- Regular-expression flags such as `i` (case-insensitive) and `m`: the model matches characters exactly, with no flags. Unanchored search is modelled only as `SearchMatches`, with no match positions or captures.
- UTF-16 code units: JavaScript strings are sequences of UTF-16 code units, while a Dafny `char` is a Unicode scalar value, so a string holding a lone surrogate has no counterpart here. Nothing modelled depends on this: the metacharacters and the space are ASCII, and every other character is copied unchanged.
