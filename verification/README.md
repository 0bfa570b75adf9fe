# nucleo `Matcher` facade, modelled in Dafny

nucleo is a fuzzy-matching engine: given a needle (the query) and a haystack
(a candidate string), it decides whether the needle occurs in the haystack as
an in-order subsequence and scores the match, optionally reporting the matched
positions. This project models the `Matcher` facade of `src/lib.rs`, the
entry layer every caller goes through. It models:

- the guards that answer "no match" without doing any work: an empty needle,
  or a needle longer than the haystack;
- the `u32::MAX` bound on the haystack length;
- the dispatch on the pair of text representations. Each string is either
  packed ASCII bytes (`Ascii`) or full code points (`Unicode`), giving four
  cases;
- the single-character shortcut of the optimal entry points;
- the propagation of a prefilter rejection;
- the search window handed to each aligner.

The engine behind the facade is not part of this model. That means the
prefilter, the optimal and greedy aligners, the single-character substring
paths, the score model and the scratch matrix. Each of its entry points is a
function-valued field of `Engine.Engine`. Every entry point of the facade
takes such an engine as a parameter. The guard and route properties below
hold for every engine. The three score-agreement lemmas
(`OptimalScoreIgnoresIndexRequest`, `GreedyScoreIgnoresIndexRequest`,
`ScoreOnlyAgreesWithIndexed`) assume an engine whose scores do not depend on
the index request (`IndexRequestNeutral`).

Modules:

- `Optional` (`optional.dfy`): `Option`, the absent-or-present result.
- `Utf32` (`utf32_str.dfy`): `Utf32Str = Ascii(seq<bv8>) | Unicode(seq<char>)`.
  It also holds the `u16` score type, the `u32` index type and `U32_MAX`,
  plus the code-point reading of a string (`Text`, `Widen`, `ByteToChar`).
- `Engine` (`engine.dfy`): the configuration type, the `ScoreAndIndices`
  a scoring call returns (score and index buffer), and `Engine`.
- `Matcher` (`matcher.dfy`): the facade. It has `New`, the four public entry
  points and the two dispatch functions.
- `MatcherProperties` (`matcher_properties.dfy`): one lemma per dispatch
  path, the guard lemmas, and the lemmas showing that the longer-needle
  guard and the ASCII-haystack / code-point-needle rejection are sound.

The index buffer (`&mut Vec<u32>`) is a value threaded through the model. It
goes in as `buf`, and `ScoreAndIndices.indices` is the buffer as the call leaves it.
So "the facade answered on its own" shows up as "the buffer came back
untouched". "No other collaborator is consulted" is stated a different way:
swap every other field of the engine for an arbitrary one, and the outcome
stays the same.

Three details of the source that the model reproduces:

- A one-character needle against a code-point haystack still runs the
  non-ASCII prefilter in greedy mode, and the scan starts at its `start`
  (`src/lib.rs:90-98`, `src/lib.rs:111-115`).
- In the dispatch functions the length `assert!` comes after the guards
  (`src/lib.rs:59-68`, `src/lib.rs:154-163`). So `FuzzyMatcherImpl` and
  `FuzzyMatchGreedyImpl` only demand the bound of pairs that pass the guards.
  The public entry points demand it of every call.
- The equal-length exact-match branch is commented out
  (`src/lib.rs:62-64`), so it is not modelled.

## Model

| member | source | states |
|---|---|---|
| Utf32.ByteToChar | src/lib.rs:90-95 | The `as char` cast of the needle's only byte gives the code point with the same value as the byte. |
| Utf32.Widen | src/lib.rs:84-88 | The code-point reading of a byte string, used to read an ASCII haystack as code points: one char per byte with the byte's value, same length as the bytes. |
| Matcher.New | src/lib.rs:31-36 | A new matcher holds exactly the configuration it was given. |
| Matcher.FuzzyMatch | src/lib.rs:38-41 | Requires haystack length <= 2^32-1. An empty needle, a needle longer than the haystack, or a code-point needle against an ASCII haystack has no score. |
| Matcher.FuzzyIndices | src/lib.rs:43-51 | Requires haystack length <= 2^32-1. An empty or over-long needle, or a code-point needle against an ASCII haystack, returns no score and leaves the caller's buffer untouched. |
| Matcher.FuzzyMatcherImpl | src/lib.rs:53-128 | The length bound is needed only once the guards pass. Guard failures and ASCII-haystack/code-point-needle pairs give no score and an unchanged buffer. A prefilter rejection gives no score and an unchanged buffer. For a multi-byte ASCII pair that is the non-greedy ASCII prefilter; for a code-point haystack it is the non-ASCII prefilter, in greedy mode exactly when the needle has one character. Once that prefilter admits a one-character needle against a code-point haystack, a score is always returned. |
| Matcher.FuzzyMatchGreedy | src/lib.rs:129-136 | Requires haystack length <= 2^32-1. An empty or over-long needle, or a code-point needle against an ASCII haystack, has no score. |
| Matcher.FuzzyIndicesGreedy | src/lib.rs:138-146 | Requires haystack length <= 2^32-1. An empty or over-long needle, or a code-point needle against an ASCII haystack, returns no score and an untouched buffer. |
| Matcher.FuzzyMatchGreedyImpl | src/lib.rs:148-201 | The length bound is needed only past the guards. Guard failures and incompatible pairs give no score and an unchanged buffer. If the greedy-mode prefilter rejects the pair, the result is no score and an unchanged buffer, for both an ASCII pair and a code-point haystack. |
| MatcherProperties.EmptyNeedleIsNone | src/lib.rs:59-61 | An empty needle gives no match in all four public entry points (the greedy guard is `src/lib.rs:154-156`). The indexed variants return the buffer unchanged. |
| MatcherProperties.LongerNeedleIsNone | src/lib.rs:59-61 | A needle longer than the haystack gives no match in all four public entry points (greedy guard at `src/lib.rs:154-156`). The buffer is unchanged. |
| MatcherProperties.LongerNeedleCannotEmbed | src/lib.rs:59-61 | This justifies the longer-needle guard. A needle with more characters than the haystack has no strictly increasing positions in the haystack that spell it out. |
| MatcherProperties.AbcdInAbcIsNone | src/lib.rs:59-61 | Haystack "abc" with needle "abcd" gives no match in both the optimal and the greedy entry, for every engine. |
| MatcherProperties.FacadeAnswersAlone | src/lib.rs:59-88 | Covers guard failures and an ASCII haystack with a code-point needle (also `src/lib.rs:175-179`). Both dispatch functions return no score and the buffer unchanged. Any two engines give identical outcomes, so no collaborator is consulted. |
| MatcherProperties.AsciiHaystackCannotHoldUnicodeNeedle | src/lib.rs:84-88 | This justifies the unconditional rejection. Take a valid ASCII haystack and a valid code-point needle, which holds a non-ASCII code point. No strictly increasing positions in the haystack spell out the needle under exact code-point equality. |
| MatcherProperties.OptimalSingleAsciiRoute | src/lib.rs:70-73 | For an ASCII pair with a one-byte needle, the result is exactly the single-byte substring path applied to that byte, with the caller's index request and buffer. Swapping every other collaborator changes nothing, so no prefilter runs. |
| MatcherProperties.OptimalSingleUnicodeRoute | src/lib.rs:89-115 | For a code-point haystack and a one-character needle in either form, the non-ASCII prefilter runs in greedy mode. A rejection gives no score and an untouched buffer. Otherwise the result is always `Some` of the single-character path's score. That path gets the needle's one code point and the prefilter's `start`. Only those two collaborators matter. |
| MatcherProperties.OptimalMultiAsciiRoute | src/lib.rs:74-82 | For an ASCII pair with a needle of two or more bytes, the ASCII prefilter runs in non-greedy mode. A rejection gives no score. Otherwise the optimal aligner gets the prefilter's `(start, greedy_end, end)` unchanged. Only those two collaborators matter. |
| MatcherProperties.OptimalMultiUnicodeRoute | src/lib.rs:100-125 | For a code-point haystack with a needle of two or more characters, in either form, the non-ASCII prefilter runs in non-greedy mode. A rejection gives no score. Otherwise the optimal aligner gets `(start, start + 1, end)` from the prefilter's `(start, end)`. Only those two collaborators matter. |
| MatcherProperties.GreedyAsciiRoute | src/lib.rs:164-174 | For an ASCII pair, including a one-byte needle (no shortcut), the ASCII prefilter runs in greedy mode. A rejection gives no score. Otherwise the greedy aligner gets its `(start, greedy_end)`. Only those two collaborators matter. |
| MatcherProperties.GreedyUnicodeRoute | src/lib.rs:180-199 | For a code-point haystack, the non-ASCII prefilter runs in greedy mode. A rejection gives no score. Otherwise the greedy aligner gets `(start, start + 1)`. Only those two collaborators matter. |
| MatcherProperties.OptimalScoreIgnoresIndexRequest | src/lib.rs:53-128 | Assume an engine whose scores do not depend on the index request or on the buffer. Then the optimal dispatch gives the same score with indices requested and any buffer as with no request and an empty buffer, on every path. |
| MatcherProperties.GreedyScoreIgnoresIndexRequest | src/lib.rs:148-201 | Under the same assumption about the engine, the greedy dispatch gives the same score with and without the index request. |
| MatcherProperties.ScoreOnlyAgreesWithIndexed | src/lib.rs:38-51 | Assume an engine whose scores do not depend on the index request or on the buffer. Then the score-only entries report the same score as the indexed ones, for any caller buffer, for both the optimal and the greedy pair (`src/lib.rs:129-146`). That the score-only entries are the dispatch with no index request and a fresh empty buffer is how `FuzzyMatch` and `FuzzyMatchGreedy` are defined, not part of this lemma's contract. |

## Left out

- The engine's internals: prefilter, optimal and greedy aligners,
  single-character substring paths, score model and character classification.
  Their source is not part of this model. They are arbitrary functions here,
  so no claim is made about scores, windows or matched positions.
- The optimality bound (greedy score <= optimal score) and the shape of the
  returned indices. Both are properties of the aligners, which are not
  modelled.
- The `MatrixSlab` scratch arena owned by the matcher. It is memory reuse
  with no behaviour visible from the facade.
- What the engine writes into the index buffer. The facade only hands the
  buffer on, and the model threads it through unchanged.
- The `debug` and `tests` modules. They are compiled for tests only.
- The panic raised by the length `assert!`. It is modelled as a
  precondition.
- The width of window positions. The prefilter's return type is not part of
  this model, so `start`, `greedy_end` and `end` are unbounded naturals, and
  `start + 1` cannot overflow here. A prefilter whose `start` lies inside the
  haystack keeps it within `u32` anyway.
- How text is classified into its two forms. `Utf32Str.Valid` states the
  invariant that classification is taken to establish. It is assumed only by
  `AsciiHaystackCannotHoldUnicodeNeedle`.
- MatcherProperties.AsciiHaystackCannotHoldUnicodeNeedle: stated for exact
  code-point equality only. Case folding belongs to the configuration and
  character layers, which are not modelled.
