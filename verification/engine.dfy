/** The matching engine the facade dispatches into. Its modules (prefilter,
    optimal and greedy aligners, single-character substring paths, score
    model, scratch matrix) are not part of this model, so each entry point is
    a field of `Engine` holding an arbitrary function. The facade's guard
    and route properties hold whatever those functions compute. */
module Engine {
  import opened Optional
  import opened Utf32

  /** The scoring weights and case-matching mode; consumed, never inspected
      by the facade. */
  type MatcherConfig(!new)

  /** What a scoring call hands back: the score, if any, and the caller's
      index buffer as the call leaves it. */
  datatype ScoreAndIndices = ScoreAndIndices(score: Option<u16>, indices: seq<u32>)

  /** Every collaborator takes the matcher's configuration first. The `bool`
      of the prefilters is the greedy flag; the `bool` of the scoring paths
      is the request for indices, followed by the buffer they are written to.
      - prefilterAscii(config, haystack, needle, greedy) gives
        (start, greedy_end, end) or rejects the pair;
      - prefilterNonAscii(config, haystack, needle, greedy) gives
        (start, end) or rejects the pair;
      - substring1Ascii(config, haystack, needle char, ...) scores a
        one-byte needle and may find nothing;
      - substring1NonAscii(config, haystack, needle char, start, ...) scores
        a one-character needle from `start` and always yields a score;
      - optimal(config, haystack, needle, start, greedy_end, end, ...) is
        the dynamic-programming aligner;
      - greedy(config, haystack, needle, start, greedy_end, ...) is the
        greedy aligner. */
  datatype Engine = Engine(
    prefilterAscii: (MatcherConfig, seq<bv8>, seq<bv8>, bool) -> Option<(nat, nat, nat)>,
    prefilterNonAscii: (MatcherConfig, seq<char>, Utf32Str, bool) -> Option<(nat, nat)>,
    substring1Ascii: (MatcherConfig, seq<bv8>, bv8, bool, seq<u32>) -> ScoreAndIndices,
    substring1NonAscii: (MatcherConfig, seq<char>, char, nat, bool, seq<u32>) -> (u16, seq<u32>),
    optimal: (MatcherConfig, Utf32Str, Utf32Str, nat, nat, nat, bool, seq<u32>) -> ScoreAndIndices,
    greedy: (MatcherConfig, Utf32Str, Utf32Str, nat, nat, bool, seq<u32>) -> ScoreAndIndices
  )
}
