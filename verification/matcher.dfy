/** The `Matcher` facade: it rejects needle/haystack pairs that cannot match,
    then picks, from the representations of the two strings and the needle's
    length, which prefilter and which scoring path of the engine to run and
    with which search window.

    `indices` is the compile-time request for matched positions; a call that
    does not request them starts from a fresh empty buffer. Every entry point
    returns the caller's buffer as the engine left it, or untouched when the
    facade answers on its own. */
module Matcher {
  import opened Optional
  import opened Utf32
  import opened Engine

  /** The matcher owns its configuration (and, outside this model, a scratch
      matrix reused across calls). */
  datatype Matcher = Matcher(config: MatcherConfig)

  function New(config: MatcherConfig): (m: Matcher)
    ensures m.config == config
  {
    Matcher(config)
  }

  /** The guard both implementations start with: an empty needle, or one
      longer than the haystack, has no match. */
  predicate Rejected(haystack: Utf32Str, needle: Utf32Str) {
    needle.Len() > haystack.Len() || needle.IsEmpty()
  }

  /** An all-ASCII haystack cannot contain a needle that needs the full
      code-point form. */
  predicate Incompatible(haystack: Utf32Str, needle: Utf32Str) {
    haystack.Ascii? && needle.Unicode?
  }

  /** Score with the optimal aligner. */
  function FuzzyMatch(e: Engine, m: Matcher, haystack: Utf32Str, needle: Utf32Str): (r: Option<u16>)
    requires haystack.Len() <= U32_MAX
    ensures Rejected(haystack, needle) || Incompatible(haystack, needle) ==> r == None
  {
    FuzzyMatcherImpl(e, m, haystack, needle, false, []).score
  }

  /** Score with the optimal aligner and collect the matched positions. */
  function FuzzyIndices(e: Engine, m: Matcher, haystack: Utf32Str, needle: Utf32Str, buf: seq<u32>): (r: ScoreAndIndices)
    requires haystack.Len() <= U32_MAX
    ensures Rejected(haystack, needle) || Incompatible(haystack, needle) ==> r == ScoreAndIndices(None, buf)
  {
    FuzzyMatcherImpl(e, m, haystack, needle, true, buf)
  }

  /** The dispatch of the optimal entry points. The length bound is only
      demanded once the guard has let the pair through. A single-character
      needle skips the aligner; the prefilter then runs in greedy mode, and
      only for a code-point haystack. */
  function FuzzyMatcherImpl(e: Engine, m: Matcher, haystack: Utf32Str, needle: Utf32Str,
                            indices: bool, buf: seq<u32>): (r: ScoreAndIndices)
    requires Rejected(haystack, needle) || haystack.Len() <= U32_MAX
    ensures Rejected(haystack, needle) || Incompatible(haystack, needle) ==> r == ScoreAndIndices(None, buf)
    // a prefilter that rejects the pair ends the call with no match
    ensures !Rejected(haystack, needle) && haystack.Ascii? && needle.Ascii? && needle.Len() != 1
            && e.prefilterAscii(m.config, haystack.bytes, needle.bytes, false).None?
            ==> r == ScoreAndIndices(None, buf)
    ensures !Rejected(haystack, needle) && haystack.Unicode?
            && e.prefilterNonAscii(m.config, haystack.chars, needle, needle.Len() == 1).None?
            ==> r == ScoreAndIndices(None, buf)
    // past the prefilter, a one-character needle always scores
    ensures !Rejected(haystack, needle) && haystack.Unicode? && needle.Len() == 1
            && e.prefilterNonAscii(m.config, haystack.chars, needle, true).Some?
            ==> r.score.Some?
  {
    if Rejected(haystack, needle) then
      ScoreAndIndices(None, buf)
    else
      match (haystack, needle)
      case (Ascii(h), Ascii(n)) =>
        if |n| == 1 then
          e.substring1Ascii(m.config, h, n[0], indices, buf)
        else
          (match e.prefilterAscii(m.config, h, n, false)
          case None => ScoreAndIndices(None, buf)
          case Some((start, greedyEnd, end)) =>
            e.optimal(m.config, Ascii(h), Ascii(n), start, greedyEnd, end, indices, buf))
      case (Ascii(_), Unicode(_)) =>
        ScoreAndIndices(None, buf)
      case (Unicode(h), Ascii(n)) =>
        if |n| == 1 then
          (match e.prefilterNonAscii(m.config, h, needle, true)
          case None => ScoreAndIndices(None, buf)
          case Some((start, _)) =>
            var (score, buf') := e.substring1NonAscii(m.config, h, ByteToChar(n[0]), start, indices, buf);
            ScoreAndIndices(Some(score), buf'))
        else
          (match e.prefilterNonAscii(m.config, h, needle, false)
          case None => ScoreAndIndices(None, buf)
          case Some((start, end)) =>
            e.optimal(m.config, Unicode(h), Ascii(n), start, start + 1, end, indices, buf))
      case (Unicode(h), Unicode(n)) =>
        if |n| == 1 then
          (match e.prefilterNonAscii(m.config, h, needle, true)
          case None => ScoreAndIndices(None, buf)
          case Some((start, _)) =>
            var (score, buf') := e.substring1NonAscii(m.config, h, n[0], start, indices, buf);
            ScoreAndIndices(Some(score), buf'))
        else
          (match e.prefilterNonAscii(m.config, h, needle, false)
          case None => ScoreAndIndices(None, buf)
          case Some((start, end)) =>
            e.optimal(m.config, Unicode(h), Unicode(n), start, start + 1, end, indices, buf))
  }

  /** Score with the greedy aligner. */
  function FuzzyMatchGreedy(e: Engine, m: Matcher, haystack: Utf32Str, needle: Utf32Str): (r: Option<u16>)
    requires haystack.Len() <= U32_MAX
    ensures Rejected(haystack, needle) || Incompatible(haystack, needle) ==> r == None
  {
    FuzzyMatchGreedyImpl(e, m, haystack, needle, false, []).score
  }

  /** Score with the greedy aligner and collect the matched positions. */
  function FuzzyIndicesGreedy(e: Engine, m: Matcher, haystack: Utf32Str, needle: Utf32Str, buf: seq<u32>): (r: ScoreAndIndices)
    requires haystack.Len() <= U32_MAX
    ensures Rejected(haystack, needle) || Incompatible(haystack, needle) ==> r == ScoreAndIndices(None, buf)
  {
    FuzzyMatchGreedyImpl(e, m, haystack, needle, true, buf)
  }

  /** The dispatch of the greedy entry points: no single-character shortcut,
      and the prefilter always runs in greedy mode. */
  function FuzzyMatchGreedyImpl(e: Engine, m: Matcher, haystack: Utf32Str, needle: Utf32Str,
                                indices: bool, buf: seq<u32>): (r: ScoreAndIndices)
    requires Rejected(haystack, needle) || haystack.Len() <= U32_MAX
    ensures Rejected(haystack, needle) || Incompatible(haystack, needle) ==> r == ScoreAndIndices(None, buf)
    ensures !Rejected(haystack, needle) && haystack.Ascii? && needle.Ascii?
            && e.prefilterAscii(m.config, haystack.bytes, needle.bytes, true).None?
            ==> r == ScoreAndIndices(None, buf)
    ensures !Rejected(haystack, needle) && haystack.Unicode?
            && e.prefilterNonAscii(m.config, haystack.chars, needle, true).None?
            ==> r == ScoreAndIndices(None, buf)
  {
    if Rejected(haystack, needle) then
      ScoreAndIndices(None, buf)
    else
      match (haystack, needle)
      case (Ascii(h), Ascii(n)) =>
        (match e.prefilterAscii(m.config, h, n, true)
        case None => ScoreAndIndices(None, buf)
        case Some((start, greedyEnd, _)) =>
          e.greedy(m.config, Ascii(h), Ascii(n), start, greedyEnd, indices, buf))
      case (Ascii(_), Unicode(_)) =>
        ScoreAndIndices(None, buf)
      case (Unicode(h), Ascii(n)) =>
        (match e.prefilterNonAscii(m.config, h, needle, true)
        case None => ScoreAndIndices(None, buf)
        case Some((start, _)) =>
          e.greedy(m.config, Unicode(h), Ascii(n), start, start + 1, indices, buf))
      case (Unicode(h), Unicode(n)) =>
        (match e.prefilterNonAscii(m.config, h, needle, true)
        case None => ScoreAndIndices(None, buf)
        case Some((start, _)) =>
          e.greedy(m.config, Unicode(h), Unicode(n), start, start + 1, indices, buf))
  }
}
