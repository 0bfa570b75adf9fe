/** What the facade promises, path by path: when it answers without the
    engine, which collaborator it consults otherwise, with which arguments,
    and that no other collaborator has a say in the result. "No say" is
    stated by swapping every other collaborator for an arbitrary one taken
    from a second engine `other` and getting the same outcome back. */
module MatcherProperties {
  import opened Optional
  import opened Utf32
  import opened Engine
  import opened Matcher

  /** Exact containment: the needle's code points occur in the haystack, in
      order, at the strictly increasing positions `idx`. */
  ghost predicate Embeds(haystack: seq<char>, needle: seq<char>, idx: seq<nat>) {
    && |idx| == |needle|
    && (forall k :: 0 <= k < |idx| ==> idx[k] < |haystack| && haystack[idx[k]] == needle[k])
    && (forall k :: 0 < k < |idx| ==> idx[k - 1] < idx[k])
  }

  /** The guards answer "no match" in all four entry points. */
  lemma EmptyNeedleIsNone(e: Engine, m: Matcher, haystack: Utf32Str, needle: Utf32Str, buf: seq<u32>)
    requires haystack.Len() <= U32_MAX
    requires needle.IsEmpty()
    ensures FuzzyMatch(e, m, haystack, needle) == None
    ensures FuzzyIndices(e, m, haystack, needle, buf) == ScoreAndIndices(None, buf)
    ensures FuzzyMatchGreedy(e, m, haystack, needle) == None
    ensures FuzzyIndicesGreedy(e, m, haystack, needle, buf) == ScoreAndIndices(None, buf)
  {
  }

  lemma LongerNeedleIsNone(e: Engine, m: Matcher, haystack: Utf32Str, needle: Utf32Str, buf: seq<u32>)
    requires haystack.Len() <= U32_MAX
    requires needle.Len() > haystack.Len()
    ensures FuzzyMatch(e, m, haystack, needle) == None
    ensures FuzzyIndices(e, m, haystack, needle, buf) == ScoreAndIndices(None, buf)
    ensures FuzzyMatchGreedy(e, m, haystack, needle) == None
    ensures FuzzyIndicesGreedy(e, m, haystack, needle, buf) == ScoreAndIndices(None, buf)
  {
  }

  /** Haystack "abc", needle "abcd": no match, whatever the engine. */
  lemma AbcdInAbcIsNone(e: Engine, m: Matcher)
    ensures FuzzyMatch(e, m, Ascii([0x61, 0x62, 0x63]), Ascii([0x61, 0x62, 0x63, 0x64])) == None
    ensures FuzzyMatchGreedy(e, m, Ascii([0x61, 0x62, 0x63]), Ascii([0x61, 0x62, 0x63, 0x64])) == None
  {
  }

  /** When the facade answers on its own (guards, or an ASCII haystack with a
      code-point needle), no collaborator is consulted: any two engines give
      the same outcome, and the buffer comes back untouched. */
  lemma FacadeAnswersAlone(e: Engine, other: Engine, m: Matcher, haystack: Utf32Str, needle: Utf32Str,
                           indices: bool, buf: seq<u32>)
    requires Rejected(haystack, needle) || (Incompatible(haystack, needle) && haystack.Len() <= U32_MAX)
    ensures FuzzyMatcherImpl(e, m, haystack, needle, indices, buf) == ScoreAndIndices(None, buf)
    ensures FuzzyMatcherImpl(other, m, haystack, needle, indices, buf)
         == FuzzyMatcherImpl(e, m, haystack, needle, indices, buf)
    ensures FuzzyMatchGreedyImpl(e, m, haystack, needle, indices, buf) == ScoreAndIndices(None, buf)
    ensures FuzzyMatchGreedyImpl(other, m, haystack, needle, indices, buf)
         == FuzzyMatchGreedyImpl(e, m, haystack, needle, indices, buf)
  {
  }

  /** Why the ASCII-haystack / code-point-needle answer loses nothing: a
      needle that holds a non-ASCII code point never occurs, in order, in an
      all-ASCII haystack under exact code-point equality. */
  lemma AsciiHaystackCannotHoldUnicodeNeedle(haystack: Utf32Str, needle: Utf32Str, idx: seq<nat>)
    requires haystack.Ascii? && haystack.Valid()
    requires needle.Unicode? && needle.Valid()
    ensures !Embeds(haystack.Text(), needle.Text(), idx)
  {
    var k :| 0 <= k < |needle.chars| && needle.chars[k] as int >= 0x80;
    assert needle.Text()[k] as int >= 0x80;
  }

  /** Strictly increasing positions start no lower than their own rank. */
  lemma {:induction false} IncreasingPositionBound(idx: seq<nat>, k: nat)
    requires forall j :: 0 < j < |idx| ==> idx[j - 1] < idx[j]
    requires k < |idx|
    ensures k <= idx[k]
    decreases k
  {
    if k > 0 {
      IncreasingPositionBound(idx, k - 1);
    }
  }

  /** Why the longer-needle guard loses nothing: a needle with more
      characters than the haystack never occurs in it, in order. */
  lemma LongerNeedleCannotEmbed(haystack: Utf32Str, needle: Utf32Str, idx: seq<nat>)
    requires needle.Len() > haystack.Len()
    ensures !Embeds(haystack.Text(), needle.Text(), idx)
  {
    if Embeds(haystack.Text(), needle.Text(), idx) {
      IncreasingPositionBound(idx, |idx| - 1);
    }
  }

  /** Optimal entry, ASCII pair, one-byte needle: the result is the
      single-byte substring path's, on the needle's only byte; no prefilter
      and no aligner runs. */
  lemma OptimalSingleAsciiRoute(e: Engine, other: Engine, m: Matcher, haystack: Utf32Str, needle: Utf32Str,
                                indices: bool, buf: seq<u32>)
    requires haystack.Len() <= U32_MAX
    requires haystack.Ascii? && needle.Ascii? && needle.Len() == 1 <= haystack.Len()
    ensures FuzzyMatcherImpl(e, m, haystack, needle, indices, buf)
         == e.substring1Ascii(m.config, haystack.bytes, needle.bytes[0], indices, buf)
    ensures FuzzyMatcherImpl(other.(substring1Ascii := e.substring1Ascii), m, haystack, needle, indices, buf)
         == FuzzyMatcherImpl(e, m, haystack, needle, indices, buf)
  {
  }

  /** Optimal entry, code-point haystack, one-character needle (either
      representation): the prefilter runs in greedy mode; if it admits the
      pair, the single-character path scores the needle's one code point
      from the prefilter's start, and the call always yields that score. */
  lemma OptimalSingleUnicodeRoute(e: Engine, other: Engine, m: Matcher, haystack: Utf32Str, needle: Utf32Str,
                                  indices: bool, buf: seq<u32>)
    requires haystack.Len() <= U32_MAX
    requires haystack.Unicode? && needle.Len() == 1 <= haystack.Len()
    ensures FuzzyMatcherImpl(e, m, haystack, needle, indices, buf)
         == match e.prefilterNonAscii(m.config, haystack.chars, needle, true)
            case None => ScoreAndIndices(None, buf)
            case Some(w) =>
              var (score, buf') := e.substring1NonAscii(m.config, haystack.chars, needle.Text()[0], w.0, indices, buf);
              ScoreAndIndices(Some(score), buf')
    ensures FuzzyMatcherImpl(other.(prefilterNonAscii := e.prefilterNonAscii, substring1NonAscii := e.substring1NonAscii),
                             m, haystack, needle, indices, buf)
         == FuzzyMatcherImpl(e, m, haystack, needle, indices, buf)
  {
  }

  /** Optimal entry, ASCII pair, longer needle: the prefilter runs in
      non-greedy mode and its (start, greedy_end, end) window reaches the
      optimal aligner unchanged. */
  lemma OptimalMultiAsciiRoute(e: Engine, other: Engine, m: Matcher, haystack: Utf32Str, needle: Utf32Str,
                               indices: bool, buf: seq<u32>)
    requires haystack.Len() <= U32_MAX
    requires haystack.Ascii? && needle.Ascii? && 2 <= needle.Len() <= haystack.Len()
    ensures FuzzyMatcherImpl(e, m, haystack, needle, indices, buf)
         == match e.prefilterAscii(m.config, haystack.bytes, needle.bytes, false)
            case None => ScoreAndIndices(None, buf)
            case Some(w) => e.optimal(m.config, haystack, needle, w.0, w.1, w.2, indices, buf)
    ensures FuzzyMatcherImpl(other.(prefilterAscii := e.prefilterAscii, optimal := e.optimal),
                             m, haystack, needle, indices, buf)
         == FuzzyMatcherImpl(e, m, haystack, needle, indices, buf)
  {
  }

  /** Optimal entry, code-point haystack, longer needle: the prefilter runs
      in non-greedy mode and the aligner gets the window (start, start + 1,
      end) built from the prefilter's (start, end). */
  lemma OptimalMultiUnicodeRoute(e: Engine, other: Engine, m: Matcher, haystack: Utf32Str, needle: Utf32Str,
                                 indices: bool, buf: seq<u32>)
    requires haystack.Len() <= U32_MAX
    requires haystack.Unicode? && 2 <= needle.Len() <= haystack.Len()
    ensures FuzzyMatcherImpl(e, m, haystack, needle, indices, buf)
         == match e.prefilterNonAscii(m.config, haystack.chars, needle, false)
            case None => ScoreAndIndices(None, buf)
            case Some(w) => e.optimal(m.config, haystack, needle, w.0, w.0 + 1, w.1, indices, buf)
    ensures FuzzyMatcherImpl(other.(prefilterNonAscii := e.prefilterNonAscii, optimal := e.optimal),
                             m, haystack, needle, indices, buf)
         == FuzzyMatcherImpl(e, m, haystack, needle, indices, buf)
  {
  }

  /** Greedy entry, ASCII pair, any admissible needle (a single byte gets no
      shortcut): the prefilter runs in greedy mode and the greedy aligner
      gets its (start, greedy_end). */
  lemma GreedyAsciiRoute(e: Engine, other: Engine, m: Matcher, haystack: Utf32Str, needle: Utf32Str,
                         indices: bool, buf: seq<u32>)
    requires haystack.Len() <= U32_MAX
    requires haystack.Ascii? && needle.Ascii? && 1 <= needle.Len() <= haystack.Len()
    ensures FuzzyMatchGreedyImpl(e, m, haystack, needle, indices, buf)
         == match e.prefilterAscii(m.config, haystack.bytes, needle.bytes, true)
            case None => ScoreAndIndices(None, buf)
            case Some(w) => e.greedy(m.config, haystack, needle, w.0, w.1, indices, buf)
    ensures FuzzyMatchGreedyImpl(other.(prefilterAscii := e.prefilterAscii, greedy := e.greedy),
                                 m, haystack, needle, indices, buf)
         == FuzzyMatchGreedyImpl(e, m, haystack, needle, indices, buf)
  {
  }

  /** Greedy entry, code-point haystack: the prefilter runs in greedy mode
      and the greedy aligner gets (start, start + 1). */
  lemma GreedyUnicodeRoute(e: Engine, other: Engine, m: Matcher, haystack: Utf32Str, needle: Utf32Str,
                           indices: bool, buf: seq<u32>)
    requires haystack.Len() <= U32_MAX
    requires haystack.Unicode? && 1 <= needle.Len() <= haystack.Len()
    ensures FuzzyMatchGreedyImpl(e, m, haystack, needle, indices, buf)
         == match e.prefilterNonAscii(m.config, haystack.chars, needle, true)
            case None => ScoreAndIndices(None, buf)
            case Some(w) => e.greedy(m.config, haystack, needle, w.0, w.0 + 1, indices, buf)
    ensures FuzzyMatchGreedyImpl(other.(prefilterNonAscii := e.prefilterNonAscii, greedy := e.greedy),
                                 m, haystack, needle, indices, buf)
         == FuzzyMatchGreedyImpl(e, m, haystack, needle, indices, buf)
  {
  }

  /** The engine scores a pair the same whether or not positions are
      collected, and whatever the buffer held. */
  ghost predicate IndexRequestNeutral(e: Engine) {
    && (forall c, h, n, i, b :: e.substring1Ascii(c, h, n, i, b).score == e.substring1Ascii(c, h, n, false, []).score)
    && (forall c, h, n, s, i, b :: e.substring1NonAscii(c, h, n, s, i, b).0 == e.substring1NonAscii(c, h, n, s, false, []).0)
    && (forall c, h, n, s, g, t, i, b ::
          e.optimal(c, h, n, s, g, t, i, b).score == e.optimal(c, h, n, s, g, t, false, []).score)
    && (forall c, h, n, s, g, i, b :: e.greedy(c, h, n, s, g, i, b).score == e.greedy(c, h, n, s, g, false, []).score)
  }

  /** One instance of the neutrality of the single-byte path. */
  lemma Substring1AsciiNeutral(e: Engine, c: MatcherConfig, h: seq<bv8>, x: bv8, buf: seq<u32>)
    requires IndexRequestNeutral(e)
    ensures e.substring1Ascii(c, h, x, true, buf).score == e.substring1Ascii(c, h, x, false, []).score
  {
  }

  /** The optimal dispatch reports the same score with and without the
      index request, for an engine that is neutral to it. */
  lemma OptimalScoreIgnoresIndexRequest(e: Engine, m: Matcher, haystack: Utf32Str, needle: Utf32Str, buf: seq<u32>)
    requires Rejected(haystack, needle) || haystack.Len() <= U32_MAX
    requires IndexRequestNeutral(e)
    ensures FuzzyMatcherImpl(e, m, haystack, needle, true, buf).score
         == FuzzyMatcherImpl(e, m, haystack, needle, false, []).score
  {
    if !Rejected(haystack, needle) {
      var c := m.config;
      match (haystack, needle)
      case (Ascii(h), Ascii(n)) =>
        if |n| == 1 {
          Substring1AsciiNeutral(e, c, h, n[0], buf);
        } else if w :| e.prefilterAscii(c, h, n, false) == Some(w) {
          assert e.optimal(c, haystack, needle, w.0, w.1, w.2, true, buf).score
              == e.optimal(c, haystack, needle, w.0, w.1, w.2, false, []).score;
        }
      case (Ascii(_), Unicode(_)) =>
      case (Unicode(h), _) =>
        var single := needle.Len() == 1;
        if w :| e.prefilterNonAscii(c, h, needle, single) == Some(w) {
          if single {
            var ch := if needle.Ascii? then ByteToChar(needle.bytes[0]) else needle.chars[0];
            assert e.substring1NonAscii(c, h, ch, w.0, true, buf).0 == e.substring1NonAscii(c, h, ch, w.0, false, []).0;
          } else {
            assert e.optimal(c, haystack, needle, w.0, w.0 + 1, w.1, true, buf).score
                == e.optimal(c, haystack, needle, w.0, w.0 + 1, w.1, false, []).score;
          }
        }
    }
  }

  /** The greedy dispatch reports the same score with and without the index
      request, for an engine that is neutral to it. */
  lemma GreedyScoreIgnoresIndexRequest(e: Engine, m: Matcher, haystack: Utf32Str, needle: Utf32Str, buf: seq<u32>)
    requires Rejected(haystack, needle) || haystack.Len() <= U32_MAX
    requires IndexRequestNeutral(e)
    ensures FuzzyMatchGreedyImpl(e, m, haystack, needle, true, buf).score
         == FuzzyMatchGreedyImpl(e, m, haystack, needle, false, []).score
  {
    if !Rejected(haystack, needle) {
      var c := m.config;
      match (haystack, needle)
      case (Ascii(h), Ascii(n)) =>
        if w :| e.prefilterAscii(c, h, n, true) == Some(w) {
          assert e.greedy(c, haystack, needle, w.0, w.1, true, buf).score
              == e.greedy(c, haystack, needle, w.0, w.1, false, []).score;
        }
      case (Ascii(_), Unicode(_)) =>
      case (Unicode(h), _) =>
        if w :| e.prefilterNonAscii(c, h, needle, true) == Some(w) {
          assert e.greedy(c, haystack, needle, w.0, w.0 + 1, true, buf).score
              == e.greedy(c, haystack, needle, w.0, w.0 + 1, false, []).score;
        }
    }
  }

  /** The score-only entry points are the index-collecting dispatch run with
      no request and a fresh buffer; for an engine whose scores do not depend
      on that request they report the same score as the indexed ones. */
  lemma ScoreOnlyAgreesWithIndexed(e: Engine, m: Matcher, haystack: Utf32Str, needle: Utf32Str, buf: seq<u32>)
    requires haystack.Len() <= U32_MAX
    requires IndexRequestNeutral(e)
    ensures FuzzyMatch(e, m, haystack, needle) == FuzzyIndices(e, m, haystack, needle, buf).score
    ensures FuzzyMatchGreedy(e, m, haystack, needle) == FuzzyIndicesGreedy(e, m, haystack, needle, buf).score
  {
    OptimalScoreIgnoresIndexRequest(e, m, haystack, needle, buf);
    GreedyScoreIgnoresIndexRequest(e, m, haystack, needle, buf);
  }
}
