/**
 * The confidence scorer of `src/prob.rs`: from the per-token log-probability
 * trace of a model response (`choices[0].logprobs.content`), the lowest
 * log-probability among the tokens of the generated patch, which lies between
 * the start sentinel (plus newline) and the end sentinel in the concatenated
 * token text; and up to two "perplexity beams", the response prefix with the
 * runner-up alternative substituted at the most uncertain tokens.
 *
 * JSON values become records whose absent or mistyped fields are `None`;
 * log-probabilities are reals. String offsets are counted in characters
 * where the source counts UTF-8 bytes: every offset compared lies on a
 * character boundary of the same string, so the comparisons agree.
 */
module Prob {
  import opened Wrappers
  import opened Text
  import Sorting

  /** `PERPLEXITY_BEAMS`: the search stops once `PERPLEXITY_BEAMS - 1` beams are held. */
  const PERPLEXITY_BEAMS: nat := 3

  /** One entry of `top_logprobs`. */
  datatype TopLogprob = TopLogprob(token: Option<string>, logprob: Option<real>)

  /** One entry of `logprobs.content`: `token`, `logprob`, `top_logprobs`. */
  datatype TokenRecord = TokenRecord(token: Option<string>, logprob: Option<real>, topLogprobs: Option<seq<TopLogprob>>)

  /** The scored range of offsets: from the end of `start + "\n"` to the start of `end`. */
  datatype Window = Window(start: nat, end: nat)

  /** A scored token: its weighted spread and its index. */
  datatype Score = Score(score: real, pos: nat)

  /** The loop state of `logprob`: the in-range minimum, the overall minimum, the scores. */
  datatype Scan = Scan(min: Option<real>, rawMin: Option<real>, scores: seq<Score>)

  /** What `logprob` returns, with the caller's beam vector after the call. */
  datatype Outcome = Outcome(confidence: Option<real>, perplexity: seq<string>)

  predicate HasTexts(c: seq<TokenRecord>)
  {
    forall i :: 0 <= i < |c| ==> c[i].token.Some?
  }

  /** The concatenated token texts. */
  function Texts(c: seq<TokenRecord>): string
    requires HasTexts(c)
  {
    if c == [] then "" else Texts(c[..|c| - 1]) + c[|c| - 1].token.value
  }

  /** The text of the tokens before token `i`. */
  function Prefix(c: seq<TokenRecord>, i: nat): string
    requires HasTexts(c) && i <= |c|
  {
    assert HasTexts(c[..i]) by { assert forall j :: 0 <= j < i ==> c[..i][j] == c[j]; }
    Texts(c[..i])
  }

  /** `str_offset` of token `i`. */
  function Offset(c: seq<TokenRecord>, i: nat): nat
    requires HasTexts(c) && i <= |c|
  {
    |Prefix(c, i)|
  }

  /** `if x < m { m = x }`, with `None` for the initial infinity. */
  function Lower(m: Option<real>, x: real): (r: real)
    ensures r <= x && (m.Some? ==> r <= m.value) && (r == x || (m.Some? && r == m.value))
  {
    if m.Some? && m.value <= x then m.value else x
  }

  /** `max(m, x)`, with `None` for the initial negative infinity. */
  function Higher(m: Option<real>, x: real): (r: real)
    ensures r >= x && (m.Some? ==> r >= m.value) && (r == x || (m.Some? && r == m.value))
  {
    if m.Some? && m.value >= x then m.value else x
  }

  /** The scored window, `None` when either sentinel is absent. */
  function PatchWindow(all: string, startSentinel: string, endSentinel: string): (w: Option<Window>)
    ensures w.Some? <==> Find(all, startSentinel + "\n").Some? && Find(all, endSentinel).Some?
    ensures w.Some? ==>
              w.value.start == Find(all, startSentinel + "\n").value + |startSentinel| + 1
              && w.value.end == Find(all, endSentinel).value
  {
    var s := Find(all, startSentinel + "\n");
    var e := Find(all, endSentinel);
    if s.None? || e.None? then None else Some(Window(s.value + |startSentinel| + 1, e.value))
  }

  /** Every token but an empty last one is looked at. */
  predicate Counted(c: seq<TokenRecord>, i: nat)
    requires HasTexts(c) && i < |c|
  {
    !(i == |c| - 1 && c[i].token.value == "")
  }

  predicate InWindow(c: seq<TokenRecord>, w: Window, i: nat)
    requires HasTexts(c) && i < |c|
  {
    Counted(c, i) && w.start <= Offset(c, i) < w.end
  }

  /** In range, with exactly two alternatives. */
  predicate Scored(c: seq<TokenRecord>, w: Window, i: nat)
    requires HasTexts(c) && i < |c|
  {
    InWindow(c, w, i) && c[i].topLogprobs.Some? && |c[i].topLogprobs.value| == 2
  }

  predicate TopsHaveLogprobs(tops: seq<TopLogprob>)
  {
    forall k :: 0 <= k < |tops| ==> tops[k].logprob.Some?
  }

  /** The lowest and highest alternative log-probability (`None`: no alternative yet). */
  function LowestTop(tops: seq<TopLogprob>): Option<real>
    requires TopsHaveLogprobs(tops)
  {
    if tops == [] then None else Some(Lower(LowestTop(tops[..|tops| - 1]), tops[|tops| - 1].logprob.value))
  }

  function HighestTop(tops: seq<TopLogprob>): Option<real>
    requires TopsHaveLogprobs(tops)
  {
    if tops == [] then None else Some(Higher(HighestTop(tops[..|tops| - 1]), tops[|tops| - 1].logprob.value))
  }

  /** `(max - min) * -max` over the alternatives. */
  function Spread(tops: seq<TopLogprob>): real
    requires tops != [] && TopsHaveLogprobs(tops)
  {
    (HighestTop(tops).value - LowestTop(tops).value) * -HighestTop(tops).value
  }

  /** One turn of the scoring loop of `logprob`; `None` where a `?` returns. */
  function ScanStep(c: seq<TokenRecord>, w: Window, i: nat, st: Scan): Option<Scan>
    requires HasTexts(c) && i < |c|
  {
    var t := c[i];
    if t.logprob.None? then None
    else if !Counted(c, i) then Some(st)
    else
      var lp := t.logprob.value;
      var raw := Some(Lower(st.rawMin, lp));
      if !InWindow(c, w, i) then Some(Scan(st.min, raw, st.scores))
      else if Scored(c, w, i) then
        if TopsHaveLogprobs(t.topLogprobs.value) then
          Some(Scan(Some(Lower(st.min, lp)), raw, st.scores + [Score(Spread(t.topLogprobs.value), i)]))
        else None
      else Some(Scan(Some(Lower(st.min, lp)), raw, st.scores))
  }

  /** The scoring loop over the first `n` tokens. */
  function ScanUpTo(c: seq<TokenRecord>, w: Window, n: nat): Option<Scan>
    requires HasTexts(c) && n <= |c|
  {
    if n == 0 then Some(Scan(None, None, []))
    else match ScanUpTo(c, w, n - 1)
      case None => None
      case Some(st) => ScanStep(c, w, n - 1, st)
  }

  /** The order of `sort_unstable_by(|a, b| b.0.total_cmp(&a.0))`: by descending score. */
  function ByScoreDesc(a: Score, b: Score): bool
  {
    a.score >= b.score
  }

  function Positions(s: seq<Score>): (r: seq<nat>)
    ensures |r| == |s| && forall k :: 0 <= k < |s| ==> r[k] == s[k].pos
  {
    if s == [] then [] else Positions(s[..|s| - 1]) + [s[|s| - 1].pos]
  }

  predicate EndsInWhitespace(s: string)
  {
    |s| > 0 && RustWhitespace(s[|s| - 1])
  }

  /** The first alternative whose text differs from the token's. */
  datatype Alternative = NoAlternative | Alternative(text: string) | MissingText

  function FirstDifferent(tops: seq<TopLogprob>, text: string): Alternative
  {
    if tops == [] then NoAlternative
    else if tops[0].token.None? then MissingText
    else if tops[0].token.value != text then Alternative(tops[0].token.value)
    else FirstDifferent(tops[1..], text)
  }

  /** `perplexity_search` from the `k`-th position on: whether it ran to `Some(())`, and the
      beam vector afterwards. */
  function SearchFrom(c: seq<TokenRecord>, order: seq<nat>, k: nat, beams: seq<string>): (bool, seq<string>)
    requires HasTexts(c) && k <= |order|
    decreases |order| - k
  {
    if k == |order| then (true, beams)
    else
      var pos := order[k];
      if pos >= |c| then (false, beams)
      else
        var text := c[pos].token.value;
        if EndsInWhitespace(text) || text == "" then SearchFrom(c, order, k + 1, beams)
        else if c[pos].topLogprobs.None? then (false, beams)
        else
          var alt := FirstDifferent(c[pos].topLogprobs.value, text);
          if alt.MissingText? then (false, beams)
          else
            var next := if alt.Alternative? && !EndsInWhitespace(alt.text)
              then beams + [Prefix(c, pos) + alt.text]
              else beams;
            if |next| >= PERPLEXITY_BEAMS - 1 then (true, next)
            else SearchFrom(c, order, k + 1, next)
  }

  /** `logprob(json, perplexity)`: the confidence and the beam vector afterwards. */
  function LogprobResult(content: Option<seq<TokenRecord>>, startSentinel: string, endSentinel: string,
                   perplexity: seq<string>): Outcome
  {
    if content.None? || content.value == [] || !HasTexts(content.value) then Outcome(None, perplexity)
    else
      var c := content.value;
      match PatchWindow(Texts(c), startSentinel, endSentinel)
      case None => Outcome(None, perplexity)
      case Some(w) =>
        match ScanUpTo(c, w, |c|)
        case None => Outcome(None, perplexity)
        case Some(st) =>
          if st.min.None? then Outcome(None, perplexity)
          else
            var order := Positions(Sorting.Sort(st.scores, ByScoreDesc));
            var (ok, beams) := SearchFrom(c, order, 0, perplexity);
            Outcome(if ok then st.min else None, beams)
  }

  // ---------------------------------------------------------------------------
  // The scoring loop.

  lemma HasTextsPrefix(c: seq<TokenRecord>, n: nat)
    requires HasTexts(c) && n <= |c|
    ensures HasTexts(c[..n])
  {
    assert forall j :: 0 <= j < n ==> c[..n][j] == c[j];
  }

  /** Once a `?` has returned, later tokens change nothing. */
  lemma {:induction false} ScanFailureStays(c: seq<TokenRecord>, w: Window, n: nat, m: nat)
    requires HasTexts(c) && n <= m <= |c| && ScanUpTo(c, w, n).None?
    ensures ScanUpTo(c, w, m).None?
    decreases m - n
  {
    if n < m {
      ScanFailureStays(c, w, n + 1, m);
    }
  }

  /** A completed scan saw a log-probability on every token. */
  lemma {:induction false} ScanLogprobs(c: seq<TokenRecord>, w: Window, n: nat)
    requires HasTexts(c) && n <= |c| && ScanUpTo(c, w, n).Some?
    ensures forall i :: 0 <= i < n ==> c[i].logprob.Some?
  {
    if n > 0 {
      ScanLogprobs(c, w, n - 1);
    }
  }

  /** The in-range minimum: present exactly when some counted token lies in the window, and
      then the lowest log-probability among those tokens. */
  lemma {:induction false} ScanMin(c: seq<TokenRecord>, w: Window, n: nat)
    requires HasTexts(c) && n <= |c| && ScanUpTo(c, w, n).Some?
    ensures var m := ScanUpTo(c, w, n).value.min;
            && (m.Some? <==> exists i :: 0 <= i < n && InWindow(c, w, i))
            && (m.Some? ==> exists i :: 0 <= i < n && InWindow(c, w, i) && c[i].logprob == m)
            && (forall i :: 0 <= i < n && InWindow(c, w, i) ==>
                  c[i].logprob.Some? && m.Some? && m.value <= c[i].logprob.value)
  {
    if n > 0 {
      ScanMin(c, w, n - 1);
      var st := ScanUpTo(c, w, n - 1).value;
      var m := ScanUpTo(c, w, n).value.min;
      if InWindow(c, w, n - 1) {
        var v := c[n - 1].logprob.value;
        assert m == Some(Lower(st.min, v));
        if st.min.Some? && st.min.value <= v {
          var i :| 0 <= i < n - 1 && InWindow(c, w, i) && c[i].logprob == st.min;
          assert c[i].logprob == m;
        } else {
          assert c[n - 1].logprob == m;
        }
        forall i | 0 <= i < n && InWindow(c, w, i) ensures c[i].logprob.Some? && m.value <= c[i].logprob.value {
          if i < n - 1 {
            assert m.value <= st.min.value;
          }
        }
      } else {
        assert m == st.min;
        forall i | 0 <= i < n && InWindow(c, w, i) ensures i < n - 1 { }
      }
    }
  }

  /** The overall minimum ranges the same way over every counted token. */
  lemma {:induction false} ScanRawMin(c: seq<TokenRecord>, w: Window, n: nat)
    requires HasTexts(c) && n <= |c| && ScanUpTo(c, w, n).Some?
    ensures var m := ScanUpTo(c, w, n).value.rawMin;
            && (m.Some? <==> exists i :: 0 <= i < n && Counted(c, i))
            && (m.Some? ==> exists i :: 0 <= i < n && Counted(c, i) && c[i].logprob == m)
            && (forall i :: 0 <= i < n && Counted(c, i) ==>
                  c[i].logprob.Some? && m.Some? && m.value <= c[i].logprob.value)
  {
    if n > 0 {
      ScanRawMin(c, w, n - 1);
      var st := ScanUpTo(c, w, n - 1).value;
      var m := ScanUpTo(c, w, n).value.rawMin;
      if Counted(c, n - 1) {
        assert m == Some(Lower(st.rawMin, c[n - 1].logprob.value));
      } else {
        assert m == st.rawMin;
      }
    }
  }

  /** The lowest log-probability overall is no higher than the in-range one. */
  lemma RawMinBelowMin(c: seq<TokenRecord>, w: Window)
    requires HasTexts(c) && ScanUpTo(c, w, |c|).Some? && ScanUpTo(c, w, |c|).value.min.Some?
    ensures var st := ScanUpTo(c, w, |c|).value;
            st.rawMin.Some? && st.rawMin.value <= st.min.value
  {
    ScanMin(c, w, |c|);
    ScanRawMin(c, w, |c|);
  }

  /** `sc` is the entry of a scored token: its spread and its index. */
  predicate ScoreOf(c: seq<TokenRecord>, w: Window, sc: Score)
    requires HasTexts(c)
  {
    sc.pos < |c| && Scored(c, w, sc.pos) && TopsHaveLogprobs(c[sc.pos].topLogprobs.value)
    && sc.score == Spread(c[sc.pos].topLogprobs.value)
  }

  /** The scores are those of the scored tokens, one each, in token order. */
  lemma {:induction false} ScanScores(c: seq<TokenRecord>, w: Window, n: nat)
    requires HasTexts(c) && n <= |c| && ScanUpTo(c, w, n).Some?
    ensures var s := ScanUpTo(c, w, n).value.scores;
            && (forall k :: 0 <= k < |s| ==> s[k].pos < n && ScoreOf(c, w, s[k]))
            && (forall k, l :: 0 <= k < l < |s| ==> s[k].pos < s[l].pos)
            && (forall i :: 0 <= i < n && Scored(c, w, i) ==> exists k :: 0 <= k < |s| && s[k].pos == i)
  {
    if n > 0 {
      ScanScores(c, w, n - 1);
      var s0 := ScanUpTo(c, w, n - 1).value.scores;
      var s := ScanUpTo(c, w, n).value.scores;
      if Scored(c, w, n - 1) {
        assert s == s0 + [Score(Spread(c[n - 1].topLogprobs.value), n - 1)];
        assert s[|s0|].pos == n - 1;
      } else {
        assert s == s0;
      }
      forall i | 0 <= i < n && Scored(c, w, i) ensures exists k :: 0 <= k < |s| && s[k].pos == i {
        if i < n - 1 {
          var k :| 0 <= k < |s0| && s0[k].pos == i;
          assert s[k] == s0[k];
        }
      }
    }
  }

  lemma SpreadOfTwo(tops: seq<TopLogprob>)
    requires |tops| == 2 && TopsHaveLogprobs(tops)
    ensures var a := tops[0].logprob.value;
            var b := tops[1].logprob.value;
            var hi := if a >= b then a else b;
            var lo := if a <= b then a else b;
            Spread(tops) == (hi - lo) * -hi
  {
    var t1 := tops[..1];
    assert t1[..0] == [] && t1[0] == tops[0];
    assert TopsHaveLogprobs(t1);
    assert LowestTop(t1) == Some(tops[0].logprob.value);
    assert HighestTop(t1) == Some(tops[0].logprob.value);
    assert tops[..|tops| - 1] == t1;
  }

  ghost predicate ByScoreIsPreorder()
  {
    Sorting.TotalPreorder(ByScoreDesc)
  }

  /** The positions are visited from the highest score down, and each scored token once. */
  lemma RankedByScore(scores: seq<Score>)
    ensures Sorting.SortedBy(Sorting.Sort(scores, ByScoreDesc), ByScoreDesc)
    ensures multiset(Sorting.Sort(scores, ByScoreDesc)) == multiset(scores)
    ensures var r := Sorting.Sort(scores, ByScoreDesc);
            forall i, j :: 0 <= i < j < |r| ==> r[i].score >= r[j].score
  {
    assert Sorting.TotalPreorder(ByScoreDesc);
    Sorting.SortSorted(scores, ByScoreDesc);
  }

  // ---------------------------------------------------------------------------
  // The beam search.

  /** The first differing alternative differs, and every alternative before it repeats the
      token. */
  lemma {:induction false} FirstDifferentMeaning(tops: seq<TopLogprob>, text: string)
    ensures FirstDifferent(tops, text).Alternative? ==>
              FirstDifferent(tops, text).text != text
              && exists k :: 0 <= k < |tops| && tops[k].token == Some(FirstDifferent(tops, text).text)
                             && forall j :: 0 <= j < k ==> tops[j].token == Some(text)
    ensures FirstDifferent(tops, text).NoAlternative? <==>
              forall k :: 0 <= k < |tops| ==> tops[k].token == Some(text)
  {
    if tops != [] && tops[0].token == Some(text) {
      FirstDifferentMeaning(tops[1..], text);
      var a := FirstDifferent(tops, text);
      if a.Alternative? {
        var k :| 0 <= k < |tops[1..]| && tops[1..][k].token == Some(a.text)
                 && forall j :: 0 <= j < k ==> tops[1..][j].token == Some(text);
        assert tops[k + 1].token == Some(a.text);
        assert forall j :: 0 <= j < k + 1 ==> tops[j].token == Some(text) by {
          forall j | 0 <= j < k + 1 ensures tops[j].token == Some(text) {
            if j > 0 { assert tops[j] == tops[1..][j - 1]; }
          }
        }
      }
      if forall k :: 0 <= k < |tops| ==> tops[k].token == Some(text) {
        assert forall k :: 0 <= k < |tops[1..]| ==> tops[1..][k] == tops[k + 1];
      }
    }
  }

  /** A beam the search adds at position `pos`: the text before the token followed by its
      first differing alternative, for a token and alternative that do not end in
      whitespace. */
  predicate BeamAt(c: seq<TokenRecord>, pos: nat, b: string)
    requires HasTexts(c)
  {
    pos < |c| && c[pos].token.value != "" && !EndsInWhitespace(c[pos].token.value)
    && c[pos].topLogprobs.Some?
    && var alt := FirstDifferent(c[pos].topLogprobs.value, c[pos].token.value);
       alt.Alternative? && !EndsInWhitespace(alt.text) && b == Prefix(c, pos) + alt.text
  }

  /** The search only appends, and it stops once `PERPLEXITY_BEAMS - 1` beams are held:
      at most that many, or one more than the caller passed in. */
  lemma {:induction false} SearchAppends(c: seq<TokenRecord>, order: seq<nat>, k: nat, beams: seq<string>)
    requires HasTexts(c) && k <= |order|
    ensures var r := SearchFrom(c, order, k, beams).1;
            |beams| <= |r| && r[..|beams|] == beams
            && (|r| <= PERPLEXITY_BEAMS - 1 || |r| <= |beams| + 1)
    decreases |order| - k
  {
    if k < |order| && order[k] < |c| {
      var text := c[order[k]].token.value;
      if EndsInWhitespace(text) || text == "" {
        SearchAppends(c, order, k + 1, beams);
      } else if c[order[k]].topLogprobs.Some? {
        var alt := FirstDifferent(c[order[k]].topLogprobs.value, text);
        var next := if alt.Alternative? && !EndsInWhitespace(alt.text)
          then beams + [Prefix(c, order[k]) + alt.text] else beams;
        if !alt.MissingText? && |next| < PERPLEXITY_BEAMS - 1 {
          SearchAppends(c, order, k + 1, next);
          var r := SearchFrom(c, order, k + 1, next).1;
          assert r[..|beams|] == r[..|next|][..|beams|];
        }
      }
    }
  }

  /** Every beam of `r` past the first `n` is the beam of one of the positions `order[k..]`. */
  ghost predicate BeamsFrom(c: seq<TokenRecord>, order: seq<nat>, k: nat, n: nat, r: seq<string>)
    requires HasTexts(c)
  {
    forall j :: n <= j < |r| ==> exists m :: k <= m < |order| && BeamAt(c, order[m], r[j])
  }

  /** Every beam the search adds is one of the positions' beams. */
  lemma {:induction false} SearchBeams(c: seq<TokenRecord>, order: seq<nat>, k: nat, beams: seq<string>)
    requires HasTexts(c) && k <= |order|
    ensures BeamsFrom(c, order, k, |beams|, SearchFrom(c, order, k, beams).1)
    decreases |order| - k
  {
    SearchAppends(c, order, k, beams);
    if k < |order| && order[k] < |c| {
      var text := c[order[k]].token.value;
      var r := SearchFrom(c, order, k, beams).1;
      if EndsInWhitespace(text) || text == "" {
        SearchBeams(c, order, k + 1, beams);
        assert r == SearchFrom(c, order, k + 1, beams).1;
        forall j | |beams| <= j < |r| ensures exists m :: k <= m < |order| && BeamAt(c, order[m], r[j]) {
          var m :| k + 1 <= m < |order| && BeamAt(c, order[m], r[j]);
        }
      } else if c[order[k]].topLogprobs.Some? {
        var alt := FirstDifferent(c[order[k]].topLogprobs.value, text);
        var next := if alt.Alternative? && !EndsInWhitespace(alt.text)
          then beams + [Prefix(c, order[k]) + alt.text] else beams;
        if next != beams {
          assert |next| == |beams| + 1 && BeamAt(c, order[k], next[|beams|]);
        }
        if !alt.MissingText? {
          if |next| < PERPLEXITY_BEAMS - 1 {
            SearchBeams(c, order, k + 1, next);
            SearchAppends(c, order, k + 1, next);
            assert r == SearchFrom(c, order, k + 1, next).1;
            forall j | |beams| <= j < |r| ensures exists m :: k <= m < |order| && BeamAt(c, order[m], r[j]) {
              if j < |next| {
                assert j == |beams| && r[j] == r[..|next|][j] == next[j];
              } else {
                var m :| k + 1 <= m < |order| && BeamAt(c, order[m], r[j]);
              }
            }
          } else {
            assert r == next;
            forall j | |beams| <= j < |r| ensures exists m :: k <= m < |order| && BeamAt(c, order[m], r[j]) {
              assert j == |beams|;
            }
          }
        }
      }
    }
  }

  // ---------------------------------------------------------------------------
  // What `logprob` returns.

  /** A confidence is the lowest log-probability among the counted tokens that start inside
      the patch window, and it is attained by one of them. */
  lemma ConfidenceIsPatchMinimum(content: Option<seq<TokenRecord>>, startSentinel: string, endSentinel: string,
                                 perplexity: seq<string>)
    requires LogprobResult(content, startSentinel, endSentinel, perplexity).confidence.Some?
    ensures content.Some? && HasTexts(content.value)
    ensures PatchWindow(Texts(content.value), startSentinel, endSentinel).Some?
    ensures var c := content.value;
            var w := PatchWindow(Texts(c), startSentinel, endSentinel).value;
            var v := LogprobResult(content, startSentinel, endSentinel, perplexity).confidence.value;
            && (exists i :: 0 <= i < |c| && InWindow(c, w, i) && c[i].logprob == Some(v))
            && (forall i :: 0 <= i < |c| && InWindow(c, w, i) ==> c[i].logprob.Some? && v <= c[i].logprob.value)
  {
    var c := content.value;
    var w := PatchWindow(Texts(c), startSentinel, endSentinel).value;
    ScanMin(c, w, |c|);
  }

  /** No counted token inside the window, or a token without a log-probability: no
      confidence. */
  lemma NoConfidenceWithoutPatchTokens(c: seq<TokenRecord>, startSentinel: string, endSentinel: string,
                                       perplexity: seq<string>)
    requires HasTexts(c) && PatchWindow(Texts(c), startSentinel, endSentinel).Some?
    requires var w := PatchWindow(Texts(c), startSentinel, endSentinel).value;
             (forall i :: 0 <= i < |c| ==> !InWindow(c, w, i))
             || (exists i :: 0 <= i < |c| && c[i].logprob.None?)
    ensures LogprobResult(Some(c), startSentinel, endSentinel, perplexity) == Outcome(None, perplexity)
  {
    var w := PatchWindow(Texts(c), startSentinel, endSentinel).value;
    if ScanUpTo(c, w, |c|).Some? {
      ScanMin(c, w, |c|);
      ScanLogprobs(c, w, |c|);
    }
  }

  /** A response without a trace, or with an empty one, has no confidence and adds no beam. */
  lemma NoTraceNoConfidence(startSentinel: string, endSentinel: string, perplexity: seq<string>)
    ensures LogprobResult(None, startSentinel, endSentinel, perplexity) == Outcome(None, perplexity)
    ensures LogprobResult(Some([]), startSentinel, endSentinel, perplexity) == Outcome(None, perplexity)
  {
  }

  /** Whatever `logprob` returns, the caller's beams stay in place and at most
      `PERPLEXITY_BEAMS - 1` beams, or one more than the caller passed in, are held after. */
  lemma LogprobBeams(content: Option<seq<TokenRecord>>, startSentinel: string, endSentinel: string,
                     perplexity: seq<string>)
    ensures var r := LogprobResult(content, startSentinel, endSentinel, perplexity).perplexity;
            |perplexity| <= |r| && r[..|perplexity|] == perplexity
            && (|r| <= PERPLEXITY_BEAMS - 1 || |r| <= |perplexity| + 1)
  {
    if content.Some? && content.value != [] && HasTexts(content.value) {
      var c := content.value;
      var w := PatchWindow(Texts(c), startSentinel, endSentinel);
      if w.Some? && ScanUpTo(c, w.value, |c|).Some? && ScanUpTo(c, w.value, |c|).value.min.Some? {
        var order := Positions(Sorting.Sort(ScanUpTo(c, w.value, |c|).value.scores, ByScoreDesc));
        SearchAppends(c, order, 0, perplexity);
      }
    }
  }

  /** The trace of the source's own test: the start sentinel with its newline, "2", " ",
      and the end sentinel. */
  function ExampleTrace(startSentinel: string, endSentinel: string): seq<TokenRecord>
  {
    [TokenRecord(Some(startSentinel + "\n"), Some(0.0), None),
     TokenRecord(Some("2"), Some(-1.0), None),
     TokenRecord(Some(" "), Some(-2.0), None),
     TokenRecord(Some(endSentinel), Some(-3.0), None)]
  }

  /** The window of that trace covers the offsets of "2" and " ". */
  lemma ExampleWindow(startSentinel: string, endSentinel: string)
    requires Find(startSentinel + "\n" + "2" + " " + endSentinel, endSentinel) == Some(|startSentinel| + 3)
    ensures var c := ExampleTrace(startSentinel, endSentinel);
            var w := Window(|startSentinel| + 1, |startSentinel| + 3);
            && HasTexts(c) && PatchWindow(Texts(c), startSentinel, endSentinel) == Some(w)
            && Offset(c, 0) == 0 && Offset(c, 1) == |startSentinel| + 1
            && Offset(c, 2) == |startSentinel| + 2 && Offset(c, 3) == |startSentinel| + 3
  {
    var c := ExampleTrace(startSentinel, endSentinel);
    assert HasTexts(c);
    var all := startSentinel + "\n" + "2" + " " + endSentinel;
    assert c[..|c|] == c;
    assert Prefix(c, 0) == "";
    PrefixSnoc(c, 0);
    PrefixSnoc(c, 1);
    PrefixSnoc(c, 2);
    PrefixSnoc(c, 3);
    assert Texts(c) == Prefix(c, 4) == all;
    assert OccursAt(all, startSentinel + "\n", 0) by {
      assert all[..|startSentinel| + 1] == startSentinel + "\n";
    }
  }

  /** The source's own test: after the start sentinel, the tokens "2" and " " are scored,
      the end sentinel is not, and the confidence is the lower of their log-probabilities. */
  lemma PatchExample(startSentinel: string, endSentinel: string, perplexity: seq<string>)
    requires Find(startSentinel + "\n" + "2" + " " + endSentinel, endSentinel) == Some(|startSentinel| + 3)
    ensures LogprobResult(Some(ExampleTrace(startSentinel, endSentinel)), startSentinel, endSentinel, perplexity)
            == Outcome(Some(-2.0), perplexity)
  {
    var c := ExampleTrace(startSentinel, endSentinel);
    ExampleWindow(startSentinel, endSentinel);
    var w := Window(|startSentinel| + 1, |startSentinel| + 3);
    assert !InWindow(c, w, 0) && InWindow(c, w, 1) && InWindow(c, w, 2) && !InWindow(c, w, 3);
    assert ScanUpTo(c, w, 1) == Some(Scan(None, Some(0.0), []));
    assert ScanUpTo(c, w, 2) == Some(Scan(Some(-1.0), Some(-1.0), []));
    assert ScanUpTo(c, w, 3) == Some(Scan(Some(-2.0), Some(-2.0), []));
    assert ScanUpTo(c, w, 4) == Some(Scan(Some(-2.0), Some(-3.0), []));
  }

  // ---------------------------------------------------------------------------
  // The loops of `logprob` and `perplexity_search`.

  lemma PrefixSnoc(c: seq<TokenRecord>, i: nat)
    requires HasTexts(c) && i < |c|
    ensures Prefix(c, i + 1) == Prefix(c, i) + c[i].token.value
  {
    assert c[..i + 1][..i] == c[..i];
  }

  /** The text of the first `n` tokens, `None` where one of them has no text. */
  method JoinTokens(c: seq<TokenRecord>, n: nat) returns (r: Option<string>)
    requires n <= |c|
    ensures r.Some? <==> HasTexts(c[..n])
    ensures r.Some? ==> r.value == Texts(c[..n])
  {
    var s := "";
    var i := 0;
    while i < n
      invariant i <= n && HasTexts(c[..i]) && s == Texts(c[..i])
    {
      if c[i].token.None? {
        assert c[..n][i] == c[i];
        return None;
      }
      ghost var p := c[..i + 1];
      assert p[..i] == c[..i] && p[i] == c[i];
      s := s + c[i].token.value;
      i := i + 1;
    }
    return Some(s);
  }

  /** The lowest and highest alternative log-probability; `ok` is false where one is
      missing. */
  method TopBounds(tops: seq<TopLogprob>) returns (ok: bool, lo: real, hi: real)
    requires tops != []
    ensures ok <==> TopsHaveLogprobs(tops)
    ensures ok ==> TopsHaveLogprobs(tops) && lo == LowestTop(tops).value && hi == HighestTop(tops).value
  {
    var lowest: Option<real> := None;
    var highest: Option<real> := None;
    var j := 0;
    while j < |tops|
      invariant j <= |tops| && TopsHaveLogprobs(tops[..j])
      invariant lowest == LowestTop(tops[..j]) && highest == HighestTop(tops[..j])
    {
      if tops[j].logprob.None? {
        return false, 0.0, 0.0;
      }
      ghost var p := tops[..j + 1];
      assert p[..j] == tops[..j] && p[j] == tops[j];
      var lp := tops[j].logprob.value;
      lowest := Some(Lower(lowest, lp));
      highest := Some(Higher(highest, lp));
      j := j + 1;
    }
    assert tops[..j] == tops;
    return true, lowest.value, highest.value;
  }

  /** The first alternative whose text differs from the token's. */
  method FindAlternative(tops: seq<TopLogprob>, text: string) returns (alt: Alternative)
    ensures alt == FirstDifferent(tops, text)
  {
    var j := 0;
    while j < |tops|
      invariant j <= |tops| && FirstDifferent(tops[j..], text) == FirstDifferent(tops, text)
    {
      assert tops[j..][1..] == tops[j + 1..];
      var top := tops[j].token;
      if top.None? {
        return MissingText;
      }
      if top.value != text {
        return Alternative(top.value);
      }
      j := j + 1;
    }
    return NoAlternative;
  }

  /** The scoring loop of `logprob` over the whole trace. */
  method ScanTokens(c: seq<TokenRecord>, w: Window) returns (r: Option<Scan>)
    requires HasTexts(c)
    ensures r == ScanUpTo(c, w, |c|)
  {
    var minLogprob: Option<real> := None;
    var rawMin: Option<real> := None;
    var scores: seq<Score> := [];
    var concatenated := "";
    var i := 0;
    while i < |c|
      invariant i <= |c|
      invariant ScanUpTo(c, w, i) == Some(Scan(minLogprob, rawMin, scores))
      invariant concatenated == Prefix(c, i)
    {
      var t := c[i];
      PrefixSnoc(c, i);
      ghost var st := Scan(minLogprob, rawMin, scores);
      assert ScanUpTo(c, w, i + 1) == ScanStep(c, w, i, st);
      if t.logprob.None? {
        ScanFailureStays(c, w, i + 1, |c|);
        return None;
      }
      var lp := t.logprob.value;
      var token := t.token.value;
      if i == |c| - 1 && token == "" {
        assert !Counted(c, i);
        i := i + 1;
        continue;
      }
      var strOffset := |concatenated|;
      concatenated := concatenated + token;
      if rawMin.None? || lp < rawMin.value {
        rawMin := Some(lp);
      }
      assert Counted(c, i) && strOffset == Offset(c, i);
      if strOffset < w.start || strOffset >= w.end {
        assert !InWindow(c, w, i);
        i := i + 1;
        continue;
      }
      if t.topLogprobs.Some? && |t.topLogprobs.value| == 2 {
        var ok, lo, hi := TopBounds(t.topLogprobs.value);
        if !ok {
          ScanFailureStays(c, w, i + 1, |c|);
          return None;
        }
        assert Scored(c, w, i) && Spread(t.topLogprobs.value) == (hi - lo) * -hi;
        scores := scores + [Score((hi - lo) * -hi, i)];
      } else {
        assert !Scored(c, w, i);
      }
      if minLogprob.None? || lp < minLogprob.value {
        minLogprob := Some(lp);
      }
      i := i + 1;
    }
    return Some(Scan(minLogprob, rawMin, scores));
  }

  /** `perplexity_search`: `ok` is false where a `?` returns `None`; `beams` is the caller's
      vector afterwards. */
  method PerplexitySearch(c: seq<TokenRecord>, order: seq<nat>, perplexity: seq<string>)
    returns (ok: bool, beams: seq<string>)
    requires HasTexts(c)
    ensures (ok, beams) == SearchFrom(c, order, 0, perplexity)
  {
    beams := perplexity;
    var k := 0;
    while k < |order|
      invariant k <= |order|
      invariant SearchFrom(c, order, k, beams) == SearchFrom(c, order, 0, perplexity)
    {
      var pos := order[k];
      if pos >= |c| {
        return false, beams;
      }
      var text := c[pos].token.value;
      if EndsInWhitespace(text) || text == "" {
        k := k + 1;
        continue;
      }
      var prefix := JoinTokens(c, pos);
      HasTextsPrefix(c, pos);
      if c[pos].topLogprobs.None? {
        return false, beams;
      }
      var alt := FindAlternative(c[pos].topLogprobs.value, text);
      if alt.MissingText? {
        return false, beams;
      }
      if alt.Alternative? && !EndsInWhitespace(alt.text) && text != "" {
        beams := beams + [prefix.value + alt.text];
      }
      if |beams| >= PERPLEXITY_BEAMS - 1 {
        return true, beams;
      }
      k := k + 1;
    }
    return true, beams;
  }

  /** `logprob(json, perplexity)`: the confidence of the response, and the caller's beam
      vector after the search. */
  method Logprob(content: Option<seq<TokenRecord>>, startSentinel: string, endSentinel: string,
                 perplexity: seq<string>)
    returns (confidence: Option<real>, beams: seq<string>)
    ensures Outcome(confidence, beams) == LogprobResult(content, startSentinel, endSentinel, perplexity)
  {
    beams := perplexity;
    if content.None? || |content.value| == 0 {
      return None, beams;
    }
    var c := content.value;
    var all := JoinTokens(c, |c|);
    assert c[..|c|] == c;
    if all.None? {
      return None, beams;
    }
    var patchedCodeStart := startSentinel + "\n";
    var startFound := Find(all.value, patchedCodeStart);
    if startFound.None? {
      return None, beams;
    }
    var startPos := startFound.value + |patchedCodeStart|;
    var endFound := Find(all.value, endSentinel);
    if endFound.None? {
      return None, beams;
    }
    var w := Window(startPos, endFound.value);
    assert PatchWindow(Texts(c), startSentinel, endSentinel) == Some(w);
    var st := ScanTokens(c, w);
    if st.None? || st.value.min.None? {
      return None, beams;
    }
    var order := Positions(Sorting.Sort(st.value.scores, ByScoreDesc));
    var ok;
    ok, beams := PerplexitySearch(c, order, beams);
    if !ok {
      return None, beams;
    }
    return st.value.min, beams;
  }
}
