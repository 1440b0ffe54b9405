/**
 * The consensus step: candidate resolutions that agree on the resolved text of the
 * same conflict are folded into one, and the folded results are ranked
 * (`deduplicate_conflicts`).
 */
module Consensus {
  import opened Wrappers
  import opened Sorting
  import opened ConflictParser
  import opened ModelNames

  /** One candidate resolution of a conflict, as the resolver step hands it over. */
  datatype ResolvedConflict = ResolvedConflict(
    conflict: Conflict,
    resolvedVersion: string,
    model: string,
    duration: real,
    totalTokens: Option<nat>,
    logprob: Option<real>,
    endpoint: nat,
    deduplicatedConflicts: seq<ResolvedConflict>)

  /** The grouping key `(resolved_version, start_line, file_path)`. */
  datatype Key = Key(resolvedVersion: string, startLine: nat, filePath: string)

  function KeyOf(rc: ResolvedConflict): Key
  {
    Key(rc.resolvedVersion, rc.conflict.startLine, rc.conflict.filePath)
  }

  /** The key of every candidate, in input order. */
  function KeySeq(cs: seq<ResolvedConflict>): (ks: seq<Key>)
    ensures |ks| == |cs|
  {
    if cs == [] then [] else KeySeq(cs[..|cs| - 1]) + [KeyOf(cs[|cs| - 1])]
  }

  /** The candidates with key `k`, in input order: the vector the grouping map holds for `k`. */
  function Group(cs: seq<ResolvedConflict>, k: Key): seq<ResolvedConflict>
  {
    if cs == [] then []
    else Group(cs[..|cs| - 1], k) + (if KeyOf(cs[|cs| - 1]) == k then [cs[|cs| - 1]] else [])
  }

  // ---------------------------------------------------------------------------
  // Folding one group

  function Models(g: seq<ResolvedConflict>): (ms: seq<string>)
    ensures |ms| == |g|
  {
    if g == [] then [] else Models(g[..|g| - 1]) + [g[|g| - 1].model]
  }

  /** `filter_map(|c| c.total_tokens)` */
  function ReportedTokens(g: seq<ResolvedConflict>): seq<nat>
  {
    if g == [] then []
    else ReportedTokens(g[..|g| - 1]) + (match g[|g| - 1].totalTokens case Some(t) => [t] case None => [])
  }

  /** `filter_map(|c| c.logprob)` */
  function ReportedLogprobs(g: seq<ResolvedConflict>): seq<real>
  {
    if g == [] then []
    else ReportedLogprobs(g[..|g| - 1]) + (match g[|g| - 1].logprob case Some(p) => [p] case None => [])
  }

  function SumNat(s: seq<nat>): nat
  {
    if s == [] then 0 else SumNat(s[..|s| - 1]) + s[|s| - 1]
  }

  function SumReal(s: seq<real>): real
  {
    if s == [] then 0.0 else SumReal(s[..|s| - 1]) + s[|s| - 1]
  }

  /** The integer mean of the reported token counts; `u64` division truncates. */
  function MeanTokens(g: seq<ResolvedConflict>): Option<nat>
  {
    var ts := ReportedTokens(g);
    if ts == [] then None else Some(SumNat(ts) / |ts|)
  }

  function MeanLogprob(g: seq<ResolvedConflict>): Option<real>
  {
    var ps := ReportedLogprobs(g);
    if ps == [] then None else Some(SumReal(ps) / (|ps| as real))
  }

  /** The largest duration of the group, `0.0` for an empty one. */
  function MaxDuration(g: seq<ResolvedConflict>): (d: real)
    ensures g != [] ==> exists i :: 0 <= i < |g| && g[i].duration == d
    ensures forall i :: 0 <= i < |g| ==> g[i].duration <= d
  {
    if g == [] then 0.0
    else if |g| == 1 then g[0].duration
    else
      var front := MaxDuration(g[..|g| - 1]);
      if g[|g| - 1].duration >= front then g[|g| - 1].duration else front
  }

  /** The smallest endpoint index of a non-empty group. */
  function MinEndpoint(g: seq<ResolvedConflict>): (e: nat)
    requires g != []
    ensures exists i :: 0 <= i < |g| && g[i].endpoint == e
    ensures forall i :: 0 <= i < |g| ==> e <= g[i].endpoint
  {
    if |g| == 1 then g[0].endpoint
    else
      var front := MinEndpoint(g[..|g| - 1]);
      if g[|g| - 1].endpoint < front then g[|g| - 1].endpoint else front
  }

  predicate SameConflict(g: seq<ResolvedConflict>, c: Conflict)
  {
    forall i :: 0 <= i < |g| ==> g[i].conflict == c
  }

  /**
   * One folded result for the group `g` of key version `rv`, or `None` when the source
   * panics: `group[0]` on an empty group, an `assert!` of `combine_model_names`, or the
   * `assert!` that every member shares the first member's conflict.
   */
  function Merge(g: seq<ResolvedConflict>, rv: string): Option<ResolvedConflict>
  {
    if g == [] then None
    else
      var names := Combine(Models(g));
      if names.Failure? || !SameConflict(g, g[0].conflict) then None
      else Some(ResolvedConflict(g[0].conflict, rv, names.value, MaxDuration(g), MeanTokens(g),
                                 MeanLogprob(g), MinEndpoint(g), g))
  }

  /** The fold of the group of one key. */
  function FoldOf(cs: seq<ResolvedConflict>): Key -> Option<ResolvedConflict>
  {
    k => Merge(Group(cs, k), k.resolvedVersion)
  }

  /** The fold of the group of every key of `ks`, in that order. */
  function Folds(cs: seq<ResolvedConflict>, ks: seq<Key>): (fs: seq<Option<ResolvedConflict>>)
    ensures |fs| == |ks|
  {
    MapSeq(FoldOf(cs), ks)
  }

  lemma FoldAt(cs: seq<ResolvedConflict>, ks: seq<Key>, i: nat)
    requires i < |ks|
    ensures Folds(cs, ks)[i] == Merge(Group(cs, ks[i]), ks[i].resolvedVersion)
  {
    MapSeqAt(FoldOf(cs), ks, i);
  }

  lemma FoldsAt(cs: seq<ResolvedConflict>, ks: seq<Key>)
    ensures forall i :: 0 <= i < |ks| ==> Folds(cs, ks)[i] == Merge(Group(cs, ks[i]), ks[i].resolvedVersion)
  {
    forall i | 0 <= i < |ks| ensures Folds(cs, ks)[i] == Merge(Group(cs, ks[i]), ks[i].resolvedVersion) {
      FoldAt(cs, ks, i);
    }
  }

  // ---------------------------------------------------------------------------
  // Ranking

  datatype Ordering = Less | Equal | Greater {
    /** `Ordering::then` */
    function Then(o: Ordering): Ordering { if Equal? then o else this }
    function Reverse(): Ordering { match this case Less => Greater case Equal => Equal case Greater => Less }
  }

  /** `str::cmp`: lexicographic by character (code point order is the order of UTF-8 bytes). */
  function StrCmp(a: string, b: string): Ordering
  {
    if a == [] then (if b == [] then Equal else Less)
    else if b == [] then Greater
    else if a[0] < b[0] then Less
    else if a[0] > b[0] then Greater
    else StrCmp(a[1..], b[1..])
  }

  function NatCmp(a: nat, b: nat): Ordering
  {
    if a < b then Less else if a == b then Equal else Greater
  }

  /** The comparator of the final `sort_by`: file, line, group size descending, endpoint. */
  function RankCmp(a: ResolvedConflict, b: ResolvedConflict): Ordering
  {
    StrCmp(a.conflict.filePath, b.conflict.filePath)
      .Then(NatCmp(a.conflict.startLine, b.conflict.startLine))
      .Then(NatCmp(|b.deduplicatedConflicts|, |a.deduplicatedConflicts|))
      .Then(NatCmp(a.endpoint, b.endpoint))
  }

  predicate RankLeq(a: ResolvedConflict, b: ResolvedConflict)
  {
    RankCmp(a, b) != Greater
  }

  /** The folded results in first-seen key order, before the ranking sort. */
  function FirstSeen(cs: seq<ResolvedConflict>): Option<seq<ResolvedConflict>>
  {
    AllSome(Folds(cs, Distinct(KeySeq(cs))))
  }

  /** `deduplicate_conflicts`; `None` when it panics. */
  function Dedup(cs: seq<ResolvedConflict>): Option<seq<ResolvedConflict>>
  {
    match FirstSeen(cs)
    case None => None
    case Some(ms) => Some(Sort(ms, RankLeq))
  }

  // ---------------------------------------------------------------------------
  // The ranking comparator is a total preorder

  lemma {:induction false} StrCmpReverse(a: string, b: string)
    ensures StrCmp(b, a) == StrCmp(a, b).Reverse()
    ensures StrCmp(a, b) == Equal <==> a == b
  {
    if a != [] && b != [] && a[0] == b[0] {
      StrCmpReverse(a[1..], b[1..]);
      assert a == [a[0]] + a[1..] && b == [b[0]] + b[1..];
    }
  }

  lemma {:induction false} StrCmpTrans(a: string, b: string, c: string)
    requires StrCmp(a, b) != Greater && StrCmp(b, c) != Greater
    ensures StrCmp(a, c) != Greater
  {
    if a != [] && b != [] && c != [] && a[0] == b[0] == c[0] {
      StrCmpTrans(a[1..], b[1..], c[1..]);
    }
  }

  /** The key rank compares in the opposite direction when its arguments swap. */
  lemma RankCmpReverse(a: ResolvedConflict, b: ResolvedConflict)
    ensures RankCmp(b, a) == RankCmp(a, b).Reverse()
  {
    StrCmpReverse(a.conflict.filePath, b.conflict.filePath);
  }

  lemma RankLeqTrans(a: ResolvedConflict, b: ResolvedConflict, c: ResolvedConflict)
    requires RankLeq(a, b) && RankLeq(b, c)
    ensures RankLeq(a, c)
  {
    var fa, fb, fc := a.conflict.filePath, b.conflict.filePath, c.conflict.filePath;
    StrCmpReverse(fa, fb);
    StrCmpReverse(fb, fc);
    StrCmpReverse(fa, fc);
    StrCmpTrans(fa, fb, fc);
  }

  /** So `Sorting.Sort` by it is a stable `sort_by` with that comparator. */
  lemma RankTotalPreorder()
    ensures TotalPreorder(RankLeq)
  {
    forall a, b ensures RankLeq(a, b) || RankLeq(b, a) {
      RankCmpReverse(a, b);
    }
    forall a, b, c | RankLeq(a, b) && RankLeq(b, c) ensures RankLeq(a, c) {
      RankLeqTrans(a, b, c);
    }
  }

  // ---------------------------------------------------------------------------
  // Groups

  lemma GroupSnoc(p: seq<ResolvedConflict>, c: ResolvedConflict, k: Key)
    ensures Group(p + [c], k) == Group(p, k) + (if KeyOf(c) == k then [c] else [])
    ensures KeySeq(p + [c]) == KeySeq(p) + [KeyOf(c)]
  {
    assert (p + [c])[..|p|] == p;
  }

  /** The group of `k` holds exactly the candidates with key `k`, and is empty iff no candidate has it. */
  lemma {:induction false} GroupMembers(cs: seq<ResolvedConflict>, k: Key)
    ensures forall x :: x in Group(cs, k) <==> x in cs && KeyOf(x) == k
    ensures Group(cs, k) == [] <==> k !in KeySeq(cs)
  {
    if cs != [] {
      var p := cs[..|cs| - 1];
      GroupMembers(p, k);
      assert cs == p + [cs[|cs| - 1]];
    }
  }

  lemma KeySeqAt(cs: seq<ResolvedConflict>)
    ensures forall i :: 0 <= i < |cs| ==> KeySeq(cs)[i] == KeyOf(cs[i])
  {
    if cs != [] {
      KeySeqAt(cs[..|cs| - 1]);
    }
  }

  // ---------------------------------------------------------------------------
  // Folding one group

  lemma {:induction false} TokensReported(g: seq<ResolvedConflict>)
    ensures ReportedTokens(g) == [] <==> forall i :: 0 <= i < |g| ==> g[i].totalTokens.None?
    ensures forall t :: t in ReportedTokens(g) <==> exists i :: 0 <= i < |g| && g[i].totalTokens == Some(t)
  {
    if g != [] {
      var p := g[..|g| - 1];
      TokensReported(p);
      assert forall i :: 0 <= i < |p| ==> p[i] == g[i];
    }
  }

  lemma {:induction false} LogprobsReported(g: seq<ResolvedConflict>)
    ensures ReportedLogprobs(g) == [] <==> forall i :: 0 <= i < |g| ==> g[i].logprob.None?
  {
    if g != [] {
      var p := g[..|g| - 1];
      LogprobsReported(p);
      assert forall i :: 0 <= i < |p| ==> p[i] == g[i];
    }
  }

  lemma {:induction false} SumWithin(s: seq<nat>, lo: nat, hi: nat)
    requires forall x :: x in s ==> lo <= x <= hi
    ensures lo * |s| <= SumNat(s) <= hi * |s|
  {
    if s != [] {
      var p, x := s[..|s| - 1], s[|s| - 1];
      assert s == p + [x];
      assert x in s && forall y :: y in p ==> y in s;
      SumWithin(p, lo, hi);
      assert SumNat(s) == SumNat(p) + x;
      MulStep(lo, |p|);
      MulStep(hi, |p|);
    }
  }

  lemma MulStep(a: nat, n: nat)
    ensures a * (n + 1) == a * n + a
  {
  }

  lemma {:induction false} MulMono(a: nat, b: nat, n: nat)
    ensures a <= b ==> a * n <= b * n
  {
    if n > 0 {
      MulMono(a, b, n - 1);
      MulStep(a, n - 1);
      MulStep(b, n - 1);
    }
  }

  lemma DivWithin(sum: nat, n: nat, lo: nat, hi: nat)
    requires n > 0 && lo * n <= sum <= hi * n
    ensures lo <= sum / n <= hi
  {
    var q, r := sum / n, sum % n;
    assert sum == q * n + r && 0 <= r < n;
    MulMono(hi + 1, q, n);
    MulMono(q + 1, lo, n);
    assert (hi + 1) * n == hi * n + n && (q + 1) * n == q * n + n;
  }

  /** The truncating mean of counts that all lie in `[lo, hi]` lies there too. */
  lemma MeanWithin(s: seq<nat>, lo: nat, hi: nat)
    requires s != [] && forall x :: x in s ==> lo <= x <= hi
    ensures lo <= SumNat(s) / |s| <= hi
  {
    SumWithin(s, lo, hi);
    DivWithin(SumNat(s), |s|, lo, hi);
  }

  /**
   * A fold succeeds iff the group is non-empty, its model names combine, and all its members
   * share one conflict. The folded result then keeps every member, carries their conflict,
   * the largest duration, the smallest endpoint, and a token mean that is `None` iff no
   * member reported a count, and otherwise lies between the reported counts.
   */
  lemma MergeMeaning(g: seq<ResolvedConflict>, rv: string, lo: nat, hi: nat)
    ensures Merge(g, rv).Some? <==> g != [] && Combine(Models(g)).Success? && SameConflict(g, g[0].conflict)
    ensures Merge(g, rv).Some? ==>
              Merge(g, rv).value.deduplicatedConflicts == g && Merge(g, rv).value.resolvedVersion == rv
              && Merge(g, rv).value.model == Combine(Models(g)).value
              && SameConflict(g, Merge(g, rv).value.conflict)
              && (forall i :: 0 <= i < |g| ==> g[i].duration <= Merge(g, rv).value.duration)
              && (exists i :: 0 <= i < |g| && g[i].endpoint == Merge(g, rv).value.endpoint)
              && (forall i :: 0 <= i < |g| ==> Merge(g, rv).value.endpoint <= g[i].endpoint)
              && (Merge(g, rv).value.totalTokens.None? <==> forall i :: 0 <= i < |g| ==> g[i].totalTokens.None?)
              && (Merge(g, rv).value.logprob.None? <==> forall i :: 0 <= i < |g| ==> g[i].logprob.None?)
    ensures Merge(g, rv).Some? && Merge(g, rv).value.totalTokens.Some?
            && (forall i :: 0 <= i < |g| && g[i].totalTokens.Some? ==> lo <= g[i].totalTokens.value <= hi)
            ==> lo <= Merge(g, rv).value.totalTokens.value <= hi
  {
    if g != [] && Combine(Models(g)).Success? && SameConflict(g, g[0].conflict) {
      var r := Merge(g, rv).value;
      assert r == ResolvedConflict(g[0].conflict, rv, Combine(Models(g)).value, MaxDuration(g), MeanTokens(g),
                                   MeanLogprob(g), MinEndpoint(g), g);
      TokensReported(g);
      LogprobsReported(g);
      var ts := ReportedTokens(g);
      if ts != [] && forall i :: 0 <= i < |g| && g[i].totalTokens.Some? ==> lo <= g[i].totalTokens.value <= hi {
        MeanWithin(ts, lo, hi);
      }
    }
  }

  // ---------------------------------------------------------------------------
  // The whole run

  /** The fold of the group of `k` has key `k`. */
  lemma MergeKey(cs: seq<ResolvedConflict>, k: Key)
    requires Merge(Group(cs, k), k.resolvedVersion).Some?
    ensures KeyOf(Merge(Group(cs, k), k.resolvedVersion).value) == k
  {
    GroupMembers(cs, k);
    var g := Group(cs, k);
    assert g[0] in g;
  }

  /** Before ranking there is one fold per distinct key, in first-seen order, so no fold repeats. */
  lemma FirstSeenKeys(cs: seq<ResolvedConflict>)
    requires FirstSeen(cs).Some?
    ensures |FirstSeen(cs).value| == |Distinct(KeySeq(cs))|
    ensures forall i :: 0 <= i < |FirstSeen(cs).value| ==> KeyOf(FirstSeen(cs).value[i]) == Distinct(KeySeq(cs))[i]
    ensures NoDuplicates(FirstSeen(cs).value)
  {
    var ks, ms := Distinct(KeySeq(cs)), FirstSeen(cs).value;
    FirstSeenFolds(cs);
    DistinctMembers(KeySeq(cs));
    forall i | 0 <= i < |ms| ensures KeyOf(ms[i]) == ks[i] {
      MergeKey(cs, ks[i]);
    }
  }

  lemma FirstSeenFolds(cs: seq<ResolvedConflict>)
    requires FirstSeen(cs).Some?
    ensures |FirstSeen(cs).value| == |Distinct(KeySeq(cs))|
    ensures forall i :: 0 <= i < |FirstSeen(cs).value| ==>
              Merge(Group(cs, Distinct(KeySeq(cs))[i]), Distinct(KeySeq(cs))[i].resolvedVersion) == Some(FirstSeen(cs).value[i])
  {
    AllSomeShape(Folds(cs, Distinct(KeySeq(cs))));
    FoldsAt(cs, Distinct(KeySeq(cs)));
  }

  /** Ranking only reorders the folds. */
  lemma DedupPermutes(cs: seq<ResolvedConflict>)
    requires Dedup(cs).Some?
    ensures FirstSeen(cs).Some? && multiset(Dedup(cs).value) == multiset(FirstSeen(cs).value)
    ensures forall j :: 0 <= j < |Dedup(cs).value| ==> Dedup(cs).value[j] in FirstSeen(cs).value
    ensures forall i :: 0 <= i < |FirstSeen(cs).value| ==> FirstSeen(cs).value[i] in Dedup(cs).value
  {
    var out, ms := Dedup(cs).value, FirstSeen(cs).value;
    forall j | 0 <= j < |out| ensures out[j] in ms {
      assert out[j] in multiset(ms);
    }
    forall i | 0 <= i < |ms| ensures ms[i] in out {
      assert ms[i] in multiset(out);
    }
  }

  /** Each result of `deduplicate_conflicts` is the fold of all the candidates with its key. */
  lemma DedupFolds(cs: seq<ResolvedConflict>)
    requires Dedup(cs).Some?
    ensures forall j :: 0 <= j < |Dedup(cs).value| ==>
              Merge(Group(cs, KeyOf(Dedup(cs).value[j])), Dedup(cs).value[j].resolvedVersion) == Some(Dedup(cs).value[j])
  {
    var out, ms := Dedup(cs).value, FirstSeen(cs).value;
    FirstSeenKeys(cs);
    FirstSeenFolds(cs);
    DedupPermutes(cs);
    forall j | 0 <= j < |out|
      ensures Merge(Group(cs, KeyOf(out[j])), out[j].resolvedVersion) == Some(out[j])
    {
      var a :| 0 <= a < |ms| && ms[a] == out[j];
    }
  }

  /** Every key of the input has a result. */
  lemma DedupCovers(cs: seq<ResolvedConflict>)
    requires Dedup(cs).Some?
    ensures forall i :: 0 <= i < |cs| ==> exists j :: 0 <= j < |Dedup(cs).value| && KeyOf(Dedup(cs).value[j]) == KeyOf(cs[i])
  {
    var out := Dedup(cs).value;
    KeySeqAt(cs);
    forall i | 0 <= i < |cs| ensures exists j :: 0 <= j < |out| && KeyOf(out[j]) == KeyOf(cs[i]) {
      assert KeySeq(cs)[i] == KeyOf(cs[i]);
      var j := DedupCoversKey(cs, KeyOf(cs[i]));
    }
  }

  /** The result that carries key `k` of the input. */
  lemma DedupCoversKey(cs: seq<ResolvedConflict>, k: Key) returns (j: nat)
    requires Dedup(cs).Some? && k in KeySeq(cs)
    ensures j < |Dedup(cs).value| && KeyOf(Dedup(cs).value[j]) == k
  {
    var out, ms, ks := Dedup(cs).value, FirstSeen(cs).value, Distinct(KeySeq(cs));
    FirstSeenKeys(cs);
    DedupPermutes(cs);
    DistinctMembers(KeySeq(cs));
    var a := PositionOf(ks, k);
    assert ms[a] in out;
    j := PositionOf(out, ms[a]);
  }

  /** No two results share a key. */
  lemma DedupKeysDistinct(cs: seq<ResolvedConflict>)
    requires Dedup(cs).Some?
    ensures forall j1, j2 :: 0 <= j1 < j2 < |Dedup(cs).value| ==> KeyOf(Dedup(cs).value[j1]) != KeyOf(Dedup(cs).value[j2])
  {
    var out, ms, ks := Dedup(cs).value, FirstSeen(cs).value, Distinct(KeySeq(cs));
    FirstSeenKeys(cs);
    DistinctMembers(KeySeq(cs));
    DedupPermutes(cs);
    PermutationNoDuplicates(ms, out);
    forall j1, j2 | 0 <= j1 < j2 < |out| ensures KeyOf(out[j1]) != KeyOf(out[j2]) {
      assert out[j1] in ms && out[j2] in ms && out[j1] != out[j2];
      KeysOfDistinctFolds(ms, ks, out[j1], out[j2]);
    }
  }

  /** Folds whose keys are pairwise distinct are told apart by their keys. */
  lemma KeysOfDistinctFolds(ms: seq<ResolvedConflict>, ks: seq<Key>, x: ResolvedConflict, y: ResolvedConflict)
    requires |ms| == |ks| && NoDuplicates(ks) && forall i :: 0 <= i < |ms| ==> KeyOf(ms[i]) == ks[i]
    requires x in ms && y in ms && x != y
    ensures KeyOf(x) != KeyOf(y)
  {
    var a :| 0 <= a < |ms| && ms[a] == x;
    var b :| 0 <= b < |ms| && ms[b] == y;
    assert ks[a] != ks[b];
  }

  /** The fold of the group of candidate `c` does not panic. */
  predicate FoldSucceeds(cs: seq<ResolvedConflict>, c: ResolvedConflict)
  {
    Merge(Group(cs, KeyOf(c)), c.resolvedVersion).Some?
  }

  /** `deduplicate_conflicts` panics iff the fold of some candidate's group panics. */
  lemma DedupPanics(cs: seq<ResolvedConflict>)
    ensures Dedup(cs).Some? <==> forall c {:trigger FoldSucceeds(cs, c)} :: c in cs ==> FoldSucceeds(cs, c)
  {
    if Dedup(cs).Some? {
      DedupAllFold(cs);
    }
    if forall c {:trigger FoldSucceeds(cs, c)} :: c in cs ==> FoldSucceeds(cs, c) {
      AllFoldDedup(cs);
    }
  }

  lemma DedupAllFold(cs: seq<ResolvedConflict>)
    requires Dedup(cs).Some?
    ensures forall c {:trigger FoldSucceeds(cs, c)} :: c in cs ==> FoldSucceeds(cs, c)
  {
    forall c | c in cs ensures FoldSucceeds(cs, c) {
      CandidateFolds(cs, c);
    }
  }

  lemma CandidateFolds(cs: seq<ResolvedConflict>, c: ResolvedConflict)
    requires Dedup(cs).Some? && c in cs
    ensures FoldSucceeds(cs, c)
  {
    var ks := Distinct(KeySeq(cs));
    AllSomeShape(Folds(cs, ks));
    FoldsAt(cs, ks);
    DistinctMembers(KeySeq(cs));
    KeySeqAt(cs);
    var i :| 0 <= i < |cs| && cs[i] == c;
    assert KeySeq(cs)[i] in ks;
    var a :| 0 <= a < |ks| && ks[a] == KeyOf(c);
    assert Folds(cs, ks)[a].Some?;
  }

  lemma AllFoldDedup(cs: seq<ResolvedConflict>)
    requires forall c {:trigger FoldSucceeds(cs, c)} :: c in cs ==> FoldSucceeds(cs, c)
    ensures Dedup(cs).Some?
  {
    var ks := Distinct(KeySeq(cs));
    forall a | 0 <= a < |ks| ensures Folds(cs, ks)[a].Some? {
      KeyFolds(cs, a);
    }
    AllSomeShape(Folds(cs, ks));
  }

  lemma KeyFolds(cs: seq<ResolvedConflict>, a: nat)
    requires forall c {:trigger FoldSucceeds(cs, c)} :: c in cs ==> FoldSucceeds(cs, c)
    requires a < |Distinct(KeySeq(cs))|
    ensures Folds(cs, Distinct(KeySeq(cs)))[a].Some?
  {
    var ks := Distinct(KeySeq(cs));
    FoldsAt(cs, ks);
    DistinctMembers(KeySeq(cs));
    KeySeqAt(cs);
    assert ks[a] in KeySeq(cs);
    var i :| 0 <= i < |cs| && KeySeq(cs)[i] == ks[a];
    assert FoldSucceeds(cs, cs[i]);
  }

  /**
   * The results are ordered by file, then line, then group size descending, then endpoint,
   * and results that tie on all four keep the first-seen order of their keys.
   */
  lemma DedupRanked(cs: seq<ResolvedConflict>)
    requires Dedup(cs).Some?
    ensures SortedBy(Dedup(cs).value, RankLeq)
    ensures forall e :: ClassOf(Dedup(cs).value, RankLeq, e) == ClassOf(FirstSeen(cs).value, RankLeq, e)
  {
    RankTotalPreorder();
    SortSorted(FirstSeen(cs).value, RankLeq);
    forall e ensures ClassOf(Dedup(cs).value, RankLeq, e) == ClassOf(FirstSeen(cs).value, RankLeq, e) {
      SortStable(FirstSeen(cs).value, RankLeq, e);
    }
  }

  // ---------------------------------------------------------------------------
  // Group sizes

  /** The total number of folded candidates. */
  function SizeSum(rs: seq<ResolvedConflict>): nat
  {
    if rs == [] then 0 else SizeSum(rs[..|rs| - 1]) + |rs[|rs| - 1].deduplicatedConflicts|
  }

  lemma {:induction false} SizeSumAppend(a: seq<ResolvedConflict>, b: seq<ResolvedConflict>)
    ensures SizeSum(a + b) == SizeSum(a) + SizeSum(b)
  {
    if b == [] {
      assert a + b == a;
    } else {
      var p := b[..|b| - 1];
      SizeSumAppend(a, p);
      assert (a + b)[..|a + b| - 1] == a + p;
    }
  }

  lemma {:induction false} SizeSumInsert(x: ResolvedConflict, s: seq<ResolvedConflict>, leq: (ResolvedConflict, ResolvedConflict) -> bool)
    ensures SizeSum(Insert(x, s, leq)) == SizeSum(s) + |x.deduplicatedConflicts|
  {
    if s == [] {
      assert SizeSum([x]) == SizeSum([]) + |x.deduplicatedConflicts|;
    } else if leq(s[0], x) {
      SizeSumInsert(x, s[1..], leq);
      SizeSumAppend([s[0]], Insert(x, s[1..], leq));
      SizeSumAppend([s[0]], s[1..]);
      assert s == [s[0]] + s[1..];
    } else {
      SizeSumAppend([x], s);
      assert SizeSum([x]) == SizeSum([]) + |x.deduplicatedConflicts|;
    }
  }

  lemma {:induction false} SizeSumSort(s: seq<ResolvedConflict>, leq: (ResolvedConflict, ResolvedConflict) -> bool)
    ensures SizeSum(Sort(s, leq)) == SizeSum(s)
  {
    if s != [] {
      SizeSumSort(s[..|s| - 1], leq);
      SizeSumInsert(s[|s| - 1], Sort(s[..|s| - 1], leq), leq);
    }
  }

  /** The sizes of the groups of the keys `ks`. */
  function GroupSizes(cs: seq<ResolvedConflict>, ks: seq<Key>): nat
  {
    if ks == [] then 0 else GroupSizes(cs, ks[..|ks| - 1]) + |Group(cs, ks[|ks| - 1])|
  }

  lemma {:induction false} GroupSizesSnoc(p: seq<ResolvedConflict>, c: ResolvedConflict, ks: seq<Key>)
    requires NoDuplicates(ks)
    ensures GroupSizes(p + [c], ks) == GroupSizes(p, ks) + (if KeyOf(c) in ks then 1 else 0)
  {
    if ks != [] {
      var front, k := ks[..|ks| - 1], ks[|ks| - 1];
      NoDuplicatesFront(ks);
      GroupSizesSnoc(p, c, front);
      GroupSnoc(p, c, k);
      assert KeyOf(c) in ks <==> KeyOf(c) in front || KeyOf(c) == k by {
        assert ks == front + [k];
      }
    }
  }

  /** The groups of the distinct keys of the input share out all of its candidates. */
  lemma {:induction false} GroupSizesTotal(cs: seq<ResolvedConflict>)
    ensures GroupSizes(cs, Distinct(KeySeq(cs))) == |cs|
  {
    if cs != [] {
      var p, c := cs[..|cs| - 1], cs[|cs| - 1];
      GroupSizesTotal(p);
      var dp := Distinct(KeySeq(p));
      DistinctMembers(KeySeq(p));
      assert cs == p + [c];
      GroupSnoc(p, c, KeyOf(c));
      GroupSizesSnoc(p, c, dp);
      if KeyOf(c) !in dp {
        GroupMembers(p, KeyOf(c));
        assert Distinct(KeySeq(cs)) == dp + [KeyOf(c)];
        assert (dp + [KeyOf(c)])[..|dp|] == dp;
      }
    }
  }

  lemma {:induction false} SizeSumFolds(cs: seq<ResolvedConflict>, ks: seq<Key>)
    requires AllSome(Folds(cs, ks)).Some?
    ensures SizeSum(AllSome(Folds(cs, ks)).value) == GroupSizes(cs, ks)
  {
    if ks != [] {
      var front := ks[..|ks| - 1];
      assert Folds(cs, ks)[..|ks| - 1] == Folds(cs, front);
      SizeSumFolds(cs, front);
      MergeMeaning(Group(cs, ks[|ks| - 1]), ks[|ks| - 1].resolvedVersion, 0, 0);
    }
  }

  /** The group sizes of the results add up to the number of candidates. */
  lemma DedupSizes(cs: seq<ResolvedConflict>)
    requires Dedup(cs).Some?
    ensures SizeSum(Dedup(cs).value) == |cs|
  {
    SizeSumSort(FirstSeen(cs).value, RankLeq);
    SizeSumFolds(cs, Distinct(KeySeq(cs)));
    GroupSizesTotal(cs);
  }

  // ---------------------------------------------------------------------------
  // The imperative passes

  /** The `assert!` loop of the fold: every member shares the first member's conflict. */
  method SharesConflict(group: seq<ResolvedConflict>) returns (b: bool)
    requires group != []
    ensures b <==> SameConflict(group, group[0].conflict)
  {
    var base := group[0].conflict;
    var i := 0;
    while i < |group|
      invariant 0 <= i <= |group|
      invariant forall j :: 0 <= j < i ==> group[j].conflict == base
    {
      if group[i].conflict != base {
        return false;
      }
      i := i + 1;
    }
    return true;
  }

  /** The fold of one group, as the second loop of `deduplicate_conflicts` builds it. */
  method MergeGroup(group: seq<ResolvedConflict>, resolvedVersion: string) returns (r: Option<ResolvedConflict>)
    ensures r == Merge(group, resolvedVersion)
  {
    if group == [] {
      return None;
    }
    var model := CombineModelNames(Models(group));
    if model.Failure? {
      return None;
    }
    var shared := SharesConflict(group);
    if !shared {
      return None;
    }
    r := Some(ResolvedConflict(group[0].conflict, resolvedVersion, model.value, MaxDuration(group), MeanTokens(group),
                               MeanLogprob(group), MinEndpoint(group), group));
  }

  lemma GroupsStep(p: seq<ResolvedConflict>, c: ResolvedConflict)
    ensures KeySeq(p + [c]) == KeySeq(p) + [KeyOf(c)]
    ensures forall k :: Group(p + [c], k) == Group(p, k) + (if KeyOf(c) == k then [c] else [])
  {
    forall k ensures Group(p + [c], k) == Group(p, k) + (if KeyOf(c) == k then [c] else []) {
      GroupSnoc(p, c, k);
    }
    GroupSnoc(p, c, KeyOf(c));
  }

  lemma FirstSeenStep(cs: seq<ResolvedConflict>, i: nat)
    requires i < |cs|
    ensures KeySeq(cs[..i + 1]) == KeySeq(cs[..i]) + [KeyOf(cs[i])]
    ensures Distinct(KeySeq(cs[..i + 1])) ==
              if KeyOf(cs[i]) in KeySeq(cs[..i]) then Distinct(KeySeq(cs[..i]))
              else Distinct(KeySeq(cs[..i])) + [KeyOf(cs[i])]
  {
    assert cs[..i + 1] == cs[..i] + [cs[i]];
    GroupsStep(cs[..i], cs[i]);
    DistinctMembers(KeySeq(cs[..i]));
    assert (KeySeq(cs[..i]) + [KeyOf(cs[i])])[..i] == KeySeq(cs[..i]);
  }

  lemma FoldsSnoc(cs: seq<ResolvedConflict>, ks: seq<Key>, k: Key)
    ensures Folds(cs, ks + [k]) == Folds(cs, ks) + [Merge(Group(cs, k), k.resolvedVersion)]
  {
    MapSeqSnoc(FoldOf(cs), ks, k);
  }

  /** A panicking fold of a key that occurs in the input makes the whole run panic. */
  lemma PanicFromKey(cs: seq<ResolvedConflict>, k: Key)
    requires k in KeySeq(cs) && Merge(Group(cs, k), k.resolvedVersion).None?
    ensures Dedup(cs).None?
  {
    DedupPanics(cs);
    KeySeqAt(cs);
    var i :| 0 <= i < |cs| && KeySeq(cs)[i] == k;
    assert !FoldSucceeds(cs, cs[i]);
  }

  /** `groups` is the grouping map of the candidates `p`. */
  ghost predicate GroupsOf(groups: map<Key, seq<ResolvedConflict>>, p: seq<ResolvedConflict>)
  {
    (forall k :: k in groups <==> k in KeySeq(p)) && (forall k :: k in groups ==> groups[k] == Group(p, k))
  }

  lemma GroupsOfStep(groups: map<Key, seq<ResolvedConflict>>, p: seq<ResolvedConflict>, c: ResolvedConflict)
    requires GroupsOf(groups, p)
    ensures GroupsOf(groups[KeyOf(c) := (if KeyOf(c) in groups then groups[KeyOf(c)] else []) + [c]], p + [c])
  {
    GroupMembers(p, KeyOf(c));
    GroupsStep(p, c);
  }

  /** One turn of the first loop over `cs`. */
  lemma GroupsOfNext(groups: map<Key, seq<ResolvedConflict>>, cs: seq<ResolvedConflict>, i: nat)
    requires i < |cs| && GroupsOf(groups, cs[..i])
    ensures GroupsOf(groups[KeyOf(cs[i]) := (if KeyOf(cs[i]) in groups then groups[KeyOf(cs[i])] else []) + [cs[i]]],
                     cs[..i + 1])
  {
    assert cs[..i + 1] == cs[..i] + [cs[i]];
    GroupsOfStep(groups, cs[..i], cs[i]);
  }

  /** The first loop: the grouping map, each key's candidates in input order. */
  method GroupByKey(conflicts: seq<ResolvedConflict>) returns (groups: map<Key, seq<ResolvedConflict>>)
    ensures forall k :: k in groups <==> k in KeySeq(conflicts)
    ensures forall k :: k in groups ==> groups[k] == Group(conflicts, k)
  {
    groups := map[];
    var i := 0;
    while i < |conflicts|
      invariant 0 <= i <= |conflicts|
      invariant GroupsOf(groups, conflicts[..i])
    {
      var k := KeyOf(conflicts[i]);
      var entry := if k in groups then groups[k] else [];
      GroupsOfNext(groups, conflicts, i);
      groups := groups[k := entry + [conflicts[i]]];
      i := i + 1;
    }
    assert conflicts[..i] == conflicts;
  }

  /** The second loop: one fold per group, visited in whatever order the map yields them. */
  method FoldGroups(groups: map<Key, seq<ResolvedConflict>>) returns (results: Option<map<Key, ResolvedConflict>>)
    ensures results.Some? ==> results.value.Keys == groups.Keys
    ensures results.Some? ==> forall k :: k in results.value ==> Merge(groups[k], k.resolvedVersion) == Some(results.value[k])
    ensures results.None? ==> exists k :: k in groups && Merge(groups[k], k.resolvedVersion).None?
  {
    var folded: map<Key, ResolvedConflict> := map[];
    var pending := groups.Keys;
    while pending != {}
      invariant pending <= groups.Keys
      invariant folded.Keys == groups.Keys - pending
      invariant forall k :: k in folded ==> Merge(groups[k], k.resolvedVersion) == Some(folded[k])
      decreases pending
    {
      var k :| k in pending;
      var m := MergeGroup(groups[k], k.resolvedVersion);
      if m.None? {
        return None;
      }
      folded := folded[k := m.value];
      pending := pending - {k};
    }
    results := Some(folded);
  }

  /** `results` holds the fold of every key of `cs`. */
  ghost predicate FoldsKnown(cs: seq<ResolvedConflict>, results: map<Key, ResolvedConflict>)
  {
    forall k {:trigger KnownFold(cs, results, k)} :: k in KeySeq(cs) ==> KnownFold(cs, results, k)
  }

  ghost predicate KnownFold(cs: seq<ResolvedConflict>, results: map<Key, ResolvedConflict>, k: Key)
  {
    k in results && Merge(Group(cs, k), k.resolvedVersion) == Some(results[k])
  }

  /** What the third loop keeps after the first `i` candidates. */
  ghost predicate SeenSoFar(cs: seq<ResolvedConflict>, i: nat, seen: set<Key>, unique: seq<ResolvedConflict>)
    requires i <= |cs|
  {
    (forall k :: k in seen <==> k in KeySeq(cs[..i]))
    && AllSome(Folds(cs, Distinct(KeySeq(cs[..i])))) == Some(unique)
  }

  lemma SeenStart(cs: seq<ResolvedConflict>)
    ensures SeenSoFar(cs, 0, {}, [])
  {
    assert cs[..0] == [];
  }

  lemma SeenAgain(cs: seq<ResolvedConflict>, i: nat, seen: set<Key>, unique: seq<ResolvedConflict>)
    requires i < |cs| && SeenSoFar(cs, i, seen, unique) && KeyOf(cs[i]) in seen
    ensures SeenSoFar(cs, i + 1, seen, unique)
  {
    FirstSeenStep(cs, i);
    var k := KeyOf(cs[i]);
    assert k in KeySeq(cs[..i]);
    assert Distinct(KeySeq(cs[..i + 1])) == Distinct(KeySeq(cs[..i]));
  }

  lemma SeenFirstKeys(cs: seq<ResolvedConflict>, i: nat, seen: set<Key>)
    requires i < |cs| && forall k :: k in seen <==> k in KeySeq(cs[..i])
    ensures forall k :: k in seen + {KeyOf(cs[i])} <==> k in KeySeq(cs[..i + 1])
  {
    FirstSeenStep(cs, i);
  }

  lemma SeenFirstFolds(cs: seq<ResolvedConflict>, i: nat, unique: seq<ResolvedConflict>, r: ResolvedConflict)
    requires i < |cs| && KeyOf(cs[i]) !in KeySeq(cs[..i])
    requires AllSome(Folds(cs, Distinct(KeySeq(cs[..i])))) == Some(unique)
    requires Merge(Group(cs, KeyOf(cs[i])), KeyOf(cs[i]).resolvedVersion) == Some(r)
    ensures AllSome(Folds(cs, Distinct(KeySeq(cs[..i + 1])))) == Some(unique + [r])
  {
    var k := KeyOf(cs[i]);
    var d := Distinct(KeySeq(cs[..i]));
    FirstSeenStep(cs, i);
    FoldsSnoc(cs, d, k);
    AllSomeSnoc(Folds(cs, d), Some(r));
  }

  lemma SeenFirst(cs: seq<ResolvedConflict>, results: map<Key, ResolvedConflict>, i: nat, seen: set<Key>, unique: seq<ResolvedConflict>)
    requires FoldsKnown(cs, results) && i < |cs| && SeenSoFar(cs, i, seen, unique) && KeyOf(cs[i]) !in seen
    ensures KeyOf(cs[i]) in results
    ensures SeenSoFar(cs, i + 1, seen + {KeyOf(cs[i])}, unique + [results[KeyOf(cs[i])]])
  {
    var k := KeyOf(cs[i]);
    KeySeqAt(cs);
    assert KeySeq(cs)[i] == k;
    assert KnownFold(cs, results, k);
    SeenFirstKeys(cs, i, seen);
    SeenFirstFolds(cs, i, unique, results[k]);
  }

  /** One step of the third loop, whichever branch it takes. */
  lemma SeenStep(cs: seq<ResolvedConflict>, results: map<Key, ResolvedConflict>, i: nat, seen: set<Key>, unique: seq<ResolvedConflict>)
    requires FoldsKnown(cs, results) && i < |cs| && SeenSoFar(cs, i, seen, unique)
    ensures KeyOf(cs[i]) !in seen ==>
              KeyOf(cs[i]) in results && SeenSoFar(cs, i + 1, seen + {KeyOf(cs[i])}, unique + [results[KeyOf(cs[i])]])
    ensures KeyOf(cs[i]) in seen ==> SeenSoFar(cs, i + 1, seen, unique)
  {
    if KeyOf(cs[i]) in seen {
      SeenAgain(cs, i, seen, unique);
    } else {
      SeenFirst(cs, results, i, seen, unique);
    }
  }

  /** The third loop: the folds in first-seen order of their keys, found through a `HashSet`. */
  method OrderFirstSeen(conflicts: seq<ResolvedConflict>, results: map<Key, ResolvedConflict>)
    returns (unique: seq<ResolvedConflict>)
    requires FoldsKnown(conflicts, results)
    ensures FirstSeen(conflicts) == Some(unique)
  {
    var seen: set<Key> := {};
    unique := [];
    var i := 0;
    SeenStart(conflicts);
    while i < |conflicts|
      invariant 0 <= i <= |conflicts|
      invariant SeenSoFar(conflicts, i, seen, unique)
    {
      var k := KeyOf(conflicts[i]);
      SeenStep(conflicts, results, i, seen, unique);
      if k !in seen {
        seen := seen + {k};
        unique := unique + [results[k]];
      }
      i := i + 1;
    }
    assert conflicts[..i] == conflicts;
  }

  /**
   * `deduplicate_conflicts`: group the candidates by key, fold each group, list the folds
   * in first-seen order of their keys and rank them with a stable sort.
   */
  method DeduplicateConflicts(conflicts: seq<ResolvedConflict>) returns (r: Option<seq<ResolvedConflict>>)
    ensures r == Dedup(conflicts)
  {
    var groups := GroupByKey(conflicts);
    var results := FoldGroups(groups);
    if results.None? {
      var k :| k in groups && Merge(groups[k], k.resolvedVersion).None?;
      PanicFromKey(conflicts, k);
      return None;
    }
    var unique := OrderFirstSeen(conflicts, results.value);
    r := Some(Sort(unique, RankLeq));
  }
}
