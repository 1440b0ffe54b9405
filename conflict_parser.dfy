/**
 * Locating and parsing conflict regions (`parse_conflict_from_file`,
 * `parse_conflict_text`, `gen_context`). A file is the sequence of its
 * `split_inclusive('\n')` lines; the region regular expression is modelled by
 * the equivalent scan over those lines.
 *
 * The functions that `parse_conflict_text` is built from carry only the bounds
 * their callers need; what they compute is stated by the lemmas beside them.
 */
module ConflictParser {
  import opened Wrappers
  import opened Text
  import opened Markers

  /** One conflict region as the parser reports it. */
  datatype Conflict = Conflict(
    filePath: string,
    local: string,
    base: string,
    remote: string,
    headContext: string,
    tailContext: string,
    startLine: nat,          // 1-based line of the local marker
    remoteEnd: nat,          // offset of the end marker from the local marker
    nrHeadContextLines: nat,
    nrTailContextLines: nat,
    markerSize: nat)

  datatype ParseError =
    | MissingHeadMarker
    | MissingBaseMarker
    | MissingSeparator
    | MissingEndMarker
    | InvalidMarkers(aiStart: nat, remoteEnd: nat, remoteStart: nat, baseStart: nat, localStart: nat)
    | RemoteSliceReversed   // the slice `conflict_lines[remote_start + 1..ai_start]` panics

  // ---------------------------------------------------------------------------
  // Searching lines

  /** The first index at or after `from` whose line has the shape `kind`. */
  function NextIndex(ls: seq<string>, kind: LineKind, w: nat, from: nat): (r: Option<nat>)
    requires from <= |ls|
    ensures r.Some? ==> from <= r.value < |ls|
    decreases |ls| - from
  {
    if from == |ls| then None
    else if Is(kind, ls[from], w) then Some(from)
    else NextIndex(ls, kind, w, from + 1)
  }

  /** `NextIndex` finds the first matching line at or after `from`, and nothing when there is none. */
  lemma {:induction false} NextIndexFirst(ls: seq<string>, kind: LineKind, w: nat, from: nat)
    requires from <= |ls|
    ensures NextIndex(ls, kind, w, from).None? <==> forall i :: from <= i < |ls| ==> !Is(kind, ls[i], w)
    ensures NextIndex(ls, kind, w, from).Some? ==>
              var j := NextIndex(ls, kind, w, from).value;
              Is(kind, ls[j], w) && forall i :: from <= i < j ==> !Is(kind, ls[i], w)
    decreases |ls| - from
  {
    if from < |ls| && !Is(kind, ls[from], w) {
      NextIndexFirst(ls, kind, w, from + 1);
    }
  }

  /** `ls.iter().position(|l| <l has the shape kind>)` */
  function Position(ls: seq<string>, kind: LineKind, w: nat): (r: Option<nat>)
    ensures r.Some? ==> r.value < |ls|
  {
    NextIndex(ls, kind, w, 0)
  }

  /** `Position` is the index of the first line of shape `kind`. */
  lemma PositionFirst(ls: seq<string>, kind: LineKind, w: nat)
    ensures Position(ls, kind, w).None? <==> forall i :: 0 <= i < |ls| ==> !Is(kind, ls[i], w)
    ensures Position(ls, kind, w).Some? ==>
              var j := Position(ls, kind, w).value;
              Is(kind, ls[j], w) && forall i :: 0 <= i < j ==> !Is(kind, ls[i], w)
  {
    NextIndexFirst(ls, kind, w, 0);
  }

  // ---------------------------------------------------------------------------
  // The region regular expression `(?ms)(^L .*?^B .*?^S\n.*?^E.*?\n)`

  /** A matched region: the line indices of its local-marker line and its end-marker line. */
  datatype Region = Region(first: nat, last: nat)

  /** The leftmost match of the region expression at or after line `from`: the first local
      line, then the first base line after it, the first separator line after that, and the
      first end line after that, which must end in a newline. Taking the first line at each
      step loses no match: `NextRegionShape` and `NextRegionComplete` prove that a region is
      found exactly when the four lines follow `from` in that order. */
  function NextRegion(ls: seq<string>, w: nat, from: nat): (r: Option<Region>)
    requires from <= |ls|
    ensures r.Some? ==> from <= r.value.first < r.value.last < |ls|
  {
    match NextIndex(ls, LocalLine, w, from)
    case None => None
    case Some(i) => RegionAfterLocal(ls, w, i)
  }

  /** The rest of the search once the local line `i` is found. */
  function RegionAfterLocal(ls: seq<string>, w: nat, i: nat): (r: Option<Region>)
    requires i < |ls|
    ensures r.Some? ==> r.value.first == i < r.value.last < |ls|
  {
    match NextIndex(ls, BaseLine, w, i + 1)
    case None => None
    case Some(b) => RegionAfterBase(ls, w, i, b)
  }

  /** The rest of the search once the base line `b` is found. */
  function RegionAfterBase(ls: seq<string>, w: nat, i: nat, b: nat): (r: Option<Region>)
    requires i < b < |ls|
    ensures r.Some? ==> r.value.first == i && b < r.value.last < |ls|
  {
    match NextIndex(ls, SeparatorLine, w, b + 1)
    case None => None
    case Some(s) => RegionAfterSeparator(ls, w, i, s)
  }

  /** The end of the search once the separator line `s` is found. */
  function RegionAfterSeparator(ls: seq<string>, w: nat, i: nat, s: nat): (r: Option<Region>)
    requires i < s < |ls|
    ensures r.Some? ==> r.value.first == i && s < r.value.last < |ls|
  {
    match NextIndex(ls, EndLine, w, s + 1)
    case None => None
    case Some(e) => if EndsInNewline(ls[e]) then Some(Region(i, e)) else None
  }

  /** A matched region starts at a local-marker line and ends at a newline-terminated
      end-marker line, with a base-marker line and then a separator line in between. */
  predicate RegionShape(ls: seq<string>, rg: Region, w: nat)
  {
    && rg.first < rg.last < |ls|
    && Is(LocalLine, ls[rg.first], w) && Is(EndLine, ls[rg.last], w) && EndsInNewline(ls[rg.last])
    && exists b, s :: rg.first < b < s < rg.last && Is(BaseLine, ls[b], w) && Is(SeparatorLine, ls[s], w)
  }

  lemma NextRegionShape(ls: seq<string>, w: nat, from: nat)
    requires from <= |ls|
    ensures NextRegion(ls, w, from).Some? ==> RegionShape(ls, NextRegion(ls, w, from).value, w)
    ensures NextRegion(ls, w, from).None? && NextIndex(ls, LocalLine, w, from).None? ==>
              forall i :: from <= i < |ls| ==> !Is(LocalLine, ls[i], w)
  {
    NextIndexFirst(ls, LocalLine, w, from);
    var r := NextRegion(ls, w, from);
    if r.Some? {
      var i := NextIndex(ls, LocalLine, w, from).value;
      var b := NextIndex(ls, BaseLine, w, i + 1).value;
      var s := NextIndex(ls, SeparatorLine, w, b + 1).value;
      var e := NextIndex(ls, EndLine, w, s + 1).value;
      NextIndexFirst(ls, BaseLine, w, i + 1);
      NextIndexFirst(ls, SeparatorLine, w, b + 1);
      NextIndexFirst(ls, EndLine, w, s + 1);
      assert r.value == Region(i, e);
    }
  }

  /** A line of `kind` at `j` makes the search from any `from <= j` succeed, at `j` or before. */
  lemma NextIndexAtMost(ls: seq<string>, kind: LineKind, w: nat, from: nat, j: nat)
    requires from <= j < |ls| && Is(kind, ls[j], w)
    ensures NextIndex(ls, kind, w, from).Some? && NextIndex(ls, kind, w, from).value <= j
  {
    NextIndexFirst(ls, kind, w, from);
  }

  /** The converse of `NextRegionShape`: when a local, a base, a separator and a
      newline-terminated end line follow line `from` in that order, the search finds a
      region, starting no later than that local line and ending no later than that end
      line. In a line sequence every line but the last ends in a newline, so the end line
      the search takes is newline-terminated whether or not it is the given one. */
  lemma NextRegionComplete(ls: seq<string>, w: nat, from: nat, i: nat, b: nat, s: nat, e: nat)
    requires IsLineSeq(ls) && from <= i < b < s < e < |ls|
    requires Is(LocalLine, ls[i], w) && Is(BaseLine, ls[b], w) && Is(SeparatorLine, ls[s], w)
    requires Is(EndLine, ls[e], w) && EndsInNewline(ls[e])
    ensures NextRegion(ls, w, from).Some?
    ensures NextRegion(ls, w, from).value.first <= i && NextRegion(ls, w, from).value.last <= e
    ensures Regions(ls, w, from) != [] && Regions(ls, w, from)[0] == NextRegion(ls, w, from).value
  {
    NextIndexAtMost(ls, LocalLine, w, from, i);
    var i0 := NextIndex(ls, LocalLine, w, from).value;
    NextIndexAtMost(ls, BaseLine, w, i0 + 1, b);
    var b0 := NextIndex(ls, BaseLine, w, i0 + 1).value;
    NextIndexAtMost(ls, SeparatorLine, w, b0 + 1, s);
    var s0 := NextIndex(ls, SeparatorLine, w, b0 + 1).value;
    NextIndexAtMost(ls, EndLine, w, s0 + 1, e);
    var e0 := NextIndex(ls, EndLine, w, s0 + 1).value;
    assert EndsInNewline(ls[e0]) by {
      if e0 < |ls| - 1 {
        assert EndsInNewline(ls[e0]);
      } else {
        assert e0 == e;
      }
    }
    NextRegionFrom(ls, w, from, i0, b0, s0, e0);
  }

  /** `captures_iter`: the non-overlapping matches from line `from` on, in order. */
  function Regions(ls: seq<string>, w: nat, from: nat): (rs: seq<Region>)
    requires from <= |ls|
    ensures forall k :: 0 <= k < |rs| ==> from <= rs[k].first < rs[k].last < |ls|
    decreases |ls| - from
  {
    match NextRegion(ls, w, from)
    case None => []
    case Some(rg) => [rg] + Regions(ls, w, rg.last + 1)
  }

  /** Every match has the region shape. */
  lemma {:induction false} RegionsMatch(ls: seq<string>, w: nat, from: nat, k: nat)
    requires from <= |ls| && k < |Regions(ls, w, from)|
    ensures RegionShape(ls, Regions(ls, w, from)[k], w)
    decreases k
  {
    RegionsStep(ls, w, from, k);
    if k == 0 {
      NextRegionShape(ls, w, from);
    } else {
      RegionsMatch(ls, w, NextRegion(ls, w, from).value.last + 1, k - 1);
    }
  }

  /** The first match is the region found from `from`; the later ones are the matches after it. */
  lemma RegionsStep(ls: seq<string>, w: nat, from: nat, k: nat)
    requires from <= |ls| && k < |Regions(ls, w, from)|
    ensures NextRegion(ls, w, from).Some?
    ensures k == 0 ==> Regions(ls, w, from)[k] == NextRegion(ls, w, from).value
    ensures k > 0 ==> && var next := NextRegion(ls, w, from).value.last + 1;
                      && next <= |ls| && k - 1 < |Regions(ls, w, next)|
                      && Regions(ls, w, from)[k] == Regions(ls, w, next)[k - 1]
  {
  }

  /** The matches are disjoint and in file order. */
  lemma {:induction false} RegionsOrdered(ls: seq<string>, w: nat, from: nat, k: nat)
    requires from <= |ls| && k + 1 < |Regions(ls, w, from)|
    ensures Regions(ls, w, from)[k].last < Regions(ls, w, from)[k + 1].first
    decreases k
  {
    var rg := NextRegion(ls, w, from).value;
    var rest := Regions(ls, w, rg.last + 1);
    assert Regions(ls, w, from) == [rg] + rest;
    if k > 0 {
      RegionsOrdered(ls, w, rg.last + 1, k - 1);
    }
  }

  /** A file without a local-marker line has no regions. */
  lemma NoLocalLineNoRegions(ls: seq<string>, w: nat)
    requires forall i :: 0 <= i < |ls| ==> !Is(LocalLine, ls[i], w)
    ensures Regions(ls, w, 0) == []
  {
    NextIndexFirst(ls, LocalLine, w, 0);
  }

  // ---------------------------------------------------------------------------
  // Context windows (`gen_context`)

  /** The number of lines at the end of `ls` before the last `stop` line: the length of
      `ls.iter().rev().take_while(|l| !stop(l))`. */
  function BackRun(ls: seq<string>, stop: LineKind, w: nat): (k: nat)
    ensures k <= |ls|
  {
    if ls == [] || Is(stop, ls[|ls| - 1], w) then 0 else BackRun(ls[..|ls| - 1], stop, w) + 1
  }

  /** The suffix `BackRun` counts is free of `stop` lines and is preceded by one, if by anything. */
  lemma {:induction false} BackRunLongest(ls: seq<string>, stop: LineKind, w: nat)
    ensures var k := BackRun(ls, stop, w);
      && (forall i :: |ls| - k <= i < |ls| ==> !Is(stop, ls[i], w))
      && (k < |ls| ==> Is(stop, ls[|ls| - k - 1], w))
  {
    if ls != [] && !Is(stop, ls[|ls| - 1], w) {
      var front := ls[..|ls| - 1];
      BackRunLongest(front, stop, w);
      assert forall i :: 0 <= i < |front| ==> front[i] == ls[i];
    }
  }

  /** The number of lines at the start of `ls` before the first `stop` line: the length of
      `ls.iter().take_while(|l| !stop(l))`. */
  function Run(ls: seq<string>, stop: LineKind, w: nat): (k: nat)
    ensures k <= |ls|
  {
    if ls == [] || Is(stop, ls[0], w) then 0 else Run(ls[1..], stop, w) + 1
  }

  /** The prefix `Run` counts is free of `stop` lines and is followed by one, if by anything. */
  lemma {:induction false} RunLongest(ls: seq<string>, stop: LineKind, w: nat)
    ensures var k := Run(ls, stop, w);
      && (forall i :: 0 <= i < k ==> !Is(stop, ls[i], w))
      && (k < |ls| ==> Is(stop, ls[k], w))
  {
    if ls != [] && !Is(stop, ls[0], w) {
      var rest := ls[1..];
      RunLongest(rest, stop, w);
      assert forall i :: 0 <= i < |rest| ==> rest[i] == ls[i + 1];
    }
  }

  function Min(a: nat, b: nat): nat { if a <= b then a else b }

  /** The head window: the last `n` of the lines before the local marker (line `startLine`)
      that follow the nearest earlier end-marker line. */
  function HeadLines(contentLines: seq<string>, startLine: nat, w: nat, n: nat): seq<string>
    requires 1 <= startLine <= |contentLines|
  {
    var before := contentLines[..startLine][..startLine - 1];
    var kept := BackRun(before, EndLine, w);
    before[|before| - Min(n, kept)..]
  }

  /** The head window is the run of at most `n` lines ending just before the local marker,
      free of end-marker lines, and it stops short only at `n` lines or at an end-marker line. */
  lemma HeadLinesWindow(contentLines: seq<string>, startLine: nat, w: nat, n: nat)
    requires 1 <= startLine <= |contentLines|
    ensures var h := HeadLines(contentLines, startLine, w, n);
      && |h| <= n && |h| <= startLine - 1
      && (forall i :: 0 <= i < |h| ==> h[i] == contentLines[startLine - 1 - |h| + i])
      && (forall i :: startLine - 1 - |h| <= i < startLine - 1 ==> !IsEndLine(contentLines[i], w))
      && (|h| < n && |h| < startLine - 1 ==> IsEndLine(contentLines[startLine - 2 - |h|], w))
  {
    var before := contentLines[..startLine][..startLine - 1];
    BackRunLongest(before, EndLine, w);
    assert forall i :: 0 <= i < |before| ==> before[i] == contentLines[i];
  }

  /** The tail window: the first `n` lines from line index `from` on, stopping before the
      next local-marker line. */
  function TailLines(contentLines: seq<string>, from: nat, w: nat, n: nat): seq<string>
    requires from <= |contentLines|
  {
    var after := contentLines[from..];
    var kept := Run(after, LocalLine, w);
    after[..Min(kept, n)]
  }

  /** The tail window is the run of at most `n` lines starting at `from`, free of local-marker
      lines, and it stops short only at `n` lines or at a local-marker line. */
  lemma TailLinesWindow(contentLines: seq<string>, from: nat, w: nat, n: nat)
    requires from <= |contentLines|
    ensures var t := TailLines(contentLines, from, w, n);
      && |t| <= n && from + |t| <= |contentLines|
      && (forall i :: 0 <= i < |t| ==> t[i] == contentLines[from + i])
      && (forall i :: from <= i < from + |t| ==> !IsLocalLine(contentLines[i], w))
      && (|t| < n && from + |t| < |contentLines| ==> IsLocalLine(contentLines[from + |t|], w))
  {
    var after := contentLines[from..];
    RunLongest(after, LocalLine, w);
    assert forall i :: 0 <= i < |after| ==> after[i] == contentLines[from + i];
  }

  /** `gen_context`: (nr_head_context_lines, nr_tail_context_lines, head_context, tail_context). */
  function GenContext(conflictLines: seq<string>, contentLines: seq<string>, startLine: nat, w: nat, n: nat)
    : (nat, nat, string, string)
    requires 1 <= startLine && 1 <= |conflictLines| && startLine - 1 + |conflictLines| <= |contentLines|
  {
    var head := HeadLines(contentLines, startLine, w, n);
    var tail := TailLines(contentLines, startLine + |conflictLines| - 1, w, n);
    (|head|, |tail|, Concat(head), Concat(tail))
  }

  /** The context counts are the sizes of the two windows, at most `n` each, and the texts
      are the windows joined; the tail window starts right after the end-marker line. */
  lemma GenContextWindows(conflictLines: seq<string>, contentLines: seq<string>, startLine: nat, w: nat, n: nat)
    requires 1 <= startLine && 1 <= |conflictLines| && startLine - 1 + |conflictLines| <= |contentLines|
    ensures var ctx := GenContext(conflictLines, contentLines, startLine, w, n);
      var head := HeadLines(contentLines, startLine, w, n);
      var tail := TailLines(contentLines, startLine - 1 + |conflictLines|, w, n);
      && ctx.0 == |head| <= n && ctx.1 == |tail| <= n
      && ctx.2 == Concat(head) && ctx.3 == Concat(tail)
  {
    HeadLinesWindow(contentLines, startLine, w, n);
    TailLinesWindow(contentLines, startLine - 1 + |conflictLines|, w, n);
  }

  // ---------------------------------------------------------------------------
  // `parse_conflict_text`

  /** The marker positions `parse_conflict_text` validates: local < base < separator < end,
      and the resolution marker (or the end marker when there is none) at or before the end. */
  predicate ValidOrder(aiStart: nat, remoteEnd: nat, remoteStart: nat, baseStart: nat, localStart: nat)
  {
    !(remoteEnd < aiStart || remoteEnd <= remoteStart || remoteStart <= baseStart || baseStart <= localStart)
  }

  /** The first line of each marker kind within a matched block. */
  datatype Layout = Layout(localStart: nat, baseStart: nat, remoteStart: nat, remoteEnd: nat, aiStart: nat)

  /** `m2` is `m` with the end marker `k` lines further down. */
  predicate EndMoved(m: Layout, m2: Layout, k: nat)
  {
    && m2.localStart == m.localStart && m2.baseStart == m.baseStart && m2.remoteStart == m.remoteStart
    && m2.aiStart == m.aiStart && m2.remoteEnd == m.remoteEnd + k
  }

  /** The marker search and order validation of `parse_conflict_text`. */
  function MarkerLayout(conflictLines: seq<string>, w: nat): (r: Result<Layout, ParseError>)
    ensures r.Success? ==>
      && r.value.localStart < r.value.baseStart < r.value.remoteStart < r.value.remoteEnd < |conflictLines|
      && r.value.aiStart <= r.value.remoteEnd
  {
    match Position(conflictLines, LocalLine, w)
    case None => Failure(MissingHeadMarker)
    case Some(localStart) =>
      match Position(conflictLines, BaseLine, w)
      case None => Failure(MissingBaseMarker)
      case Some(baseStart) =>
        match Position(conflictLines, SeparatorLine, w)
        case None => Failure(MissingSeparator)
        case Some(remoteStart) =>
          match Position(conflictLines, EndLine, w)
          case None => Failure(MissingEndMarker)
          case Some(remoteEnd) =>
            var aiStart := Position(conflictLines, AiLine, w).GetOr(remoteEnd);
            if !ValidOrder(aiStart, remoteEnd, remoteStart, baseStart, localStart) then
              Failure(InvalidMarkers(aiStart, remoteEnd, remoteStart, baseStart, localStart))
            else
              Success(Layout(localStart, baseStart, remoteStart, remoteEnd, aiStart))
  }

  /** A layout holds the first line of each marker kind, the resolution marker defaulting to
      the end marker; the search fails with the first missing kind, in the order local, base,
      separator, end, and otherwise with the positions that break the order. */
  lemma MarkerLayoutPositions(conflictLines: seq<string>, w: nat)
    ensures var r := MarkerLayout(conflictLines, w);
      r.Success? <==>
        && Position(conflictLines, LocalLine, w).Some? && Position(conflictLines, BaseLine, w).Some?
        && Position(conflictLines, SeparatorLine, w).Some? && Position(conflictLines, EndLine, w).Some?
        && var e := Position(conflictLines, EndLine, w).value;
           ValidOrder(Position(conflictLines, AiLine, w).GetOr(e), e, Position(conflictLines, SeparatorLine, w).value,
                      Position(conflictLines, BaseLine, w).value, Position(conflictLines, LocalLine, w).value)
    ensures var r := MarkerLayout(conflictLines, w);
      r.Success? ==>
        && Position(conflictLines, LocalLine, w) == Some(r.value.localStart)
        && Position(conflictLines, BaseLine, w) == Some(r.value.baseStart)
        && Position(conflictLines, SeparatorLine, w) == Some(r.value.remoteStart)
        && Position(conflictLines, EndLine, w) == Some(r.value.remoteEnd)
        && r.value.aiStart == Position(conflictLines, AiLine, w).GetOr(r.value.remoteEnd)
    ensures var r := MarkerLayout(conflictLines, w);
      && (r == Failure(MissingHeadMarker) <==> Position(conflictLines, LocalLine, w).None?)
      && (r == Failure(MissingBaseMarker) <==>
            Position(conflictLines, LocalLine, w).Some? && Position(conflictLines, BaseLine, w).None?)
      && (r.Failure? && r.error.InvalidMarkers? ==>
            !ValidOrder(r.error.aiStart, r.error.remoteEnd, r.error.remoteStart, r.error.baseStart, r.error.localStart))
      && (r.Failure? ==> !r.error.RemoteSliceReversed?)
  {
  }

  /** The conflict `parse_conflict_text` builds once the markers are found in a valid order. */
  function BuildConflict(conflictLines: seq<string>, contentLines: seq<string>, startLine: nat,
                         filePath: string, w: nat, n: nat, m: Layout): Conflict
    requires 1 <= startLine && startLine - 1 + |conflictLines| <= |contentLines|
    requires m.localStart < m.baseStart < m.remoteStart < m.aiStart <= m.remoteEnd < |conflictLines|
  {
    var ctx := GenContext(conflictLines, contentLines, startLine, w, n);
    Conflict(
      filePath,
      Concat(conflictLines[m.localStart + 1..m.baseStart]),
      Concat(conflictLines[m.baseStart + 1..m.remoteStart]),
      Concat(conflictLines[m.remoteStart + 1..m.aiStart]),
      ctx.2, ctx.3, startLine, m.remoteEnd, ctx.0, ctx.1, w)
  }

  /** `parse_conflict_text`. A resolution marker before the separator makes the remote
      slice reversed, which panics in the source. */
  function ParseConflictText(conflictLines: seq<string>, contentLines: seq<string>, startLine: nat,
                             filePath: string, w: nat, n: nat): Result<Conflict, ParseError>
    requires 1 <= startLine && startLine - 1 + |conflictLines| <= |contentLines|
  {
    match MarkerLayout(conflictLines, w)
    case Failure(e) => Failure(e)
    case Success(m) =>
      if m.aiStart < m.remoteStart + 1 then
        Failure(RemoteSliceReversed)
      else
        Success(BuildConflict(conflictLines, contentLines, startLine, filePath, w, n, m))
  }

  /** Once the layout is known and the resolution marker follows the separator, parsing
      succeeds with the conflict built from that layout. */
  lemma ParseConflictTextIs(conflictLines: seq<string>, contentLines: seq<string>, startLine: nat,
                            filePath: string, w: nat, n: nat, m: Layout)
    requires 1 <= startLine && startLine - 1 + |conflictLines| <= |contentLines|
    requires MarkerLayout(conflictLines, w) == Success(m) && m.remoteStart < m.aiStart
    ensures ParseConflictText(conflictLines, contentLines, startLine, filePath, w, n)
              == Success(BuildConflict(conflictLines, contentLines, startLine, filePath, w, n, m))
  {
  }

  /** On success `local`, `base` and `remote` are the lines strictly between the local and
      base markers, the base marker and the separator, and the separator and the resolution
      marker (the end marker when there is none), and the conflict records where it starts. */
  lemma ParseConflictTextSections(conflictLines: seq<string>, contentLines: seq<string>, startLine: nat,
                                  filePath: string, w: nat, n: nat)
    requires 1 <= startLine && startLine - 1 + |conflictLines| <= |contentLines|
    ensures ParseConflictText(conflictLines, contentLines, startLine, filePath, w, n).Success? ==>
              MarkerLayout(conflictLines, w).Success?
              && MarkerLayout(conflictLines, w).value.remoteStart < MarkerLayout(conflictLines, w).value.aiStart
    ensures ParseConflictText(conflictLines, contentLines, startLine, filePath, w, n).Success? ==>
              var c := ParseConflictText(conflictLines, contentLines, startLine, filePath, w, n).value;
              c.startLine == startLine && c.filePath == filePath && c.markerSize == w
    ensures ParseConflictText(conflictLines, contentLines, startLine, filePath, w, n).Success? ==>
              var c := ParseConflictText(conflictLines, contentLines, startLine, filePath, w, n).value;
              var m := MarkerLayout(conflictLines, w).value;
              c.local == Concat(conflictLines[m.localStart + 1..m.baseStart])
    ensures ParseConflictText(conflictLines, contentLines, startLine, filePath, w, n).Success? ==>
              var c := ParseConflictText(conflictLines, contentLines, startLine, filePath, w, n).value;
              var m := MarkerLayout(conflictLines, w).value;
              c.base == Concat(conflictLines[m.baseStart + 1..m.remoteStart])
    ensures ParseConflictText(conflictLines, contentLines, startLine, filePath, w, n).Success? ==>
              var c := ParseConflictText(conflictLines, contentLines, startLine, filePath, w, n).value;
              var m := MarkerLayout(conflictLines, w).value;
              c.remote == Concat(conflictLines[m.remoteStart + 1..m.aiStart]) && c.remoteEnd == m.remoteEnd
  {
    var ml := MarkerLayout(conflictLines, w);
    if ml.Success? && ml.value.remoteStart < ml.value.aiStart {
      var c := BuildConflict(conflictLines, contentLines, startLine, filePath, w, n, ml.value);
      assert ParseConflictText(conflictLines, contentLines, startLine, filePath, w, n) == Success(c);
    }
  }

  /** Parsing fails exactly when the marker search or order check fails, with that error, or
      when the resolution marker precedes the separator. */
  lemma ParseConflictTextErrors(conflictLines: seq<string>, contentLines: seq<string>, startLine: nat,
                                filePath: string, w: nat, n: nat)
    requires 1 <= startLine && startLine - 1 + |conflictLines| <= |contentLines|
    ensures var r := ParseConflictText(conflictLines, contentLines, startLine, filePath, w, n);
      var ml := MarkerLayout(conflictLines, w);
      && (ml.Failure? ==> r == Failure(ml.error))
      && (ml.Success? ==> (r.Failure? <==> ml.value.aiStart <= ml.value.remoteStart))
      && (r.Failure? && ml.Success? ==> r.error == RemoteSliceReversed)
  {
  }

  // ---------------------------------------------------------------------------
  // `parse_conflict_from_file`

  /** The matched text and its start line, as `parse_conflict_from_file` computes them: the
      1-based start line is one more than the number of newlines before the match. */
  function MatchText(lines: seq<string>, rg: Region): string
    requires rg.first < rg.last < |lines|
  {
    Concat(lines[rg.first..rg.last + 1])
  }

  function MatchStartLine(lines: seq<string>, rg: Region): nat
    requires rg.first < rg.last < |lines|
  {
    CountChar(Concat(lines[..rg.first]), '\n') + 1
  }

  /** Re-splitting the matched text gives back the region's lines, and the start line is the
      region's first line, counted from 1. */
  lemma MatchLines(lines: seq<string>, rg: Region)
    requires IsLineSeq(lines) && rg.first < rg.last < |lines|
    ensures SplitInclusive(MatchText(lines, rg)) == lines[rg.first..rg.last + 1]
    ensures MatchStartLine(lines, rg) == rg.first + 1
  {
    MatchTextLines(lines, rg);
    NewlinesBefore(lines, rg.first);
  }

  lemma MatchTextLines(lines: seq<string>, rg: Region)
    requires IsLineSeq(lines) && rg.first < rg.last < |lines|
    ensures SplitInclusive(MatchText(lines, rg)) == lines[rg.first..rg.last + 1]
  {
    SliceIsLineSeq(lines, rg.first, rg.last + 1);
    SplitConcat(lines[rg.first..rg.last + 1]);
  }

  /** One matched region parsed on its own. */
  function ParseMatch(lines: seq<string>, rg: Region, filePath: string, w: nat, n: nat): Result<Conflict, ParseError>
    requires IsLineSeq(lines) && rg.first < rg.last < |lines|
  {
    MatchLines(lines, rg);
    ParseConflictText(SplitInclusive(MatchText(lines, rg)), lines, MatchStartLine(lines, rg), filePath, w, n)
  }

  /** Each matched region parsed on its own, against the whole file. */
  function ParsedRegions(lines: seq<string>, rs: seq<Region>, filePath: string, w: nat, n: nat)
    : (ps: seq<Result<Conflict, ParseError>>)
    requires IsLineSeq(lines) && forall k :: 0 <= k < |rs| ==> rs[k].first < rs[k].last < |lines|
    ensures |ps| == |rs|
  {
    if rs == [] then []
    else ParsedRegions(lines, rs[..|rs| - 1], filePath, w, n) + [ParseMatch(lines, rs[|rs| - 1], filePath, w, n)]
  }

  lemma {:induction false} ParsedRegionsAt(lines: seq<string>, rs: seq<Region>, filePath: string, w: nat, n: nat, k: nat)
    requires IsLineSeq(lines) && forall j :: 0 <= j < |rs| ==> rs[j].first < rs[j].last < |lines|
    requires k < |rs|
    ensures ParsedRegions(lines, rs, filePath, w, n)[k] == ParseMatch(lines, rs[k], filePath, w, n)
  {
    var front := rs[..|rs| - 1];
    assert forall j :: 0 <= j < |front| ==> front[j] == rs[j];
    var last := ParseMatch(lines, rs[|rs| - 1], filePath, w, n);
    assert ParsedRegions(lines, rs, filePath, w, n) == ParsedRegions(lines, front, filePath, w, n) + [last];
    if k < |front| {
      ParsedRegionsAt(lines, front, filePath, w, n, k);
    }
  }

  /** The conflicts of a file: each matched region parsed in turn; the first failure aborts. */
  function ParseFile(content: string, filePath: string, w: nat, n: nat): Result<seq<Conflict>, ParseError>
  {
    var lines := SplitInclusive(content);
    SplitInclusiveShape(content);
    Collect(ParsedRegions(lines, Regions(lines, w, 0), filePath, w, n))
  }

  /** Conflict `k` comes from region `k`. */
  predicate FromRegions(cs: seq<Conflict>, rs: seq<Region>, filePath: string, w: nat)
  {
    |cs| == |rs| && forall k :: 0 <= k < |rs| ==>
      cs[k].startLine == rs[k].first + 1 && cs[k].filePath == filePath && cs[k].markerSize == w
  }

  /** A parsed region starts on the region's first line. */
  lemma ParseMatchStart(lines: seq<string>, rg: Region, filePath: string, w: nat, n: nat)
    requires IsLineSeq(lines) && rg.first < rg.last < |lines|
    ensures ParseMatch(lines, rg, filePath, w, n).Success? ==>
              var c := ParseMatch(lines, rg, filePath, w, n).value;
              c.startLine == rg.first + 1 && c.filePath == filePath && c.markerSize == w
  {
    MatchLines(lines, rg);
    ParseConflictTextSections(lines[rg.first..rg.last + 1], lines, rg.first + 1, filePath, w, n);
  }

  // ---------------------------------------------------------------------------
  // Re-parsing after an insertion before the end marker

  /** `NextIndex` looks no further than the line it finds. */
  lemma {:induction false} NextIndexPrefix(ls: seq<string>, ls2: seq<string>, kind: LineKind, w: nat, from: nat, j: nat)
    requires from <= j < |ls| && j < |ls2| && ls[..j + 1] == ls2[..j + 1]
    requires NextIndex(ls, kind, w, from) == Some(j)
    ensures NextIndex(ls2, kind, w, from) == Some(j)
    decreases j - from
  {
    assert ls[from] == ls[..j + 1][from] == ls2[from];
    if !Is(kind, ls[from], w) {
      NextIndexPrefix(ls, ls2, kind, w, from + 1, j);
    }
  }

  /** `NextIndex` finds `j` when the line at `j` has the shape and no line from `from` up to it has. */
  lemma NextIndexAt(ls: seq<string>, kind: LineKind, w: nat, from: nat, j: nat)
    requires from <= j < |ls| && Is(kind, ls[j], w)
    requires forall t :: from <= t < j ==> !Is(kind, ls[t], w)
    ensures NextIndex(ls, kind, w, from) == Some(j)
  {
    NextIndexFirst(ls, kind, w, from);
  }

  /** The steps of a found region: its local line, then the first base line after it, the
      first separator after that, and the first end line after that, which is the region's last. */
  lemma NextRegionSteps(ls: seq<string>, w: nat, from: nat, rg: Region)
    requires from <= |ls| && NextRegion(ls, w, from) == Some(rg)
    ensures NextIndex(ls, LocalLine, w, from) == Some(rg.first)
    ensures NextIndex(ls, BaseLine, w, rg.first + 1).Some?
    ensures var b := NextIndex(ls, BaseLine, w, rg.first + 1).value;
            NextIndex(ls, SeparatorLine, w, b + 1).Some?
            && NextIndex(ls, EndLine, w, NextIndex(ls, SeparatorLine, w, b + 1).value + 1) == Some(rg.last)
            && EndsInNewline(ls[rg.last])
  {
  }

  /** A region is found when its four steps are. */
  lemma NextRegionFrom(ls: seq<string>, w: nat, from: nat, i: nat, b: nat, s: nat, e: nat)
    requires from <= |ls| && NextIndex(ls, LocalLine, w, from) == Some(i)
    requires i + 1 <= |ls| && NextIndex(ls, BaseLine, w, i + 1) == Some(b)
    requires b + 1 <= |ls| && NextIndex(ls, SeparatorLine, w, b + 1) == Some(s)
    requires s + 1 <= |ls| && NextIndex(ls, EndLine, w, s + 1) == Some(e) && EndsInNewline(ls[e])
    ensures NextRegion(ls, w, from) == Some(Region(i, e))
  {
    SeparatorStep(ls, w, i, s, e);
    BaseStep(ls, w, i, b, s, Region(i, e));
    LocalStep(ls, w, i, b, Region(i, e));
  }

  /** The last step of the region search, from the separator line `s`. */
  lemma SeparatorStep(ls: seq<string>, w: nat, i: nat, s: nat, e: nat)
    requires i < s < |ls| && NextIndex(ls, EndLine, w, s + 1) == Some(e) && EndsInNewline(ls[e])
    ensures RegionAfterSeparator(ls, w, i, s) == Some(Region(i, e))
  {
  }

  /** The step from the base line `b` to the separator line `s`. */
  lemma BaseStep(ls: seq<string>, w: nat, i: nat, b: nat, s: nat, rg: Region)
    requires i < b < s < |ls| && NextIndex(ls, SeparatorLine, w, b + 1) == Some(s)
    requires RegionAfterSeparator(ls, w, i, s) == Some(rg)
    ensures RegionAfterBase(ls, w, i, b) == Some(rg)
  {
  }

  /** The step from the local line `i` to the base line `b`. */
  lemma LocalStep(ls: seq<string>, w: nat, i: nat, b: nat, rg: Region)
    requires i < b < |ls| && NextIndex(ls, BaseLine, w, i + 1) == Some(b)
    requires RegionAfterBase(ls, w, i, b) == Some(rg)
    ensures RegionAfterLocal(ls, w, i) == Some(rg)
  {
  }

  /** The first line of a kind in a slice, known to lie at or after `from`, is the one
      `NextIndex` finds from `from` in the whole sequence. */
  lemma PositionInSlice(lines: seq<string>, i: nat, e: nat, kind: LineKind, w: nat, from: nat, j: nat, p: nat)
    requires i <= from <= e < |lines| && NextIndex(lines, kind, w, from) == Some(j) && j <= e
    requires Position(lines[i..e + 1], kind, w) == Some(p) && from <= i + p
    ensures p == j - i
  {
    var ls := lines[i..e + 1];
    NextIndexFirst(lines, kind, w, from);
    PositionFirst(ls, kind, w);
    assert ls[p] == lines[i + p];
    assert ls[j - i] == lines[j];
  }

  /** In a matched region whose markers pass the order check, the end marker the parser finds
      is the region's last line, and the marker size is positive. */
  lemma RegionEndMarker(lines: seq<string>, rg: Region, w: nat)
    requires rg.first <= |lines| && NextRegion(lines, w, rg.first) == Some(rg)
    requires MarkerLayout(lines[rg.first..rg.last + 1], w).Success?
    ensures MarkerLayout(lines[rg.first..rg.last + 1], w).value.remoteEnd == rg.last - rg.first
    ensures w >= 1
  {
    var i, e := rg.first, rg.last;
    var ls := lines[i..e + 1];
    var m := MarkerLayout(ls, w).value;
    NextRegionSteps(lines, w, i, rg);
    var b := NextIndex(lines, BaseLine, w, i + 1).value;
    var s := NextIndex(lines, SeparatorLine, w, b + 1).value;
    MarkerLayoutPositions(ls, w);
    PositionInSlice(lines, i, e, BaseLine, w, i + 1, b, m.baseStart);
    PositionInSlice(lines, i, e, SeparatorLine, w, b + 1, s, m.remoteStart);
    PositionInSlice(lines, i, e, EndLine, w, s + 1, e, m.remoteEnd);
    PositionFirst(ls, EndLine, w);
    assert !IsEndLine(ls[0], w);
  }

  /** Inserting lines before the end marker of a matched region, none of them an end marker,
      leaves a region found from the same line that ends at the moved end marker. */
  lemma InsertBeforeEndRegion(lines: seq<string>, rg: Region, w: nat, xs: seq<string>, r: seq<string>, k: nat)
    requires rg.first <= |lines| && NextRegion(lines, w, rg.first) == Some(rg)
    requires forall j :: 0 <= j < |xs| ==> !IsEndLine(xs[j], w)
    requires r == lines[..rg.last] + xs + lines[rg.last..] && k == |xs|
    ensures NextRegion(r, w, rg.first) == Some(Region(rg.first, rg.last + k))
  {
    NextRegionSteps(lines, w, rg.first, rg);
    var b := NextIndex(lines, BaseLine, w, rg.first + 1).value;
    var s := NextIndex(lines, SeparatorLine, w, b + 1).value;
    InsertBeforeEndSteps(lines, w, xs, rg.first, b, s, rg.last);
  }

  /** The four steps of the region search, before and after the insertion. */
  lemma InsertBeforeEndSteps(lines: seq<string>, w: nat, xs: seq<string>, i: nat, b: nat, s: nat, e: nat)
    requires i < b < s < e < |lines|
    requires NextIndex(lines, LocalLine, w, i) == Some(i) && NextIndex(lines, BaseLine, w, i + 1) == Some(b)
    requires NextIndex(lines, SeparatorLine, w, b + 1) == Some(s) && NextIndex(lines, EndLine, w, s + 1) == Some(e)
    requires EndsInNewline(lines[e])
    requires forall j :: 0 <= j < |xs| ==> !IsEndLine(xs[j], w)
    ensures NextRegion(lines[..e] + xs + lines[e..], w, i) == Some(Region(i, e + |xs|))
  {
    var r := lines[..e] + xs + lines[e..];
    assert r[..s + 1] == lines[..s + 1];
    NextIndexPrefix(lines, r, LocalLine, w, i, i);
    NextIndexPrefix(lines, r, BaseLine, w, i + 1, b);
    NextIndexPrefix(lines, r, SeparatorLine, w, b + 1, s);
    EndAfterInsert(lines, r, w, xs, s + 1, e);
    assert r[e + |xs|] == lines[e];
    NextRegionFrom(r, w, i, i, b, s, e + |xs|);
  }

  /** The next end line after an insertion of non-end lines just before the old one is the old
      one moved down. */
  lemma EndAfterInsert(lines: seq<string>, r: seq<string>, w: nat, xs: seq<string>, from: nat, e: nat)
    requires from <= e < |lines| && NextIndex(lines, EndLine, w, from) == Some(e)
    requires r == lines[..e] + xs + lines[e..]
    requires forall j :: 0 <= j < |xs| ==> !IsEndLine(xs[j], w)
    ensures NextIndex(r, EndLine, w, from) == Some(e + |xs|)
  {
    assert forall t :: from <= t < e ==> !Is(EndLine, lines[t], w) by {
      NextIndexFirst(lines, EndLine, w, from);
    }
    InsertedNoEnd(lines, r, w, xs, from, e);
    assert Is(EndLine, r[e + |xs|], w) by {
      NextIndexFirst(lines, EndLine, w, from);
      assert r[e + |xs|] == lines[e];
    }
    NextIndexAt(r, EndLine, w, from, e + |xs|);
  }

  /** Inserting non-end lines at `e` into a stretch from `from` with no end line before `e`
      leaves no end line before the old line `e`. */
  lemma InsertedNoEnd(lines: seq<string>, r: seq<string>, w: nat, xs: seq<string>, from: nat, e: nat)
    requires from <= e < |lines| && r == lines[..e] + xs + lines[e..]
    requires forall j :: 0 <= j < |xs| ==> !IsEndLine(xs[j], w)
    requires forall t :: from <= t < e ==> !Is(EndLine, lines[t], w)
    ensures forall t :: from <= t < e + |xs| ==> !Is(EndLine, r[t], w)
  {
    forall t | from <= t < e + |xs| ensures !Is(EndLine, r[t], w) {
      if t < e {
        assert r[t] == lines[t];
      } else {
        assert r[t] == xs[t - e];
      }
    }
  }

  /** After such an insertion, led by a resolution marker, the markers of the new region are
      where they were, except the end marker, which has moved down past the inserted lines:
      the remote section still ends at the first resolution marker of the region, which is
      the inserted one when the region had none. */
  lemma InsertBeforeEndLayout(lines: seq<string>, rg: Region, w: nat, xs: seq<string>)
    requires rg.first <= |lines| && NextRegion(lines, w, rg.first) == Some(rg)
    requires MarkerLayout(lines[rg.first..rg.last + 1], w).Success?
    requires |xs| >= 1 && IsAiLine(xs[0], w)
    requires forall j :: 0 <= j < |xs| ==> !IsEndLine(xs[j], w)
    ensures var ns := (lines[..rg.last] + xs + lines[rg.last..])[rg.first..rg.last + |xs| + 1];
            var m := MarkerLayout(lines[rg.first..rg.last + 1], w).value;
            MarkerLayout(ns, w).Success? && EndMoved(m, MarkerLayout(ns, w).value, |xs|)
            && AgreeBelow(lines[rg.first..rg.last + 1], ns, m.remoteEnd)
  {
    var i, e := rg.first, rg.last;
    var ls := lines[i..e + 1];
    var ns := (lines[..e] + xs + lines[e..])[i..e + |xs| + 1];
    RegionEndMarker(lines, rg, w);
    InsertSlice(lines, i, e, xs);
    LayoutAfterInsert(ls, ns, w, xs, MarkerLayout(ls, w).value);
  }

  /** A conflict parsed from a matched region ends at the region's last line, which is the
      line `start_line + remote_end - 1` counted from 0, and its marker size is positive. */
  lemma ParsedRegionEnd(lines: seq<string>, rg: Region, filePath: string, w: nat, n: nat)
    requires IsLineSeq(lines) && rg.first <= |lines| && NextRegion(lines, w, rg.first) == Some(rg)
    requires ParseMatch(lines, rg, filePath, w, n).Success?
    ensures var c := ParseMatch(lines, rg, filePath, w, n).value;
            c.startLine + c.remoteEnd - 1 == rg.last && w >= 1
  {
    var ls := lines[rg.first..rg.last + 1];
    MatchLines(lines, rg);
    ParseConflictTextSections(ls, lines, rg.first + 1, filePath, w, n);
    RegionEndMarker(lines, rg, w);
  }

  /** A matched region parses as its own lines, starting on its first line. */
  lemma ParseMatchIs(lines: seq<string>, rg: Region, filePath: string, w: nat, n: nat)
    requires IsLineSeq(lines) && rg.first < rg.last < |lines|
    ensures ParseMatch(lines, rg, filePath, w, n)
              == ParseConflictText(lines[rg.first..rg.last + 1], lines, rg.first + 1, filePath, w, n)
  {
    MatchLines(lines, rg);
  }

  /** Re-parsing a matched region after inserting `k` lines before its end marker, led by a
      resolution marker and holding no end marker: the region found again from the same line,
      which ends `k` lines further down, gives the same local, base and remote
      sections. */
  lemma ReparseAfterInsert(lines: seq<string>, rg: Region, filePath: string, w: nat, n: nat,
                           xs: seq<string>, r: seq<string>, k: nat)
    requires rg.first <= |lines| && NextRegion(lines, w, rg.first) == Some(rg)
    requires MarkerLayout(lines[rg.first..rg.last + 1], w).Success?
    requires MarkerLayout(lines[rg.first..rg.last + 1], w).value.remoteStart
             < MarkerLayout(lines[rg.first..rg.last + 1], w).value.aiStart
    requires |xs| >= 1 && IsAiLine(xs[0], w)
    requires forall j :: 0 <= j < |xs| ==> !IsEndLine(xs[j], w)
    requires r == lines[..rg.last] + xs + lines[rg.last..] && k == |xs|
    requires IsLineSeq(lines) && IsLineSeq(r)
    ensures && ParseMatch(lines, rg, filePath, w, n).Success?
            && ParseMatch(r, Region(rg.first, rg.last + k), filePath, w, n).Success?
            && var c := ParseMatch(lines, rg, filePath, w, n).value;
               var c2 := ParseMatch(r, Region(rg.first, rg.last + k), filePath, w, n).value;
               c2.local == c.local && c2.base == c.base && c2.remote == c.remote
               && c2.startLine == c.startLine && c2.remoteEnd == c.remoteEnd + k
  {
    InsertBeforeEndLayout(lines, rg, w, xs);
    ReparseInserted(lines, rg, filePath, w, n, xs, r, k);
  }

  /** The same, from the layouts before and after the insertion. */
  lemma ReparseInserted(lines: seq<string>, rg: Region, filePath: string, w: nat, n: nat,
                        xs: seq<string>, r: seq<string>, k: nat)
    requires rg.first < rg.last < |lines|
    requires MarkerLayout(lines[rg.first..rg.last + 1], w).Success?
    requires MarkerLayout(lines[rg.first..rg.last + 1], w).value.remoteStart
             < MarkerLayout(lines[rg.first..rg.last + 1], w).value.aiStart
    requires var ns := (lines[..rg.last] + xs + lines[rg.last..])[rg.first..rg.last + |xs| + 1];
             var m := MarkerLayout(lines[rg.first..rg.last + 1], w).value;
             MarkerLayout(ns, w).Success? && EndMoved(m, MarkerLayout(ns, w).value, |xs|)
             && AgreeBelow(lines[rg.first..rg.last + 1], ns, m.remoteEnd)
    requires r == lines[..rg.last] + xs + lines[rg.last..] && k == |xs|
    requires IsLineSeq(lines) && IsLineSeq(r)
    ensures && ParseMatch(lines, rg, filePath, w, n).Success?
            && ParseMatch(r, Region(rg.first, rg.last + k), filePath, w, n).Success?
            && var c := ParseMatch(lines, rg, filePath, w, n).value;
               var c2 := ParseMatch(r, Region(rg.first, rg.last + k), filePath, w, n).value;
               c2.local == c.local && c2.base == c.base && c2.remote == c.remote
               && c2.startLine == c.startLine && c2.remoteEnd == c.remoteEnd + k
  {
    ReparseMatch(lines, rg, r, Region(rg.first, rg.last + k), filePath, w, n, k);
  }

  /** A region that parses has a layout with the remote section before the resolution marker. */
  lemma MatchLayout(lines: seq<string>, rg: Region, filePath: string, w: nat, n: nat)
    requires IsLineSeq(lines) && rg.first < rg.last < |lines|
    requires ParseMatch(lines, rg, filePath, w, n).Success?
    ensures MarkerLayout(lines[rg.first..rg.last + 1], w).Success?
    ensures MarkerLayout(lines[rg.first..rg.last + 1], w).value.remoteStart
            < MarkerLayout(lines[rg.first..rg.last + 1], w).value.aiStart
  {
    ParseMatchIs(lines, rg, filePath, w, n);
    ParseConflictTextSections(lines[rg.first..rg.last + 1], lines, rg.first + 1, filePath, w, n);
  }

  /** Two regions starting on the same line whose layouts differ only in an end marker `k`
      lines further down, with the same lines above it, match to the same sections. */
  lemma ReparseMatch(lines: seq<string>, rg: Region, r: seq<string>, rg2: Region,
                     filePath: string, w: nat, n: nat, k: nat)
    requires IsLineSeq(lines) && rg.first < rg.last < |lines|
    requires IsLineSeq(r) && rg2.first < rg2.last < |r| && rg2.first == rg.first
    requires var ls := lines[rg.first..rg.last + 1];
             MarkerLayout(ls, w).Success? && MarkerLayout(ls, w).value.remoteStart < MarkerLayout(ls, w).value.aiStart
    requires var ls := lines[rg.first..rg.last + 1];
             var ns := r[rg2.first..rg2.last + 1];
             var m := MarkerLayout(ls, w).value;
             MarkerLayout(ns, w).Success? && EndMoved(m, MarkerLayout(ns, w).value, k) && AgreeBelow(ls, ns, m.remoteEnd)
    ensures ParseMatch(lines, rg, filePath, w, n).Success? && ParseMatch(r, rg2, filePath, w, n).Success?
    ensures var c := ParseMatch(lines, rg, filePath, w, n).value;
            var c2 := ParseMatch(r, rg2, filePath, w, n).value;
            c2.local == c.local && c2.base == c.base && c2.remote == c.remote
            && c2.startLine == c.startLine && c2.remoteEnd == c.remoteEnd + k
  {
    var ls := lines[rg.first..rg.last + 1];
    var ns := r[rg2.first..rg2.last + 1];
    ReparseSections(ls, lines, ns, r, rg.first + 1, filePath, w, n, k);
    ParseMatchIs(lines, rg, filePath, w, n);
    ParseMatchIs(r, rg2, filePath, w, n);
  }

  /** Parsing a region's lines and the same lines with `k` more before the end marker, whose
      layout differs only there, gives the same sections. */
  lemma ReparseSections(ls: seq<string>, content: seq<string>, ns: seq<string>, content2: seq<string>,
                        start: nat, filePath: string, w: nat, n: nat, k: nat)
    requires 1 <= start && start - 1 + |ls| <= |content| && start - 1 + |ns| <= |content2|
    requires MarkerLayout(ls, w).Success? && MarkerLayout(ls, w).value.remoteStart < MarkerLayout(ls, w).value.aiStart
    requires var m := MarkerLayout(ls, w).value;
             MarkerLayout(ns, w).Success? && EndMoved(m, MarkerLayout(ns, w).value, k) && AgreeBelow(ls, ns, m.remoteEnd)
    ensures ParseConflictText(ls, content, start, filePath, w, n).Success?
    ensures ParseConflictText(ns, content2, start, filePath, w, n).Success?
    ensures var c := ParseConflictText(ls, content, start, filePath, w, n).value;
            var c2 := ParseConflictText(ns, content2, start, filePath, w, n).value;
            c2.local == c.local && c2.base == c.base && c2.remote == c.remote
            && c2.startLine == c.startLine && c2.remoteEnd == c.remoteEnd + k
  {
    var m := MarkerLayout(ls, w).value;
    var m2 := MarkerLayout(ns, w).value;
    ParseConflictTextIs(ls, content, start, filePath, w, n, m);
    ParseConflictTextIs(ns, content2, start, filePath, w, n, m2);
    SameSections(ls, ns, m.remoteEnd, m);
  }

  /** `ls` and `ns` hold the same lines below `pe`. */
  predicate AgreeBelow(ls: seq<string>, ns: seq<string>, pe: nat)
  {
    pe <= |ls| && pe <= |ns| && forall t :: 0 <= t < pe ==> ns[t] == ls[t]
  }

  /** Two line sequences that agree below `pe` have the same sections below it. */
  lemma SameSections(ls: seq<string>, ns: seq<string>, pe: nat, m: Layout)
    requires m.localStart < m.baseStart < m.remoteStart < m.aiStart <= pe && AgreeBelow(ls, ns, pe)
    ensures ns[m.localStart + 1..m.baseStart] == ls[m.localStart + 1..m.baseStart]
    ensures ns[m.baseStart + 1..m.remoteStart] == ls[m.baseStart + 1..m.remoteStart]
    ensures ns[m.remoteStart + 1..m.aiStart] == ls[m.remoteStart + 1..m.aiStart]
  {
    assert ns[m.localStart + 1..m.baseStart] == ls[m.localStart + 1..m.baseStart];
    assert ns[m.baseStart + 1..m.remoteStart] == ls[m.baseStart + 1..m.remoteStart];
  }

  /** With no resolution marker in the region, the inserted one is the first. */
  lemma NoEarlierAi(lines: seq<string>, rg: Region, w: nat, xs: seq<string>, r: seq<string>, k: nat)
    requires rg.first < rg.last < |lines| && |xs| >= 1 && IsAiLine(xs[0], w)
    requires forall j :: rg.first <= j < rg.last ==> !IsAiLine(lines[j], w)
    requires r == lines[..rg.last] + xs + lines[rg.last..] && k == |xs|
    ensures Position(r[rg.first..rg.last + k + 1], AiLine, w) == Some(rg.last - rg.first)
  {
    var ns := r[rg.first..rg.last + k + 1];
    assert forall t :: 0 <= t < rg.last - rg.first ==> ns[t] == lines[rg.first + t];
    assert ns[rg.last - rg.first] == xs[0];
    NextIndexAt(ns, AiLine, w, 0, rg.last - rg.first);
  }

  /** `r` is `lines` with `k` lines put in just above the end marker of the matched region
      `rg`, as far as the conflict search can tell: the region found again from the same line
      ends `k` lines further down and parses to the same local, base and remote sections from
      the same start line, its remote section now ending `k` lines further down; and when no
      resolution marker came before the end marker, the first resolution marker of the region
      is now the line put in where the end marker was. */
  predicate ReparsedAfterInsert(lines: seq<string>, rg: Region, r: seq<string>, filePath: string, w: nat, n: nat, k: nat)
  {
    && IsLineSeq(lines) && IsLineSeq(r) && rg.first < rg.last < |lines| && rg.last + k < |r|
    && NextRegion(r, w, rg.first) == Some(Region(rg.first, rg.last + k))
    && ParseMatch(lines, rg, filePath, w, n).Success?
    && ParseMatch(r, Region(rg.first, rg.last + k), filePath, w, n).Success?
    && (var c := ParseMatch(lines, rg, filePath, w, n).value;
        var c2 := ParseMatch(r, Region(rg.first, rg.last + k), filePath, w, n).value;
        c2.local == c.local && c2.base == c.base && c2.remote == c.remote
        && c2.startLine == c.startLine && c2.remoteEnd == c.remoteEnd + k)
    && ((forall j :: rg.first <= j < rg.last ==> !IsAiLine(lines[j], w)) ==>
          Position(r[rg.first..rg.last + k + 1], AiLine, w) == Some(rg.last - rg.first))
  }

  /** Putting lines `xs` in just above the end marker of a matched region, led by a resolution
      marker and holding no end marker, keeps the conflict: the region is found and parsed
      again as `ReparsedAfterInsert` says, with the end marker `|xs|` lines further down. */
  lemma InsertBeforeEnd(lines: seq<string>, rg: Region, filePath: string, w: nat, n: nat,
                        xs: seq<string>, r: seq<string>, k: nat)
    requires IsLineSeq(lines) && rg.first <= |lines| && NextRegion(lines, w, rg.first) == Some(rg)
    requires ParseMatch(lines, rg, filePath, w, n).Success?
    requires |xs| >= 1 && IsAiLine(xs[0], w)
    requires forall j :: 0 <= j < |xs| ==> !IsEndLine(xs[j], w)
    requires r == lines[..rg.last] + xs + lines[rg.last..] && k == |xs| && IsLineSeq(r)
    ensures ReparsedAfterInsert(lines, rg, r, filePath, w, n, k)
  {
    assert NextRegion(r, w, rg.first) == Some(Region(rg.first, rg.last + k)) by {
      InsertBeforeEndRegion(lines, rg, w, xs, r, k);
    }
    assert && ParseMatch(r, Region(rg.first, rg.last + k), filePath, w, n).Success?
           && var c := ParseMatch(lines, rg, filePath, w, n).value;
              var c2 := ParseMatch(r, Region(rg.first, rg.last + k), filePath, w, n).value;
              c2.local == c.local && c2.base == c.base && c2.remote == c.remote
              && c2.startLine == c.startLine && c2.remoteEnd == c.remoteEnd + k by {
      MatchLayout(lines, rg, filePath, w, n);
      ReparseAfterInsert(lines, rg, filePath, w, n, xs, r, k);
    }
    if forall j :: rg.first <= j < rg.last ==> !IsAiLine(lines[j], w) {
      NoEarlierAi(lines, rg, w, xs, r, k);
    }
  }

  /** The lines from `i` through the end line `e` after inserting `xs` before it. */
  lemma InsertSlice(lines: seq<string>, i: nat, e: nat, xs: seq<string>)
    requires i <= e < |lines|
    ensures var ns := (lines[..e] + xs + lines[e..])[i..e + |xs| + 1];
            var ls := lines[i..e + 1];
            ns == ls[..e - i] + xs + ls[e - i..] && AgreeBelow(ls, ns, e - i)
  {
    var ns := (lines[..e] + xs + lines[e..])[i..e + |xs| + 1];
    var ls := lines[i..e + 1];
    assert ls[..e - i] == lines[i..e] && ls[e - i..] == [lines[e]];
    assert ns == lines[i..e] + xs + [lines[e]];
  }

  /** The layout of a region's lines after inserting lines before its end marker. */
  lemma LayoutAfterInsert(ls: seq<string>, ns: seq<string>, w: nat, xs: seq<string>, m: Layout)
    requires MarkerLayout(ls, w) == Success(m) && m.remoteEnd + 1 == |ls| && w >= 1
    requires ns == ls[..m.remoteEnd] + xs + ls[m.remoteEnd..]
    requires |xs| >= 1 && IsAiLine(xs[0], w)
    requires forall j :: 0 <= j < |xs| ==> !IsEndLine(xs[j], w)
    ensures MarkerLayout(ns, w).Success? && EndMoved(m, MarkerLayout(ns, w).value, |xs|)
  {
    var pe := m.remoteEnd;
    assert forall t :: 0 <= t < pe ==> ns[t] == ls[t];
    MarkerLayoutPositions(ls, w);
    assert Position(ns, LocalLine, w) == Some(m.localStart) by {
      PositionFirst(ls, LocalLine, w);
      NextIndexAt(ns, LocalLine, w, 0, m.localStart);
    }
    assert Position(ns, BaseLine, w) == Some(m.baseStart) by {
      PositionFirst(ls, BaseLine, w);
      NextIndexAt(ns, BaseLine, w, 0, m.baseStart);
    }
    assert Position(ns, SeparatorLine, w) == Some(m.remoteStart) by {
      PositionFirst(ls, SeparatorLine, w);
      NextIndexAt(ns, SeparatorLine, w, 0, m.remoteStart);
    }
    assert Position(ns, EndLine, w) == Some(pe + |xs|) by {
      PositionFirst(ls, EndLine, w);
      assert forall t :: pe <= t < pe + |xs| ==> ns[t] == xs[t - pe];
      assert ns[pe + |xs|] == ls[pe];
      NextIndexAt(ns, EndLine, w, 0, pe + |xs|);
    }
    assert Position(ns, AiLine, w) == Some(m.aiStart) by {
      PositionFirst(ls, AiLine, w);
      if Position(ls, AiLine, w).Some? {
        MarkerKindsDisjoint(ls[pe], w);
        NextIndexAt(ns, AiLine, w, 0, m.aiStart);
      } else {
        assert ns[pe] == xs[0];
        NextIndexAt(ns, AiLine, w, 0, pe);
      }
    }
    MarkerLayoutPositions(ns, w);
  }

  /** Conflict `k` of the parsed regions starts on region `k`'s first line. */
  lemma ParsedStart(lines: seq<string>, rs: seq<Region>, filePath: string, w: nat, n: nat, k: nat, c: Conflict)
    requires IsLineSeq(lines) && forall j :: 0 <= j < |rs| ==> rs[j].first < rs[j].last < |lines|
    requires k < |rs| && ParsedRegions(lines, rs, filePath, w, n)[k] == Success(c)
    ensures c.startLine == rs[k].first + 1 && c.filePath == filePath && c.markerSize == w
  {
    ParsedRegionsAt(lines, rs, filePath, w, n, k);
    ParseMatchStart(lines, rs[k], filePath, w, n);
  }

  /** One conflict per matched region, in the order of the regions, each starting on its
      region's first line. */
  lemma ParseFileShape(content: string, filePath: string, w: nat, n: nat)
    ensures var lines := SplitInclusive(content);
            var r := ParseFile(content, filePath, w, n);
            r.Success? ==> FromRegions(r.value, Regions(lines, w, 0), filePath, w)
  {
    var lines := SplitInclusive(content);
    SplitInclusiveShape(content);
    var rs := Regions(lines, w, 0);
    var ps := ParsedRegions(lines, rs, filePath, w, n);
    CollectShape(ps);
    var r := Collect(ps);
    if r.Success? {
      forall k | 0 <= k < |rs|
        ensures r.value[k].startLine == rs[k].first + 1 && r.value[k].filePath == filePath && r.value[k].markerSize == w
      {
        ParsedStart(lines, rs, filePath, w, n, k, r.value[k]);
      }
    }
  }

  /** `parse_conflict_from_file` with the file read and the marker-size lookup left to the
      caller: the start line is counted from the newlines before the match, and the matched
      text is split again, as the source does. */
  method ParseConflictFromFile(content: string, filePath: string, markerSize: nat, codeContextLines: nat)
    returns (r: Result<seq<Conflict>, ParseError>)
    ensures r == ParseFile(content, filePath, markerSize, codeContextLines)
  {
    var lines := SplitInclusive(content);
    SplitInclusiveShape(content);
    var regions := Regions(lines, markerSize, 0);
    ghost var ps := ParsedRegions(lines, regions, filePath, markerSize, codeContextLines);
    var conflicts: seq<Conflict> := [];
    var k := 0;
    while k < |regions|
      invariant 0 <= k <= |regions|
      invariant Collect(ps[..k]) == Success(conflicts)
    {
      var rg := regions[k];
      var conflictText := MatchText(lines, rg);
      var startLine := MatchStartLine(lines, rg);
      MatchLines(lines, rg);
      var parsed := ParseConflictText(SplitInclusive(conflictText), lines, startLine, filePath, markerSize, codeContextLines);
      ParsedRegionsAt(lines, regions, filePath, markerSize, codeContextLines, k);
      CollectStep(ps, k);
      if parsed.Failure? {
        CollectFailure(ps, k + 1);
        return Failure(parsed.error);
      }
      conflicts := conflicts + [parsed.value];
      k := k + 1;
    }
    assert ps[..k] == ps;
    r := Success(conflicts);
  }

  lemma SliceIsLineSeq(ls: seq<string>, a: nat, b: nat)
    requires IsLineSeq(ls) && a <= b <= |ls|
    ensures IsLineSeq(ls[a..b])
  {
    var s := ls[a..b];
    forall i | 0 <= i < |s| ensures IsLine(s[i]) { assert s[i] == ls[a + i]; }
    forall i | 0 <= i < |s| - 1 ensures EndsInNewline(s[i]) { assert s[i] == ls[a + i]; }
  }
}
