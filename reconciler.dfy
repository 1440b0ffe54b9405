/**
 * Writing resolutions back: the line edits of `apply_resolved_conflicts` (annotate every
 * conflict with the ranked resolutions) and of `apply_vibe_resolution` (collapse every
 * conflict into its first resolution). A file is the sequence of its
 * `split_inclusive('\n')` lines and the working tree a map from path to file text.
 */
module Reconciler {
  import opened Wrappers
  import opened Text
  import opened Markers
  import opened Sorting
  import opened ConflictParser
  import opened Consensus

  /** The crate name `env!("CARGO_PKG_NAME")` supplies. */
  const PKG_NAME: string := "synthmerge"

  datatype ApplyError =
    | DedupPanicked                              // a panic inside `deduplicate_conflicts`
    | Unreadable(path: string)                   // `fs::read_to_string` fails
    | LineOutOfRange(path: string, line: int)    // an index, slice or splice past the file's lines panics

  /** `resolved_version.lines()`, each line given back a `"\n"`. */
  function ResolvedBlock(resolvedVersion: string): (b: seq<string>)
    ensures |b| == |Lines(resolvedVersion)|
  {
    seq(|Lines(resolvedVersion)|, j requires 0 <= j < |Lines(resolvedVersion)| => Lines(resolvedVersion)[j] + "\n")
  }

  /** A piece of `lines()` holds no newline. */
  lemma LinesNoNewline(s: string)
    ensures forall j :: 0 <= j < |Lines(s)| ==> '\n' !in Lines(s)[j]
  {
    SplitInclusiveShape(s);
    var pieces := SplitInclusive(s);
    forall j | 0 <= j < |pieces| ensures '\n' !in StripLineEnding(pieces[j]) {
      var l := pieces[j];
      assert IsLine(l);
      if EndsWith(l, "\n") {
        var t := l[..|l| - 1];
        if EndsWith(t, "\r") {
          assert t[..|t| - 1] == l[..|l| - 2];
        }
      } else {
        assert l == l[..|l| - 1] + [l[|l| - 1]];
      }
    }
  }

  /** Every line of a resolved block is one whole newline-terminated line. */
  lemma ResolvedBlockLines(resolvedVersion: string)
    ensures forall j :: 0 <= j < |ResolvedBlock(resolvedVersion)| ==>
              IsLine(ResolvedBlock(resolvedVersion)[j]) && EndsInNewline(ResolvedBlock(resolvedVersion)[j])
  {
    LinesNoNewline(resolvedVersion);
    var b := ResolvedBlock(resolvedVersion);
    forall j | 0 <= j < |b| ensures IsLine(b[j]) && EndsInNewline(b[j]) {
      assert b[j][..|b[j]| - 1] == Lines(resolvedVersion)[j];
    }
  }

  // ---------------------------------------------------------------------------
  // The annotate pass of `apply_resolved_conflicts`

  /** The text after the model name: `format!(" {:.1}%", logprob_to_prob(p))`, which the
      caller supplies as `percent`, or nothing when no log-probability was reported. */
  function ConfidenceSuffix(logprob: Option<real>, percent: real -> string): string
  {
    if logprob.Some? then percent(logprob.value) else ""
  }

  /** The attribution line inserted above each resolution. */
  function AnnotationLine(rc: ResolvedConflict, percent: real -> string): string
  {
    AiMarker(rc.conflict.markerSize) + " " + PKG_NAME + ": " + rc.model + ConfidenceSuffix(rc.logprob, percent) + "\n"
  }

  /** The line at the insertion point must open with the end marker or the AI marker and a space. */
  predicate AcceptsAnnotation(l: string, w: nat)
  {
    StartsWith(l, EndMarker(w) + " ") || StartsWith(l, AiMarker(w) + " ")
  }

  /** `start_line + remote_end - 1`: the end-marker line below the remote section. A negative
      value stands for the `usize` underflow, which panics or wraps past every index. */
  function InsertIndex(c: Conflict): int
  {
    c.startLine + c.remoteEnd - 1
  }

  /** One conflict of the annotate pass: `None` when the marker check skips it. */
  function Annotate(lines: seq<string>, rc: ResolvedConflict, percent: real -> string)
    : (r: Result<Option<seq<string>>, ApplyError>)
    ensures r.Failure? <==> !(0 <= InsertIndex(rc.conflict) < |lines|)
    ensures r.Success? && r.value.None? <==>
              0 <= InsertIndex(rc.conflict) < |lines| && !AcceptsAnnotation(lines[InsertIndex(rc.conflict)], rc.conflict.markerSize)
  {
    var k := InsertIndex(rc.conflict);
    if k < 0 || k >= |lines| then Failure(LineOutOfRange(rc.conflict.filePath, k))
    else if !AcceptsAnnotation(lines[k], rc.conflict.markerSize) then Success(None)
    else Success(Some(lines[..k] + [AnnotationLine(rc, percent)] + ResolvedBlock(rc.resolvedVersion) + lines[k..]))
  }

  /** An annotation only inserts: taking its lines out again gives back the file, the lines
      above the insertion point stay where they were and the new lines are the attribution
      line followed by the resolution. */
  lemma AnnotateInverse(lines: seq<string>, rc: ResolvedConflict, percent: real -> string)
    requires Annotate(lines, rc, percent).Success? && Annotate(lines, rc, percent).value.Some?
    ensures var r := Annotate(lines, rc, percent).value.value;
            var k := InsertIndex(rc.conflict);
            var n := |Lines(rc.resolvedVersion)|;
            0 <= k && k + 1 + n <= |r| && |r| == |lines| + 1 + n
            && r[..k] + r[k + 1 + n..] == lines
            && r[..k] == lines[..k]
            && r[k] == AnnotationLine(rc, percent)
            && (forall j :: 0 <= j < n ==> r[k + 1 + j] == Lines(rc.resolvedVersion)[j] + "\n")
  {
    var r := Annotate(lines, rc, percent).value.value;
    var k := InsertIndex(rc.conflict);
    var b := ResolvedBlock(rc.resolvedVersion);
    assert r == lines[..k] + ([AnnotationLine(rc, percent)] + b) + lines[k..];
    assert r[k + 1 + |b|..] == lines[k..];
    assert r[..k] == lines[..k];
    assert lines[..k] + lines[k..] == lines;
  }

  /** Whole newline-terminated lines inserted above an existing line keep a line sequence. */
  lemma {:induction false} InsertLines(lines: seq<string>, k: nat, xs: seq<string>)
    requires IsLineSeq(lines) && k < |lines|
    requires forall j :: 0 <= j < |xs| ==> IsLine(xs[j]) && EndsInNewline(xs[j])
    ensures IsLineSeq(lines[..k] + xs + lines[k..])
  {
    var r := lines[..k] + xs + lines[k..];
    forall i | 0 <= i < |r| ensures IsLine(r[i]) && (i < |r| - 1 ==> EndsInNewline(r[i])) {
      if i < k {
        assert r[i] == lines[i];
      } else if i < k + |xs| {
        assert r[i] == xs[i - k];
      } else {
        assert r[i] == lines[i - |xs|];
      }
    }
  }

  lemma AnnotationLineIsLine(rc: ResolvedConflict, percent: real -> string)
    requires '\n' !in rc.model + ConfidenceSuffix(rc.logprob, percent)
    ensures IsLine(AnnotationLine(rc, percent)) && EndsInNewline(AnnotationLine(rc, percent))
  {
    var a := AnnotationLine(rc, percent);
    var head := AiMarker(rc.conflict.markerSize) + " " + PKG_NAME + ": ";
    assert '\n' !in head;
    assert a[..|a| - 1] == head + (rc.model + ConfidenceSuffix(rc.logprob, percent));
  }

  /** Writing an annotated file and reading it back splits it into the same lines: the
      inserted lines are whole lines as long as the attribution holds no newline. */
  lemma AnnotateRereads(lines: seq<string>, rc: ResolvedConflict, percent: real -> string)
    requires IsLineSeq(lines)
    requires '\n' !in rc.model + ConfidenceSuffix(rc.logprob, percent)
    requires Annotate(lines, rc, percent).Success? && Annotate(lines, rc, percent).value.Some?
    ensures IsLineSeq(Annotate(lines, rc, percent).value.value)
    ensures SplitInclusive(Concat(Annotate(lines, rc, percent).value.value)) == Annotate(lines, rc, percent).value.value
  {
    var r := Annotate(lines, rc, percent).value.value;
    var k := InsertIndex(rc.conflict);
    var xs := [AnnotationLine(rc, percent)] + ResolvedBlock(rc.resolvedVersion);
    ResolvedBlockLines(rc.resolvedVersion);
    AnnotationLineIsLine(rc, percent);
    assert forall j :: 0 <= j < |xs| ==> IsLine(xs[j]) && EndsInNewline(xs[j]) by {
      forall j | 0 <= j < |xs| ensures IsLine(xs[j]) && EndsInNewline(xs[j]) {
        if j > 0 { assert xs[j] == ResolvedBlock(rc.resolvedVersion)[j - 1]; }
      }
    }
    assert r == lines[..k] + xs + lines[k..];
    InsertLines(lines, k, xs);
    SplitConcat(r);
  }

  /** The attribution line is a resolution-marker line, and so never an end-marker line. */
  lemma AnnotationLineShape(rc: ResolvedConflict, percent: real -> string)
    requires rc.conflict.markerSize >= 1
    ensures IsAiLine(AnnotationLine(rc, percent), rc.conflict.markerSize)
    ensures !IsEndLine(AnnotationLine(rc, percent), rc.conflict.markerSize)
  {
    var w := rc.conflict.markerSize;
    var a := AnnotationLine(rc, percent);
    var m := AiMarker(w);
    assert a == m + (" " + PKG_NAME + ": " + rc.model + ConfidenceSuffix(rc.logprob, percent) + "\n");
    assert forall j :: 0 <= j < w ==> a[j] == m[j] == '&';
    assert a[w] == ' ';
    assert a[0] != '>';
  }

  /** Annotating a conflict parsed from a matched region leaves a region that the parser finds
      again from the same line. It is the same conflict: its local, base and remote sections
      are unchanged, because the attribution line and the resolution go in just above the end
      marker, which moves down past them, and the remote section ends at the first
      resolution marker of the region. When the region had no resolution marker, that first
      one is the inserted attribution line. */
  lemma AnnotateReparses(lines: seq<string>, rg: Region, filePath: string, w: nat, n: nat,
                         c: Conflict, rc: ResolvedConflict, percent: real -> string, r: seq<string>)
    requires IsLineSeq(lines) && rg.first <= |lines| && NextRegion(lines, w, rg.first) == Some(rg)
    requires ParseMatch(lines, rg, filePath, w, n) == Success(c) && rc.conflict == c
    requires '\n' !in rc.model + ConfidenceSuffix(rc.logprob, percent)
    requires forall j :: 0 <= j < |ResolvedBlock(rc.resolvedVersion)| ==> !IsEndLine(ResolvedBlock(rc.resolvedVersion)[j], w)
    requires Annotate(lines, rc, percent) == Success(Some(r))
    ensures InsertIndex(c) == rg.last && IsLineSeq(r) && r[rg.last] == AnnotationLine(rc, percent)
    ensures ReparsedAfterInsert(lines, rg, r, filePath, w, n, 1 + |ResolvedBlock(rc.resolvedVersion)|)
  {
    var xs := [AnnotationLine(rc, percent)] + ResolvedBlock(rc.resolvedVersion);
    AnnotatedRegion(lines, rg, filePath, w, n, c, rc, percent, r, xs);
    InsertBeforeEnd(lines, rg, filePath, w, n, xs, r, 1 + |ResolvedBlock(rc.resolvedVersion)|);
  }

  /** What an accepted annotation of a matched region inserts, and where: the attribution
      line and the resolution, `xs`, go in just above the region's end marker; they start
      with a resolution marker and hold no end marker, and the file still splits into lines. */
  lemma AnnotatedRegion(lines: seq<string>, rg: Region, filePath: string, w: nat, n: nat,
                        c: Conflict, rc: ResolvedConflict, percent: real -> string, r: seq<string>,
                        xs: seq<string>)
    requires IsLineSeq(lines) && rg.first <= |lines| && NextRegion(lines, w, rg.first) == Some(rg)
    requires ParseMatch(lines, rg, filePath, w, n) == Success(c) && rc.conflict == c
    requires '\n' !in rc.model + ConfidenceSuffix(rc.logprob, percent)
    requires forall j :: 0 <= j < |ResolvedBlock(rc.resolvedVersion)| ==> !IsEndLine(ResolvedBlock(rc.resolvedVersion)[j], w)
    requires Annotate(lines, rc, percent) == Success(Some(r))
    requires xs == [AnnotationLine(rc, percent)] + ResolvedBlock(rc.resolvedVersion)
    ensures InsertIndex(c) == rg.last && rg.first < rg.last < |lines| && w >= 1
    ensures r == lines[..rg.last] + xs + lines[rg.last..] && IsLineSeq(r) && r[rg.last] == xs[0]
    ensures |xs| >= 1 && IsAiLine(xs[0], w) && forall j :: 0 <= j < |xs| ==> !IsEndLine(xs[j], w)
  {
    ParsedRegionEnd(lines, rg, filePath, w, n);
    ParseMatchStart(lines, rg, filePath, w, n);
    AnnotateAt(lines, rc, percent, rg.last);
    AnnotateRereads(lines, rc, percent);
    AnnotationLineShape(rc, percent);
    forall j | 0 <= j < |xs| ensures !IsEndLine(xs[j], w) {
      if j > 0 { assert xs[j] == ResolvedBlock(rc.resolvedVersion)[j - 1]; }
    }
  }

  /** An accepted annotation at `e` puts the attribution line and the resolution between the
      lines above `e` and the rest. */
  lemma AnnotateAt(lines: seq<string>, rc: ResolvedConflict, percent: real -> string, e: int)
    requires InsertIndex(rc.conflict) == e
    requires Annotate(lines, rc, percent).Success? && Annotate(lines, rc, percent).value.Some?
    ensures 0 <= e < |lines|
    ensures Annotate(lines, rc, percent).value.value
            == lines[..e] + ([AnnotationLine(rc, percent)] + ResolvedBlock(rc.resolvedVersion)) + lines[e..]
  {
    AppendAssoc(lines[..e], [AnnotationLine(rc, percent)], ResolvedBlock(rc.resolvedVersion));
  }

  /** Two resolutions of the same conflict: the one annotated last, which ranks higher because
      the pass runs in reverse ranking order, lands above the other, because the attribution
      line now at the insertion point also passes the marker check. */
  lemma AnnotateSameConflict(lines: seq<string>, lower: ResolvedConflict, higher: ResolvedConflict, percent: real -> string)
    requires lower.conflict == higher.conflict
    requires Annotate(lines, lower, percent).Success? && Annotate(lines, lower, percent).value.Some?
    ensures var k := InsertIndex(lower.conflict);
            Annotate(Annotate(lines, lower, percent).value.value, higher, percent) ==
              Success(Some(lines[..k] + [AnnotationLine(higher, percent)] + ResolvedBlock(higher.resolvedVersion)
                           + [AnnotationLine(lower, percent)] + ResolvedBlock(lower.resolvedVersion) + lines[k..]))
  {
    var l2 := Annotate(lines, lower, percent).value.value;
    var k := InsertIndex(lower.conflict);
    var w := lower.conflict.markerSize;
    var a := AnnotationLine(lower, percent);
    assert l2 == lines[..k] + ([a] + ResolvedBlock(lower.resolvedVersion) + lines[k..]);
    assert l2[k] == a;
    assert StartsWith(a, AiMarker(w) + " ") by {
      assert a == (AiMarker(w) + " ") + (PKG_NAME + ": " + lower.model + ConfidenceSuffix(lower.logprob, percent) + "\n");
    }
    assert l2[..k] == lines[..k];
    assert l2[k..] == [a] + ResolvedBlock(lower.resolvedVersion) + lines[k..];
    assert AcceptsAnnotation(l2[k], w);
    var ah := AnnotationLine(higher, percent);
    var bh := ResolvedBlock(higher.resolvedVersion);
    assert Annotate(l2, higher, percent).value.value == l2[..k] + [ah] + bh + l2[k..];
    assert l2[..k] + [ah] + bh + l2[k..] == lines[..k] + [ah] + bh + [a] + ResolvedBlock(lower.resolvedVersion) + lines[k..];
  }

  /** Conflicts are annotated bottom-up: annotating a later conflict first leaves the lines
      above it alone, so an earlier conflict is then checked at the same line and both
      annotations land under their own conflicts. */
  lemma AnnotateBottomUp(lines: seq<string>, above: ResolvedConflict, below: ResolvedConflict, percent: real -> string)
    requires 0 <= InsertIndex(above.conflict) < InsertIndex(below.conflict)
    requires Annotate(lines, below, percent).Success? && Annotate(lines, below, percent).value.Some?
    ensures var l2 := Annotate(lines, below, percent).value.value;
            var k1 := InsertIndex(above.conflict);
            var k2 := InsertIndex(below.conflict);
            Annotate(l2, above, percent) ==
              if AcceptsAnnotation(lines[k1], above.conflict.markerSize) then
                Success(Some(lines[..k1] + [AnnotationLine(above, percent)] + ResolvedBlock(above.resolvedVersion)
                             + lines[k1..k2] + [AnnotationLine(below, percent)] + ResolvedBlock(below.resolvedVersion)
                             + lines[k2..]))
              else Success(None)
  {
    var l2 := Annotate(lines, below, percent).value.value;
    var k1 := InsertIndex(above.conflict);
    var k2 := InsertIndex(below.conflict);
    var tail := [AnnotationLine(below, percent)] + ResolvedBlock(below.resolvedVersion) + lines[k2..];
    assert l2 == lines[..k2] + tail;
    assert l2[k1] == lines[k1];
    assert l2[..k1] == lines[..k1];
    assert l2[k1..] == lines[k1..k2] + tail;
    if AcceptsAnnotation(lines[k1], above.conflict.markerSize) {
      var a1 := AnnotationLine(above, percent);
      var b1 := ResolvedBlock(above.resolvedVersion);
      assert Annotate(l2, above, percent).value.value == l2[..k1] + [a1] + b1 + l2[k1..];
      assert l2[..k1] + [a1] + b1 + l2[k1..] == lines[..k1] + [a1] + b1 + lines[k1..k2]
             + [AnnotationLine(below, percent)] + ResolvedBlock(below.resolvedVersion) + lines[k2..];
    }
  }

  /** `lines.insert(insert_line, marker)` and the loop inserting the resolved lines below it. */
  method InsertAnnotation(lines: seq<string>, k: nat, marker: string, resolvedVersion: string)
    returns (r: seq<string>)
    requires k <= |lines|
    ensures r == lines[..k] + [marker] + ResolvedBlock(resolvedVersion) + lines[k..]
  {
    r := lines[..k] + [marker] + lines[k..];
    var resolved := Lines(resolvedVersion);
    var i := 0;
    while i < |resolved|
      invariant 0 <= i <= |resolved|
      invariant r == lines[..k] + [marker] + ResolvedBlock(resolvedVersion)[..i] + lines[k..]
    {
      var at := k + 1 + i;
      assert r[..at] == lines[..k] + [marker] + ResolvedBlock(resolvedVersion)[..i];
      assert r[at..] == lines[k..];
      assert ResolvedBlock(resolvedVersion)[..i + 1] == ResolvedBlock(resolvedVersion)[..i] + [resolved[i] + "\n"];
      r := r[..at] + [resolved[i] + "\n"] + r[at..];
      i := i + 1;
    }
    assert ResolvedBlock(resolvedVersion)[..i] == ResolvedBlock(resolvedVersion);
  }

  /** The body of the annotate loop for one conflict, on the lines of its file. */
  method AnnotateConflict(lines: seq<string>, rc: ResolvedConflict, percent: real -> string)
    returns (r: Result<Option<seq<string>>, ApplyError>)
    ensures r == Annotate(lines, rc, percent)
  {
    var insertLine := rc.conflict.startLine + rc.conflict.remoteEnd - 1;
    if insertLine < 0 || insertLine >= |lines| {
      return Failure(LineOutOfRange(rc.conflict.filePath, insertLine));
    }
    var w := rc.conflict.markerSize;
    var markerRaw := AiMarker(w) + " ";
    var marker := markerRaw + PKG_NAME + ": " + rc.model + ConfidenceSuffix(rc.logprob, percent) + "\n";
    var currentLine := lines[insertLine];
    if !StartsWith(currentLine, EndMarker(w) + " ") && !StartsWith(currentLine, markerRaw) {
      return Success(None);
    }
    var updated := InsertAnnotation(lines, insertLine, marker, rc.resolvedVersion);
    r := Success(Some(updated));
  }

  /** The annotate loop of `apply_resolved_conflicts` over the ranked resolutions, last first:
      each one re-reads its file, and a file is written back only when its line was accepted. */
  function AnnotateAll(files: map<string, string>, ranked: seq<ResolvedConflict>, percent: real -> string)
    : (o: Outcome)
    ensures o.files.Keys == files.Keys
    decreases |ranked|
  {
    if ranked == [] then Outcome(files, Success(()))
    else
      var rc := ranked[|ranked| - 1];
      var path := rc.conflict.filePath;
      if path !in files then Outcome(files, Failure(Unreadable(path)))
      else
        match Annotate(SplitInclusive(files[path]), rc, percent)
        case Failure(e) => Outcome(files, Failure(e))
        case Success(None) => AnnotateAll(files, ranked[..|ranked| - 1], percent)
        case Success(Some(ls)) => AnnotateAll(files[path := Concat(ls)], ranked[..|ranked| - 1], percent)
  }

  /** The working tree after a pass, and how the pass ended. */
  datatype Outcome = Outcome(files: map<string, string>, status: Result<(), ApplyError>)

  /** The annotate pass writes only the files of the conflicts it annotates. */
  lemma {:induction false} AnnotateAllFrame(files: map<string, string>, ranked: seq<ResolvedConflict>,
                                            percent: real -> string, p: string)
    requires p in files && forall i :: 0 <= i < |ranked| ==> ranked[i].conflict.filePath != p
    ensures AnnotateAll(files, ranked, percent).files[p] == files[p]
    decreases |ranked|
  {
    if ranked != [] {
      var rc := ranked[|ranked| - 1];
      var front := ranked[..|ranked| - 1];
      assert forall i :: 0 <= i < |front| ==> front[i] == ranked[i];
      if rc.conflict.filePath in files {
        match Annotate(SplitInclusive(files[rc.conflict.filePath]), rc, percent)
        case Failure(e) =>
        case Success(None) => AnnotateAllFrame(files, front, percent, p);
        case Success(Some(ls)) => AnnotateAllFrame(files[rc.conflict.filePath := Concat(ls)], front, percent, p);
      }
    }
  }

  // ---------------------------------------------------------------------------
  // The collapse pass of `apply_vibe_resolution`

  /** `resolved_conflicts.iter().find(|rc| rc.conflict == *conflict)` */
  function FindResolved(rs: seq<ResolvedConflict>, c: Conflict): (r: Option<ResolvedConflict>)
    ensures r.None? <==> forall i :: 0 <= i < |rs| ==> rs[i].conflict != c
    ensures r.Some? ==> r.value in rs && r.value.conflict == c
  {
    if rs == [] then None
    else if rs[0].conflict == c then Some(rs[0])
    else
      var r := FindResolved(rs[1..], c);
      assert forall i :: 1 <= i < |rs| ==> rs[i] == rs[1..][i - 1];
      r
  }

  /** `find` yields the first resolution of exactly this conflict. */
  lemma {:induction false} FindResolvedFirst(rs: seq<ResolvedConflict>, c: Conflict)
    requires FindResolved(rs, c).Some?
    ensures exists i :: 0 <= i < |rs| && rs[i] == FindResolved(rs, c).value
                        && forall j :: 0 <= j < i ==> rs[j].conflict != c
  {
    if rs[0].conflict != c {
      FindResolvedFirst(rs[1..], c);
      var i :| 0 <= i < |rs[1..]| && rs[1..][i] == FindResolved(rs[1..], c).value
               && forall j :: 0 <= j < i ==> rs[1..][j].conflict != c;
      assert rs[i + 1] == FindResolved(rs, c).value;
      forall j | 0 <= j < i + 1 ensures rs[j].conflict != c {
        if j > 0 { assert rs[j] == rs[1..][j - 1]; }
      }
    }
  }

  /** The line the splice stops at: the first line at or after `s` opening with the end
      marker, or `s` itself when there is none. */
  function RegionEnd(lines: seq<string>, s: nat, w: nat): (e: nat)
    requires s <= |lines|
  {
    NextIndex(lines, EndLine, w, s).GetOr(s)
  }

  datatype CollapseStep = Unresolved | Collapsed(lines: seq<string>) | Panicked(error: ApplyError)

  /** One conflict of the collapse pass: lines `start_line - 1` to the region end, both
      included, are replaced by the first matching resolution. */
  function Collapse(lines: seq<string>, c: Conflict, rs: seq<ResolvedConflict>): CollapseStep
  {
    match FindResolved(rs, c)
    case None => Unresolved
    case Some(rc) =>
      var s := rc.conflict.startLine - 1;
      if s < 0 || s > |lines| then Panicked(LineOutOfRange(c.filePath, s))
      else
        var e := RegionEnd(lines, s, rc.conflict.markerSize);
        if e >= |lines| then Panicked(LineOutOfRange(c.filePath, e))
        else Collapsed(lines[..s] + ResolvedBlock(rc.resolvedVersion) + lines[e + 1..])
  }

  /** How one conflict ends: unresolved exactly when no resolution matches it, and a panic
      exactly when its start line is not one of the file's lines. */
  lemma CollapseOutcome(lines: seq<string>, c: Conflict, rs: seq<ResolvedConflict>)
    ensures Collapse(lines, c, rs).Unresolved? <==> forall i :: 0 <= i < |rs| ==> rs[i].conflict != c
    ensures Collapse(lines, c, rs).Panicked? <==> FindResolved(rs, c).Some? && !(1 <= c.startLine <= |lines|)
  {
    if FindResolved(rs, c).Some? && 1 <= c.startLine <= |lines| {
      assert RegionEnd(lines, c.startLine - 1, c.markerSize) < |lines|;
    }
  }

  /** A collapsed conflict: its region, from the local-marker line to the first end-marker
      line (or the start line alone when no end marker follows), is replaced by the resolution,
      the lines above stay as they were and the lines below follow the resolution. */
  lemma CollapseRegion(lines: seq<string>, c: Conflict, rs: seq<ResolvedConflict>)
    requires Collapse(lines, c, rs).Collapsed?
    ensures var rc := FindResolved(rs, c).value;
            var s := c.startLine - 1;
            var e := RegionEnd(lines, s, c.markerSize);
            var r := Collapse(lines, c, rs).lines;
            var n := |Lines(rc.resolvedVersion)|;
            s <= e < |lines| && |r| == |lines| - (e + 1 - s) + n
            && r[..s] == lines[..s]
            && (forall j :: 0 <= j < n ==> r[s + j] == Lines(rc.resolvedVersion)[j] + "\n")
            && r[s + n..] == lines[e + 1..]
  {
    var rc := FindResolved(rs, c).value;
    var s := c.startLine - 1;
    var e := RegionEnd(lines, s, c.markerSize);
    var b := ResolvedBlock(rc.resolvedVersion);
    var r := lines[..s] + b + lines[e + 1..];
    assert rc.conflict == c;
    assert Collapse(lines, c, rs) == Collapsed(r);
    assert r[..s] == lines[..s];
    assert r[s + |b|..] == lines[e + 1..];
  }

  /** The region ends at the first end-marker line at or after the start line, or is the
      start line alone when none follows. */
  lemma RegionEndFirst(lines: seq<string>, s: nat, w: nat)
    requires s <= |lines|
    ensures var e := RegionEnd(lines, s, w);
            (forall i :: s <= i < e ==> !IsEndLine(lines[i], w))
            && ((e < |lines| && IsEndLine(lines[e], w)) || (e == s && forall i :: s <= i < |lines| ==> !IsEndLine(lines[i], w)))
  {
    NextIndexFirst(lines, EndLine, w, s);
  }

  /** A collapse is the splice of the first matching resolution over the region. */
  lemma CollapseSplice(lines: seq<string>, c: Conflict, rs: seq<ResolvedConflict>)
    requires Collapse(lines, c, rs).Collapsed?
    ensures 1 <= c.startLine <= |lines| && RegionEnd(lines, c.startLine - 1, c.markerSize) < |lines|
    ensures Collapse(lines, c, rs).lines ==
              lines[..c.startLine - 1] + ResolvedBlock(FindResolved(rs, c).value.resolvedVersion)
              + lines[RegionEnd(lines, c.startLine - 1, c.markerSize) + 1..]
  {
  }

  /** Splicing below a region keeps the lines of that region and above. */
  lemma SpliceBelow(lines: seq<string>, l2: seq<string>, s1: nat, e1: nat, s2: nat, e2: nat, b1: seq<string>, b2: seq<string>)
    requires s1 <= e1 < s2 <= e2 < |lines| && l2 == lines[..s2] + b2 + lines[e2 + 1..]
    ensures l2[..e1 + 1] == lines[..e1 + 1]
    ensures l2[..s1] + b1 + l2[e1 + 1..] == lines[..s1] + b1 + lines[e1 + 1..s2] + b2 + lines[e2 + 1..]
  {
    assert l2[..s1] == lines[..s1];
    assert l2[e1 + 1..] == lines[e1 + 1..s2] + b2 + lines[e2 + 1..];
  }

  /** A collapse depends only on the lines up to the end of its region. */
  lemma CollapseSamePrefix(lines: seq<string>, l2: seq<string>, c: Conflict, rs: seq<ResolvedConflict>, e: nat)
    requires 1 <= c.startLine && c.startLine - 1 <= e < |lines| && e < |l2| && FindResolved(rs, c).Some?
    requires NextIndex(lines, EndLine, c.markerSize, c.startLine - 1) == Some(e)
    requires l2[..e + 1] == lines[..e + 1]
    ensures Collapse(l2, c, rs) == Collapsed(l2[..c.startLine - 1] + ResolvedBlock(FindResolved(rs, c).value.resolvedVersion) + l2[e + 1..])
  {
    assert RegionEnd(l2, c.startLine - 1, c.markerSize) == e by {
      NextIndexPrefix(lines, l2, EndLine, c.markerSize, c.startLine - 1, e);
    }
    CollapseAt(l2, c, rs, e);
  }

  /** A matched conflict whose region ends at line `e` of the file collapses to the splice of
      its resolution over lines `start_line - 1` to `e`. */
  lemma CollapseAt(lines: seq<string>, c: Conflict, rs: seq<ResolvedConflict>, e: nat)
    requires 1 <= c.startLine <= |lines| + 1 && FindResolved(rs, c).Some?
    requires RegionEnd(lines, c.startLine - 1, c.markerSize) == e < |lines|
    ensures Collapse(lines, c, rs) == Collapsed(lines[..c.startLine - 1] + ResolvedBlock(FindResolved(rs, c).value.resolvedVersion) + lines[e + 1..])
  {
    assert FindResolved(rs, c).value.conflict == c;
  }

  /** Conflicts are collapsed bottom-up: once a region below has been replaced by `b2`
      (`CollapseSplice` shows a collapse is such a splice), a conflict whose region ends at
      `e1` above it collapses as it would have before, and both resolutions sit where their
      regions were. */
  lemma CollapseBottomUp(lines: seq<string>, above: Conflict, rs: seq<ResolvedConflict>,
                         e1: nat, s2: nat, e2: nat, b2: seq<string>)
    requires 1 <= above.startLine && above.startLine - 1 <= e1 < s2 <= e2 < |lines|
    requires NextIndex(lines, EndLine, above.markerSize, above.startLine - 1) == Some(e1)
    requires FindResolved(rs, above).Some?
    ensures Collapse(lines[..s2] + b2 + lines[e2 + 1..], above, rs) ==
              Collapsed(lines[..above.startLine - 1] + ResolvedBlock(FindResolved(rs, above).value.resolvedVersion)
                        + lines[e1 + 1..s2] + b2 + lines[e2 + 1..])
  {
    var l2 := lines[..s2] + b2 + lines[e2 + 1..];
    var b1 := ResolvedBlock(FindResolved(rs, above).value.resolvedVersion);
    SpliceBelow(lines, l2, above.startLine - 1, e1, s2, e2, b1, b2);
    CollapseSamePrefix(lines, l2, above, rs, e1);
  }

  /** The outcome for one file: its new lines and whether a conflict was left unresolved. */
  datatype FileResult = FileResult(lines: seq<string>, unresolved: bool)

  /** Set the unresolved flag of a successful file result. */
  function Flagged(r: Result<FileResult, ApplyError>): Result<FileResult, ApplyError>
  {
    if r.Success? then Success(FileResult(r.value.lines, true)) else r
  }

  /** The inner loop of `apply_vibe_resolution` over one file's conflicts, sorted by start
      line, taken last first. */
  function CollapseAll(lines: seq<string>, cs: seq<Conflict>, rs: seq<ResolvedConflict>): Result<FileResult, ApplyError>
    decreases |cs|
  {
    if cs == [] then Success(FileResult(lines, false))
    else
      var front := cs[..|cs| - 1];
      match Collapse(lines, cs[|cs| - 1], rs)
      case Unresolved => Flagged(CollapseAll(lines, front, rs))
      case Panicked(e) => Failure(e)
      case Collapsed(next) => CollapseAll(next, front, rs)
  }

  /** A file is flagged exactly when one of its conflicts has no resolution. */
  lemma {:induction false} CollapseAllFlag(lines: seq<string>, cs: seq<Conflict>, rs: seq<ResolvedConflict>)
    requires CollapseAll(lines, cs, rs).Success?
    ensures CollapseAll(lines, cs, rs).value.unresolved <==> exists c :: c in cs && FindResolved(rs, c).None?
    decreases |cs|
  {
    if cs != [] {
      var front := cs[..|cs| - 1];
      var last := cs[|cs| - 1];
      assert cs == front + [last];
      match Collapse(lines, last, rs)
      case Unresolved =>
        CollapseOutcome(lines, last, rs);
        CollapseAllFlag(lines, front, rs);
        assert last in cs && FindResolved(rs, last).None?;
      case Collapsed(next) =>
        CollapseOutcome(lines, last, rs);
        CollapseAllFlag(next, front, rs);
    }
  }

  /** `sort_by_key(|c| c.start_line)` */
  predicate ByStartLine(a: Conflict, b: Conflict)
  {
    a.startLine <= b.startLine
  }

  /** Taken last first, a file's sorted conflicts come in descending start-line order, and
      they are the file's conflicts. */
  lemma FileOrder(cs: seq<Conflict>)
    ensures forall i, j :: 0 <= i < j < |cs| ==> Sort(cs, ByStartLine)[j].startLine >= Sort(cs, ByStartLine)[i].startLine
    ensures multiset(Sort(cs, ByStartLine)) == multiset(cs)
  {
    assert TotalPreorder(ByStartLine);
    SortSorted(cs, ByStartLine);
  }

  /** The conflicts of one file, in input order: the vector `conflicts_by_file` holds for it. */
  function FileGroup(cs: seq<Conflict>, path: string): (g: seq<Conflict>)
    ensures forall c :: c in g <==> c in cs && c.filePath == path
  {
    if cs == [] then []
    else FileGroup(cs[..|cs| - 1], path) + (if cs[|cs| - 1].filePath == path then [cs[|cs| - 1]] else [])
  }

  /** The files the conflicts live in. */
  function FilePaths(cs: seq<Conflict>): (ps: set<string>)
    ensures forall p :: p in ps <==> exists c :: c in cs && c.filePath == p
  {
    set c | c in cs :: c.filePath
  }

  // ---------------------------------------------------------------------------
  // The passes as loops

  /** The body of the collapse loop for one conflict, with its search for the end marker. */
  method CollapseConflict(lines: seq<string>, c: Conflict, rs: seq<ResolvedConflict>) returns (step: CollapseStep)
    ensures step == Collapse(lines, c, rs)
  {
    var found := FindResolved(rs, c);
    if found.None? {
      return Unresolved;
    }
    var rc := found.value;
    var startLine := rc.conflict.startLine - 1;
    if startLine < 0 || startLine > |lines| {
      return Panicked(LineOutOfRange(c.filePath, startLine));
    }
    var endMarker := EndMarker(rc.conflict.markerSize);
    var endLine := startLine;
    var i := startLine;
    while i < |lines|
      invariant startLine <= i <= |lines| && endLine == startLine
      invariant NextIndex(lines, EndLine, rc.conflict.markerSize, i) == NextIndex(lines, EndLine, rc.conflict.markerSize, startLine)
      decreases |lines| - i
    {
      MarkerLinesAsWritten(lines[i], rc.conflict.markerSize);
      if StartsWith(lines[i], endMarker) {
        endLine := i;
        break;
      }
      i := i + 1;
    }
    assert endLine == RegionEnd(lines, startLine, rc.conflict.markerSize);
    if endLine >= |lines| {
      return Panicked(LineOutOfRange(c.filePath, endLine));
    }
    step := Collapsed(lines[..startLine] + ResolvedBlock(rc.resolvedVersion) + lines[endLine + 1..]);
  }

  /** What is left of the collapse loop over `todo` from `current`, with the flag so far. */
  function Pending(current: seq<string>, todo: seq<Conflict>, rs: seq<ResolvedConflict>, unresolved: bool)
    : Result<FileResult, ApplyError>
  {
    if unresolved then Flagged(CollapseAll(current, todo, rs)) else CollapseAll(current, todo, rs)
  }

  /** One turn of the collapse loop, whichever way the conflict ends. */
  lemma PendingStep(current: seq<string>, todo: seq<Conflict>, rs: seq<ResolvedConflict>, unresolved: bool, step: CollapseStep)
    requires todo != [] && step == Collapse(current, todo[|todo| - 1], rs)
    ensures step.Unresolved? ==> Pending(current, todo, rs, unresolved) == Pending(current, todo[..|todo| - 1], rs, true)
    ensures step.Collapsed? ==> Pending(current, todo, rs, unresolved) == Pending(step.lines, todo[..|todo| - 1], rs, unresolved)
    ensures step.Panicked? ==> Pending(current, todo, rs, unresolved) == Failure(step.error)
  {
  }

  /** The collapse loop over one file: its conflicts sorted by start line, taken last first. */
  method CollapseFile(lines: seq<string>, fileConflicts: seq<Conflict>, rs: seq<ResolvedConflict>)
    returns (r: Result<FileResult, ApplyError>)
    ensures r == CollapseAll(lines, Sort(fileConflicts, ByStartLine), rs)
  {
    var sorted := Sort(fileConflicts, ByStartLine);
    var current := lines;
    var unresolved := false;
    var i := |sorted|;
    assert sorted[..i] == sorted;
    while i > 0
      invariant 0 <= i <= |sorted|
      invariant CollapseAll(lines, sorted, rs) == Pending(current, sorted[..i], rs, unresolved)
    {
      assert sorted[..i][..i - 1] == sorted[..i - 1];
      var step := CollapseConflict(current, sorted[i - 1], rs);
      PendingStep(current, sorted[..i], rs, unresolved, step);
      match step {
        case Unresolved =>
          unresolved := true;
        case Panicked(e) =>
          return Failure(e);
        case Collapsed(next) =>
          current := next;
      }
      i := i - 1;
    }
    r := Success(FileResult(current, unresolved));
  }

  /** The conflicts of `cs` whose files are in `done` left some unresolved. */
  ghost predicate FlagOf(cs: seq<Conflict>, rs: seq<ResolvedConflict>, done: set<string>, unresolved: bool)
  {
    unresolved <==> exists c :: c in cs && c.filePath in done && FindResolved(rs, c).None?
  }

  /** The files of `done` hold their collapsed text, every other file its old text. */
  ghost predicate CollapsedFiles(old0: map<string, string>, files: map<string, string>, cs: seq<Conflict>,
                                 rs: seq<ResolvedConflict>, done: set<string>)
  {
    files.Keys == old0.Keys
    && (forall p :: p in files && p !in done ==> files[p] == old0[p])
    && (forall p :: p in done ==> p in old0 && p in files && CollapsedFile(old0, files, cs, rs, p))
  }

  /** The file at `p` collapsed without a panic and holds the collapsed lines. */
  ghost predicate CollapsedFile(old0: map<string, string>, files: map<string, string>, cs: seq<Conflict>,
                                rs: seq<ResolvedConflict>, p: string)
    requires p in old0 && p in files
  {
    var outcome := CollapseAll(SplitInclusive(old0[p]), Sort(FileGroup(cs, p), ByStartLine), rs);
    outcome.Success? && files[p] == Concat(outcome.value.lines)
  }

  /** Writing one more collapsed file. */
  lemma CollapsedFilesStep(old0: map<string, string>, files: map<string, string>, cs: seq<Conflict>,
                           rs: seq<ResolvedConflict>, done: set<string>, p: string, lines: seq<string>)
    requires CollapsedFiles(old0, files, cs, rs, done) && p in old0 && p !in done
    requires CollapsedFile(old0, files[p := Concat(lines)], cs, rs, p)
    ensures CollapsedFiles(old0, files[p := Concat(lines)], cs, rs, done + {p})
  {
    var files2 := files[p := Concat(lines)];
    forall q | q in done + {p} ensures q in old0 && q in files2 && CollapsedFile(old0, files2, cs, rs, q) {
      if q != p {
        assert CollapsedFile(old0, files, cs, rs, q);
      }
    }
  }

  /** One file of the collapse pass has been written. */
  lemma FlagStep(cs: seq<Conflict>, rs: seq<ResolvedConflict>, done: set<string>, unresolved: bool, p: string,
                 lines: seq<string>)
    requires FlagOf(cs, rs, done, unresolved)
    requires CollapseAll(lines, Sort(FileGroup(cs, p), ByStartLine), rs).Success?
    ensures FlagOf(cs, rs, done + {p},
                   unresolved || CollapseAll(lines, Sort(FileGroup(cs, p), ByStartLine), rs).value.unresolved)
  {
    var sorted := Sort(FileGroup(cs, p), ByStartLine);
    CollapseAllFlag(lines, sorted, rs);
    FileOrder(FileGroup(cs, p));
    forall c ensures c in sorted <==> c in cs && c.filePath == p {
      assert c in sorted <==> multiset(sorted)[c] > 0;
      assert c in FileGroup(cs, p) <==> multiset(FileGroup(cs, p))[c] > 0;
    }
  }

  lemma DoneStep<T>(keys: set<T>, pending: set<T>, p: T)
    requires pending <= keys && p in pending
    ensures (keys - pending) + {p} == keys - (pending - {p})
  {
  }

  /** One turn of the annotate loop, whichever way it ends. */
  lemma AnnotateTurn(files: map<string, string>, ranked: seq<ResolvedConflict>, percent: real -> string,
                     step: Result<Option<seq<string>>, ApplyError>)
    requires ranked != []
    requires var path := ranked[|ranked| - 1].conflict.filePath;
             path in files ==> step == Annotate(SplitInclusive(files[path]), ranked[|ranked| - 1], percent)
    ensures var path := ranked[|ranked| - 1].conflict.filePath;
            var front := ranked[..|ranked| - 1];
            AnnotateAll(files, ranked, percent) ==
              if path !in files then Outcome(files, Failure(Unreadable(path)))
              else if step.Failure? then Outcome(files, Failure(step.error))
              else if step.value.None? then AnnotateAll(files, front, percent)
              else AnnotateAll(files[path := Concat(step.value.value)], front, percent)
  {
  }

  /** The first loop of `apply_vibe_resolution` after the first candidates `p`. */
  ghost predicate ByFileOf(byFile: map<string, seq<Conflict>>, p: seq<Conflict>)
  {
    byFile.Keys == FilePaths(p) && forall k :: k in byFile ==> byFile[k] == FileGroup(p, k)
  }

  lemma FilePathsSnoc(p: seq<Conflict>, c: Conflict)
    ensures FilePaths(p + [c]) == FilePaths(p) + {c.filePath}
  {
    forall x | x in FilePaths(p + [c]) && x != c.filePath ensures x in FilePaths(p) {
      var d :| d in p + [c] && d.filePath == x;
      assert d in p;
    }
  }

  lemma FileGroupSnoc(p: seq<Conflict>, c: Conflict, j: string)
    ensures FileGroup(p + [c], j) == FileGroup(p, j) + (if c.filePath == j then [c] else [])
  {
    assert (p + [c])[..|p|] == p;
  }

  lemma FileGroupAbsent(p: seq<Conflict>, j: string)
    requires j !in FilePaths(p)
    ensures FileGroup(p, j) == []
  {
    if FileGroup(p, j) != [] {
      assert FileGroup(p, j)[0] in FileGroup(p, j);
    }
  }

  lemma ByFileValues(byFile: map<string, seq<Conflict>>, p: seq<Conflict>, c: Conflict, entry: seq<Conflict>)
    requires forall k :: k in byFile ==> byFile[k] == FileGroup(p, k)
    requires entry == FileGroup(p, c.filePath)
    ensures var m := byFile[c.filePath := entry + [c]];
            forall j :: j in m ==> m[j] == FileGroup(p + [c], j)
  {
    var m := byFile[c.filePath := entry + [c]];
    forall j | j in m ensures m[j] == FileGroup(p + [c], j) {
      FileGroupSnoc(p, c, j);
    }
  }

  lemma ByFileStep(byFile: map<string, seq<Conflict>>, p: seq<Conflict>, c: Conflict)
    requires ByFileOf(byFile, p)
    ensures ByFileOf(byFile[c.filePath := (if c.filePath in byFile then byFile[c.filePath] else []) + [c]], p + [c])
  {
    var k := c.filePath;
    var entry := if k in byFile then byFile[k] else [];
    assert byFile[k := entry + [c]].Keys == byFile.Keys + {k};
    FilePathsSnoc(p, c);
    if k !in byFile {
      FileGroupAbsent(p, k);
    }
    ByFileValues(byFile, p, c, entry);
  }

  /** One turn of the grouping loop over `cs`. */
  lemma ByFileNext(byFile: map<string, seq<Conflict>>, cs: seq<Conflict>, i: nat)
    requires i < |cs| && ByFileOf(byFile, cs[..i])
    ensures ByFileOf(byFile[cs[i].filePath := (if cs[i].filePath in byFile then byFile[cs[i].filePath] else []) + [cs[i]]],
                     cs[..i + 1])
  {
    assert cs[..i + 1] == cs[..i] + [cs[i]];
    ByFileStep(byFile, cs[..i], cs[i]);
  }

  /** The working tree the passes read and write. */
  class Worktree {
    var files: map<string, string>

    constructor(files: map<string, string>)
      ensures this.files == files
    {
      this.files := files;
    }

    /** The line edits of `apply_resolved_conflicts`: rank the candidates, then annotate. */
    method ApplyResolvedConflicts(conflicts: seq<ResolvedConflict>, percent: real -> string)
      returns (r: Result<(), ApplyError>)
      modifies this
      ensures Dedup(conflicts).None? ==> r == Failure(DedupPanicked) && files == old(files)
      ensures Dedup(conflicts).Some? ==> Outcome(files, r) == AnnotateAll(old(files), Dedup(conflicts).value, percent)
    {
      var ranked := DeduplicateConflicts(conflicts);
      if ranked.None? {
        return Failure(DedupPanicked);
      }
      r := AnnotateRanked(ranked.value, percent);
    }

    /** The annotate loop: the conflicts in reverse ranking order, each file read and written
        once per conflict. */
    method AnnotateRanked(ranked: seq<ResolvedConflict>, percent: real -> string) returns (r: Result<(), ApplyError>)
      modifies this
      ensures Outcome(files, r) == AnnotateAll(old(files), ranked, percent)
    {
      var i := |ranked|;
      assert ranked[..i] == ranked;
      while i > 0
        invariant 0 <= i <= |ranked|
        invariant AnnotateAll(old(files), ranked, percent) == AnnotateAll(files, ranked[..i], percent)
      {
        var rc := ranked[i - 1];
        assert ranked[..i][..i - 1] == ranked[..i - 1];
        var path := rc.conflict.filePath;
        if path !in files {
          AnnotateTurn(files, ranked[..i], percent, Success(None));
          return Failure(Unreadable(path));
        }
        var lines := SplitInclusive(files[path]);
        var step := AnnotateConflict(lines, rc, percent);
        AnnotateTurn(files, ranked[..i], percent, step);
        if step.Failure? {
          return Failure(step.error);
        }
        if step.value.Some? {
          files := files[path := Concat(step.value.value)];
        }
        i := i - 1;
      }
      r := Success(());
    }

    /** The line edits of `apply_vibe_resolution`: rank the candidates, then collapse, and
        report whether `git add -u` runs, which it does exactly when every conflict found a
        resolution. */
    method ApplyVibeResolution(conflicts: seq<Conflict>, resolved: seq<ResolvedConflict>)
      returns (r: Result<bool, ApplyError>)
      modifies this
      ensures Dedup(resolved).None? ==> r == Failure(DedupPanicked) && files == old(files)
      ensures r.Success? ==> Dedup(resolved).Some?
      ensures r.Success? ==>
                (r.value <==> forall c :: c in conflicts ==> FindResolved(Dedup(resolved).value, c).Some?)
      ensures r.Success? ==> CollapsedFiles(old(files), files, conflicts, Dedup(resolved).value, FilePaths(conflicts))
    {
      var ranked := DeduplicateConflicts(resolved);
      if ranked.None? {
        return Failure(DedupPanicked);
      }
      r := CollapseFiles(conflicts, ranked.value);
    }

    /** The collapse loop: the files in whatever order the grouping map yields them, each
        collapsed bottom-up. The result is whether every conflict found a resolution. */
    method CollapseFiles(conflicts: seq<Conflict>, rs: seq<ResolvedConflict>) returns (r: Result<bool, ApplyError>)
      modifies this
      ensures r.Success? ==> (r.value <==> forall c :: c in conflicts ==> FindResolved(rs, c).Some?)
      ensures r.Success? ==> CollapsedFiles(old(files), files, conflicts, rs, FilePaths(conflicts))
    {
      var byFile := GroupByFile(conflicts);
      var pending := byFile.Keys;
      var unresolved := false;
      ghost var done: set<string> := {};
      while pending != {}
        invariant pending <= byFile.Keys && done == byFile.Keys - pending
        invariant FlagOf(conflicts, rs, done, unresolved)
        invariant CollapsedFiles(old(files), files, conflicts, rs, done)
        decreases pending
      {
        var p :| p in pending;
        if p !in files {
          return Failure(Unreadable(p));
        }
        var lines := SplitInclusive(files[p]);
        var outcome := CollapseFile(lines, byFile[p], rs);
        if outcome.Failure? {
          return Failure(outcome.error);
        }
        FlagStep(conflicts, rs, done, unresolved, p, lines);
        assert CollapsedFile(old(files), files[p := Concat(outcome.value.lines)], conflicts, rs, p);
        CollapsedFilesStep(old(files), files, conflicts, rs, done, p, outcome.value.lines);
        DoneStep(byFile.Keys, pending, p);
        files := files[p := Concat(outcome.value.lines)];
        unresolved := unresolved || outcome.value.unresolved;
        pending := pending - {p};
        done := done + {p};
      }
      r := Success(!unresolved);
    }
  }

  /** The first loop of `apply_vibe_resolution`: each file's conflicts in input order. */
  method GroupByFile(conflicts: seq<Conflict>) returns (byFile: map<string, seq<Conflict>>)
    ensures byFile.Keys == FilePaths(conflicts)
    ensures forall p :: p in byFile ==> byFile[p] == FileGroup(conflicts, p)
  {
    byFile := map[];
    var i := 0;
    while i < |conflicts|
      invariant 0 <= i <= |conflicts|
      invariant ByFileOf(byFile, conflicts[..i])
    {
      var c := conflicts[i];
      ByFileNext(byFile, conflicts, i);
      var entry := if c.filePath in byFile then byFile[c.filePath] else [];
      byFile := byFile[c.filePath := entry + [c]];
      i := i + 1;
    }
    assert conflicts[..i] == conflicts;
  }
}
