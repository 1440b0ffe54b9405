/**
 * The post-processing `git_show_in_dir` applies to the output of
 * `git show --pretty= --no-color --histogram -U<n> <commit>`: within each
 * file's diff, the extended header lines between `diff --git` and the
 * `--- a/...` line (`index ...`, mode and similarity lines) are dropped;
 * everything else is kept in order. Running git is a parameter here.
 */
module DiffFilter {
  import opened Wrappers
  import opened Text

  predicate IsDiffHeader(l: string)
  {
    StartsWith(l, "diff --git")
  }

  predicate IsOldFileLine(l: string)
  {
    StartsWith(l, "---")
  }

  /** The `include_line` flag after the lines `ls`: cleared by a `diff --git` line,
      set by a `---` line, left alone by the others. */
  function IncludeAfter(ls: seq<string>): bool
  {
    if ls == [] then true
    else if IsDiffHeader(ls[|ls| - 1]) then false
    else if IsOldFileLine(ls[|ls| - 1]) then true
    else IncludeAfter(ls[..|ls| - 1])
  }

  /** Whether line `i` goes to the output. */
  predicate Kept(lines: seq<string>, i: nat)
    requires i < |lines|
  {
    IsDiffHeader(lines[i]) || IsOldFileLine(lines[i]) || IncludeAfter(lines[..i])
  }

  /** The kept lines, in input order. */
  function FilterLines(lines: seq<string>): (r: seq<string>)
    ensures |r| <= |lines|
    ensures forall x :: x in r ==> x in lines
  {
    if lines == [] then []
    else
      var n := |lines| - 1;
      assert lines[..n] + [lines[n]] == lines;
      FilterLines(lines[..n]) + (if Kept(lines, n) then [lines[n]] else [])
  }

  /** Line `i` sits in an extended header: some `diff --git` line precedes it with no
      `---` line in between. */
  ghost predicate InExtendedHeader(lines: seq<string>, i: nat)
    requires i <= |lines|
  {
    exists j :: 0 <= j < i && IsDiffHeader(lines[j]) && forall m :: j < m < i ==> !IsOldFileLine(lines[m])
  }

  lemma OldFileNotHeader(l: string)
    requires IsOldFileLine(l)
    ensures !IsDiffHeader(l)
  {
    assert l[0] == "---"[0];
  }

  /** A `---` line closes every extended header before it. */
  lemma OldFileClosesHeader(lines: seq<string>, i: nat)
    requires 0 < i <= |lines| && IsOldFileLine(lines[i - 1])
    ensures !InExtendedHeader(lines, i)
  {
    OldFileNotHeader(lines[i - 1]);
    forall j | 0 <= j < i && IsDiffHeader(lines[j])
      ensures !(forall m :: j < m < i ==> !IsOldFileLine(lines[m]))
    {
      assert j < i - 1;
    }
  }

  /** The flag is set exactly outside extended headers. */
  lemma {:induction false} IncludeIffOutsideHeader(lines: seq<string>, i: nat)
    requires i <= |lines|
    ensures IncludeAfter(lines[..i]) <==> !InExtendedHeader(lines, i)
  {
    if i > 0 {
      var l := lines[i - 1];
      assert lines[..i][..i - 1] == lines[..i - 1];
      if IsDiffHeader(l) {
        assert InExtendedHeader(lines, i);
      } else if IsOldFileLine(l) {
        OldFileClosesHeader(lines, i);
      } else {
        IncludeIffOutsideHeader(lines, i - 1);
        OtherLineCarriesHeader(lines, i);
      }
    }
  }

  /** A line that is neither a `diff --git` nor a `---` line neither opens nor closes a header. */
  lemma OtherLineCarriesHeader(lines: seq<string>, i: nat)
    requires 0 < i <= |lines| && !IsDiffHeader(lines[i - 1]) && !IsOldFileLine(lines[i - 1])
    ensures InExtendedHeader(lines, i) <==> InExtendedHeader(lines, i - 1)
  {
    if InExtendedHeader(lines, i - 1) {
      var j :| 0 <= j < i - 1 && IsDiffHeader(lines[j]) && forall m :: j < m < i - 1 ==> !IsOldFileLine(lines[m]);
      assert InExtendedHeader(lines, i);
    }
    if InExtendedHeader(lines, i) {
      var j :| 0 <= j < i && IsDiffHeader(lines[j]) && forall m :: j < m < i ==> !IsOldFileLine(lines[m]);
      assert j < i - 1;
      assert InExtendedHeader(lines, i - 1);
    }
  }

  /** A line is dropped exactly when it lies strictly between a `diff --git` line and
      the next `---` line. */
  lemma DroppedIffBetween(lines: seq<string>, i: nat)
    requires i < |lines|
    ensures !Kept(lines, i) <==> !IsDiffHeader(lines[i]) && !IsOldFileLine(lines[i]) && InExtendedHeader(lines, i)
  {
    IncludeIffOutsideHeader(lines, i);
  }

  /** The output of the first `n` lines is the start of the whole output. */
  lemma {:induction false} FilterPrefix(lines: seq<string>, n: nat)
    requires n <= |lines|
    ensures FilterLines(lines[..n]) <= FilterLines(lines)
    decreases |lines| - n
  {
    if n < |lines| {
      FilterPrefix(lines, n + 1);
      var p := lines[..n + 1];
      assert p[..n] == lines[..n];
      assert p[..|p| - 1] == lines[..n];
      assert FilterLines(p) == FilterLines(lines[..n]) + (if Kept(p, n) then [p[n]] else []);
    } else {
      assert lines[..n] == lines;
    }
  }

  /** Every kept line appears in the output, at the position given by the number of
      kept lines before it. */
  lemma KeptLineInOutput(lines: seq<string>, i: nat)
    requires i < |lines| && Kept(lines, i)
    ensures var k := |FilterLines(lines[..i])|;
      k < |FilterLines(lines)| && FilterLines(lines)[k] == lines[i]
  {
    var p := lines[..i + 1];
    assert p[..i] == lines[..i];
    assert p[..|p| - 1] == lines[..i];
    assert Kept(p, i);
    assert FilterLines(p) == FilterLines(lines[..i]) + [lines[i]];
    FilterPrefix(lines, i + 1);
  }

  /** A dropped line adds nothing: the output before and after it is the same. */
  lemma DroppedLineSkipped(lines: seq<string>, i: nat)
    requires i < |lines| && !Kept(lines, i)
    ensures FilterLines(lines[..i + 1]) == FilterLines(lines[..i])
  {
    var p := lines[..i + 1];
    assert p[..|p| - 1] == lines[..i];
    assert !Kept(p, i);
  }

  /** The kept lines of a `split_inclusive` result are again one: each but the last ends in
      a newline. */
  lemma {:induction false} FilterKeepsLineShape(lines: seq<string>)
    requires IsLineSeq(lines)
    ensures IsLineSeq(FilterLines(lines))
  {
    if lines != [] {
      var n := |lines| - 1;
      var front := lines[..n];
      assert IsLineSeq(front);
      FilterKeepsLineShape(front);
      var f := FilterLines(front);
      if Kept(lines, n) {
        assert front == lines[..n];
        forall i | 0 <= i < |f| ensures EndsInNewline(f[i]) {
          assert f[i] in front;
        }
        assert FilterLines(lines) == f + [lines[n]];
      }
    }
  }

  /** The joined output splits back into exactly the kept lines. */
  lemma FilterRereads(stdout: string)
    ensures SplitInclusive(Concat(FilterLines(SplitInclusive(stdout)))) == FilterLines(SplitInclusive(stdout))
  {
    SplitInclusiveShape(stdout);
    FilterKeepsLineShape(SplitInclusive(stdout));
    SplitConcat(FilterLines(SplitInclusive(stdout)));
  }

  /** The filter loop over `stdout.split_inclusive('\n')`. */
  method FilterShowOutput(stdout: string) returns (r: string)
    ensures r == Concat(FilterLines(SplitInclusive(stdout)))
  {
    var lines := SplitInclusive(stdout);
    var resultLines: seq<string> := [];
    var includeLine := true;
    var i := 0;
    while i < |lines|
      invariant 0 <= i <= |lines|
      invariant resultLines == FilterLines(lines[..i])
      invariant includeLine == IncludeAfter(lines[..i])
    {
      var line := lines[i];
      ghost var p := lines[..i + 1];
      assert p[..|p| - 1] == lines[..i] && p[|p| - 1] == line;
      if IsDiffHeader(line) {
        resultLines := resultLines + [line];
        includeLine := false;
      } else if IsOldFileLine(line) {
        resultLines := resultLines + [line];
        includeLine := true;
      } else if includeLine {
        resultLines := resultLines + [line];
      }
      i := i + 1;
    }
    assert lines[..i] == lines;
    r := Concat(resultLines);
  }

  /** What `git_show_in_dir` returns for a `git show` run: `None` when git failed, the
      file contents unchanged for `<commit>:<file>`, otherwise the filtered diff. */
  method GitShowResult(success: bool, stdout: string, fileRequested: bool) returns (r: Option<string>)
    ensures !success ==> r == None
    ensures success && fileRequested ==> r == Some(stdout)
    ensures success && !fileRequested ==> r == Some(Concat(FilterLines(SplitInclusive(stdout))))
  {
    if !success {
      return None;
    }
    if fileRequested {
      return Some(stdout);
    }
    var filtered := FilterShowOutput(stdout);
    r := Some(filtered);
  }
}
