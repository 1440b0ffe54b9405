/**
 * `parse_git_log` of `tools/backtest_stable.py`: from the output of `git log`
 * on a stable tree, the pairs (commit, upstream commit) of the backported
 * commits. A commit starts at a line `commit <40 hex digits>`; the first line
 * of its message of the form `commit <hash> upstream.` or
 * `[ Upstream commit <hash> ]` names its upstream commit. Lines are stripped
 * of Python whitespace before they are matched.
 */
module GitLog {
  import opened Wrappers
  import opened Text

  /** One result tuple; `commit` is Python's `None` where no commit line came first. */
  datatype Pick = Pick(commit: Option<string>, upstream: string)

  /** The loop variables `commits`, `current_commit`, `upstream_commit`. */
  datatype ParseState = ParseState(commits: seq<Pick>, current: Option<string>, upstream: Option<string>)

  /** What a stripped line is to the parser. */
  datatype LineKind = CommitLine(hash: string) | UpstreamLine(upstream: string) | OtherLine

  predicate IsHexDigit(ch: char)
  {
    '0' <= ch <= '9' || 'a' <= ch <= 'f'
  }

  /** `[a-f0-9]{40}` */
  predicate IsHash(h: string)
  {
    |h| == 40 && forall i :: 0 <= i < |h| ==> IsHexDigit(h[i])
  }

  /** The literal `pat` stands at offset `i` of `t`. */
  predicate LiteralAt(t: string, i: nat, pat: string)
  {
    i + |pat| <= |t| && t[i..i + |pat|] == pat
  }

  /** `^commit ([a-f0-9]{40})$` on a stripped line: the hash, which is also `line.split()[1]`. */
  function CommitHeader(t: string): (r: Option<string>)
    ensures r.Some? ==> IsHash(r.value)
  {
    if |t| == 47 && LiteralAt(t, 0, "commit ") && IsHash(t[7..]) then Some(t[7..]) else None
  }

  /** The two upstream patterns, tried in order: `^commit ([a-f0-9]{40}) upstream.$` (any
      last character) and `^\[ Upstream commit ([a-f0-9]{40}) \]$`. */
  function UpstreamOf(t: string): (r: Option<string>)
    ensures r.Some? ==> IsHash(r.value)
  {
    if |t| == 57 && LiteralAt(t, 0, "commit ") && IsHash(t[7..47]) && LiteralAt(t, 47, " upstream") then
      Some(t[7..47])
    else if |t| == 60 && LiteralAt(t, 0, "[ Upstream commit ") && IsHash(t[18..58]) && LiteralAt(t, 58, " ]") then
      Some(t[18..58])
    else None
  }

  /** The commit pattern is tried first; the upstream patterns only on other lines. */
  function Classify(t: string): (k: LineKind)
    ensures k.CommitLine? ==> IsHash(k.hash)
    ensures k.UpstreamLine? ==> IsHash(k.upstream)
  {
    match CommitHeader(t)
    case Some(h) => CommitLine(h)
    case None =>
      match UpstreamOf(t)
      case Some(u) => UpstreamLine(u)
      case None => OtherLine
  }

  /** The kind of a raw line of the log, once `strip()`ped. */
  function KindOf(raw: string): LineKind
  {
    Classify(Trim(raw, PythonWhitespace))
  }

  /** The kinds of the lines `ls`. */
  function KindsOf(ls: seq<string>): (ks: seq<LineKind>)
    ensures |ks| == |ls|
  {
    MapSeq(KindOf, ls)
  }

  lemma KindsOfAt(ls: seq<string>, i: nat)
    requires i < |ls|
    ensures KindsOf(ls)[i] == KindOf(ls[i])
  {
    MapSeqAt(KindOf, ls, i);
  }

  /** The kinds of the lines of `git_log_output.split("\n")`. */
  function Kinds(log: string): (ks: seq<LineKind>)
    ensures |ks| == |PySplitNewline(log)|
  {
    KindsOf(PySplitNewline(log))
  }

  /** One turn of the loop. */
  function Step(st: ParseState, k: LineKind): ParseState
  {
    match k
    case CommitLine(h) =>
      var commits := if st.current.Some? && st.upstream.Some? then st.commits + [Pick(st.current, st.upstream.value)] else st.commits;
      ParseState(commits, Some(h), None)
    case UpstreamLine(u) =>
      if st.upstream.None? then ParseState(st.commits, st.current, Some(u)) else st
    case OtherLine => st
  }

  function ParseUpTo(ks: seq<LineKind>, n: nat): ParseState
    requires n <= |ks|
  {
    if n == 0 then ParseState([], None, None) else Step(ParseUpTo(ks, n - 1), ks[n - 1])
  }

  /** The pair the code adds after the loop, as written: whenever an upstream line was seen,
      even with no commit line before it. */
  function FinalAsWritten(st: ParseState): seq<Pick>
  {
    if st.upstream.Some? then [Pick(st.current, st.upstream.value)] else []
  }

  /** The pair added after the loop once corrected: only for an open commit, as the loop does
      for the others. */
  function Final(st: ParseState): seq<Pick>
  {
    if st.current.Some? && st.upstream.Some? then [Pick(st.current, st.upstream.value)] else []
  }

  function ParseKindsAsWritten(ks: seq<LineKind>): seq<Pick>
  {
    var st := ParseUpTo(ks, |ks|);
    st.commits + FinalAsWritten(st)
  }

  function ParseKinds(ks: seq<LineKind>): seq<Pick>
  {
    var st := ParseUpTo(ks, |ks|);
    st.commits + Final(st)
  }

  /** `parse_git_log` as written. */
  function ParsedAsWritten(log: string): seq<Pick>
  {
    ParseKindsAsWritten(Kinds(log))
  }

  /** `parse_git_log` with the final test corrected. */
  function Parsed(log: string): seq<Pick>
  {
    ParseKinds(Kinds(log))
  }

  // ---------------------------------------------------------------------------
  // An independent description: one pick per commit block.

  /** The last commit line among the first `n` lines. */
  function LastHeader(ks: seq<LineKind>, n: nat): (r: Option<nat>)
    requires n <= |ks|
    ensures r.Some? ==> r.value < n
  {
    if n == 0 then None
    else if ks[n - 1].CommitLine? then Some(n - 1)
    else LastHeader(ks, n - 1)
  }

  lemma {:induction false} LastHeaderMeaning(ks: seq<LineKind>, n: nat)
    requires n <= |ks|
    ensures var r := LastHeader(ks, n);
            && (r.Some? ==> ks[r.value].CommitLine? && forall j :: r.value < j < n ==> !ks[j].CommitLine?)
            && (r.None? ==> forall j :: 0 <= j < n ==> !ks[j].CommitLine?)
  {
    if n > 0 && !ks[n - 1].CommitLine? {
      LastHeaderMeaning(ks, n - 1);
    }
  }

  /** The index of the first commit line at or after `j`, or the number of lines. */
  function NextHeader(ks: seq<LineKind>, j: nat): (r: nat)
    requires j <= |ks|
    ensures j <= r <= |ks|
    decreases |ks| - j
  {
    if j == |ks| then |ks| else if ks[j].CommitLine? then j else NextHeader(ks, j + 1)
  }

  /** The first commit line at or after `j` is the one at `n` (or there is none from `j` on,
      for `n` the number of lines). */
  lemma {:induction false} NextHeaderAt(ks: seq<LineKind>, j: nat, n: nat)
    requires j <= n <= |ks| && (n == |ks| || ks[n].CommitLine?)
    requires forall m :: j <= m < n ==> !ks[m].CommitLine?
    ensures NextHeader(ks, j) == n
    decreases n - j
  {
    if j < n {
      NextHeaderAt(ks, j + 1, n);
    }
  }

  /** The hash of the first upstream line among lines `a` to `b - 1`. */
  function FirstUpstream(ks: seq<LineKind>, a: nat, b: nat): (r: Option<string>)
    requires b <= |ks|
  {
    if b <= a then None
    else
      var f := FirstUpstream(ks, a, b - 1);
      if f.Some? then f else if ks[b - 1].UpstreamLine? then Some(ks[b - 1].upstream) else None
  }

  /** It is the first: no upstream line comes before it in the range. */
  lemma {:induction false} FirstUpstreamMeaning(ks: seq<LineKind>, a: nat, b: nat)
    requires b <= |ks|
    ensures var r := FirstUpstream(ks, a, b);
            && (r.Some? ==> exists j :: a <= j < b && ks[j] == UpstreamLine(r.value)
                                       && forall m :: a <= m < j ==> !ks[m].UpstreamLine?)
            && (r.None? ==> forall m :: a <= m < b ==> !ks[m].UpstreamLine?)
  {
    if a < b {
      FirstUpstreamMeaning(ks, a, b - 1);
    }
  }

  /** The pick of the commit line `i`: its hash with the first upstream line of its block. */
  function BlockPick(ks: seq<LineKind>, i: nat): seq<Pick>
    requires i < |ks|
  {
    if !ks[i].CommitLine? then []
    else
      var u := FirstUpstream(ks, i + 1, NextHeader(ks, i + 1));
      if u.Some? then [Pick(Some(ks[i].hash), u.value)] else []
  }

  /** The picks of the commit lines among the first `m` lines, in order. */
  function Blocks(ks: seq<LineKind>, m: nat): seq<Pick>
    requires m <= |ks|
  {
    if m == 0 then [] else Blocks(ks, m - 1) + BlockPick(ks, m - 1)
  }

  lemma {:induction false} BlocksNoHeaders(ks: seq<LineKind>, a: nat, b: nat)
    requires a <= b <= |ks| && forall j :: a <= j < b ==> !ks[j].CommitLine?
    ensures Blocks(ks, b) == Blocks(ks, a)
    decreases b - a
  {
    if a < b {
      BlocksNoHeaders(ks, a, b - 1);
    }
  }

  /** Closing the block of the commit line `l` at `n`: its pick follows the closed ones. */
  lemma CloseBlock(ks: seq<LineKind>, l: nat, n: nat)
    requires l < n <= |ks| && ks[l].CommitLine? && (n == |ks| || ks[n].CommitLine?)
    requires forall j :: l < j < n ==> !ks[j].CommitLine?
    ensures var u := FirstUpstream(ks, l + 1, n);
            Blocks(ks, n) == Blocks(ks, l) + (if u.Some? then [Pick(Some(ks[l].hash), u.value)] else [])
  {
    BlocksNoHeaders(ks, l + 1, n);
    NextHeaderAt(ks, l + 1, n);
  }

  /** What the loop keeps after `n` lines: the picks of the closed blocks, the open commit and
      the first upstream line since it. */
  lemma {:induction false} ParseInvariant(ks: seq<LineKind>, n: nat)
    requires n <= |ks|
    ensures var st := ParseUpTo(ks, n);
            match LastHeader(ks, n)
            case None => st.current.None? && st.commits == [] && st.upstream == FirstUpstream(ks, 0, n)
            case Some(l) =>
              && ks[l].CommitLine? && st.current == Some(ks[l].hash) && st.commits == Blocks(ks, l)
              && st.upstream == FirstUpstream(ks, l + 1, n)
  {
    if n > 0 {
      ParseInvariant(ks, n - 1);
      LastHeaderMeaning(ks, n - 1);
      if ks[n - 1].CommitLine? {
        match LastHeader(ks, n - 1)
        case None =>
          BlocksNoHeaders(ks, 0, n - 1);
        case Some(l) =>
          CloseBlock(ks, l, n - 1);
      }
    }
  }

  /** The loop's picks are exactly the block picks of all commit lines. */
  lemma KindsAreBlocks(ks: seq<LineKind>)
    ensures ParseKinds(ks) == Blocks(ks, |ks|)
  {
    ParseInvariant(ks, |ks|);
    LastHeaderMeaning(ks, |ks|);
    var st := ParseUpTo(ks, |ks|);
    if LastHeader(ks, |ks|).None? {
      BlocksNoHeaders(ks, 0, |ks|);
      assert st.commits == [] && Final(st) == [];
    } else {
      LastBlockCloses(ks, LastHeader(ks, |ks|).value, st);
    }
  }

  /** After the loop, the pick of the open block follows the closed ones. */
  lemma LastBlockCloses(ks: seq<LineKind>, l: nat, st: ParseState)
    requires l < |ks| && ks[l].CommitLine? && forall j :: l < j < |ks| ==> !ks[j].CommitLine?
    requires st.current == Some(ks[l].hash) && st.commits == Blocks(ks, l)
    requires st.upstream == FirstUpstream(ks, l + 1, |ks|)
    ensures st.commits + Final(st) == Blocks(ks, |ks|)
  {
    CloseBlock(ks, l, |ks|);
  }

  lemma ParsedIsBlocks(log: string)
    ensures Parsed(log) == Blocks(Kinds(log), |Kinds(log)|)
  {
    KindsAreBlocks(Kinds(log));
  }

  /** Every hash a line kind carries is 40 lowercase hex digits. */
  predicate HashesValid(ks: seq<LineKind>)
  {
    forall i :: 0 <= i < |ks| ==>
      (ks[i].CommitLine? ==> IsHash(ks[i].hash)) && (ks[i].UpstreamLine? ==> IsHash(ks[i].upstream))
  }

  lemma {:induction false} FirstUpstreamValid(ks: seq<LineKind>, a: nat, b: nat)
    requires b <= |ks| && HashesValid(ks)
    ensures FirstUpstream(ks, a, b).Some? ==> IsHash(FirstUpstream(ks, a, b).value)
  {
    if a < b {
      FirstUpstreamValid(ks, a, b - 1);
    }
  }

  /** Every block pick names a commit, and both hashes are 40 lowercase hex digits. */
  lemma {:induction false} BlocksAreHashes(ks: seq<LineKind>, m: nat)
    requires m <= |ks| && HashesValid(ks)
    ensures forall p :: p in Blocks(ks, m) ==> p.commit.Some? && IsHash(p.commit.value) && IsHash(p.upstream)
  {
    if m > 0 {
      BlocksAreHashes(ks, m - 1);
      FirstUpstreamValid(ks, m, NextHeader(ks, m));
    }
  }

  lemma KindsHaveHashes(log: string)
    ensures HashesValid(Kinds(log))
  {
    var ls := PySplitNewline(log);
    var ks := Kinds(log);
    forall i | 0 <= i < |ks|
      ensures (ks[i].CommitLine? ==> IsHash(ks[i].hash)) && (ks[i].UpstreamLine? ==> IsHash(ks[i].upstream))
    {
      KindsOfAt(ls, i);
    }
  }

  lemma PicksAreHashes(log: string)
    ensures forall p :: p in Parsed(log) ==> p.commit.Some? && IsHash(p.commit.value) && IsHash(p.upstream)
  {
    ParsedIsBlocks(log);
    KindsHaveHashes(log);
    BlocksAreHashes(Kinds(log), |Kinds(log)|);
  }

  /** Once any commit line has been seen, the final test as written agrees with the corrected
      one. */
  lemma {:induction false} AsWrittenAgreesOnKinds(ks: seq<LineKind>, i: nat)
    requires i < |ks| && ks[i].CommitLine?
    ensures ParseKindsAsWritten(ks) == ParseKinds(ks)
  {
    ParseInvariant(ks, |ks|);
    LastHeaderMeaning(ks, |ks|);
  }

  lemma AsWrittenAgrees(log: string, i: nat)
    requires i < |Kinds(log)| && Kinds(log)[i].CommitLine?
    ensures ParsedAsWritten(log) == Parsed(log)
  {
    AsWrittenAgreesOnKinds(Kinds(log), i);
  }

  /** Without any commit line the loop closes no block; the final test as written still adds
      the first upstream line, with no commit, while the corrected one adds nothing. */
  lemma NoCommitLinesOnKinds(ks: seq<LineKind>)
    requires forall j :: 0 <= j < |ks| ==> !ks[j].CommitLine?
    ensures var u := FirstUpstream(ks, 0, |ks|);
            ParseKindsAsWritten(ks) == (if u.Some? then [Pick(None, u.value)] else [])
    ensures ParseKinds(ks) == []
  {
    ParseInvariant(ks, |ks|);
    assert LastHeader(ks, |ks|).None? by { LastHeaderMeaning(ks, |ks|); }
  }

  /** A log without commit lines yields, as written, the pair `(None, hash)` of its first
      upstream line when it has one, and once corrected nothing. */
  lemma NoCommitLines(log: string)
    requires forall j :: 0 <= j < |Kinds(log)| ==> !Kinds(log)[j].CommitLine?
    ensures var u := FirstUpstream(Kinds(log), 0, |Kinds(log)|);
            ParsedAsWritten(log) == (if u.Some? then [Pick(None, u.value)] else [])
    ensures Parsed(log) == []
  {
    NoCommitLinesOnKinds(Kinds(log));
  }

  /** The line `[ Upstream commit <h> ]` is one line of the log, of upstream kind. */
  lemma UpstreamTagLine(h: string)
    requires IsHash(h)
    ensures var line := "[ Upstream commit " + h + " ]";
            PySplitNewline(line) == [line] && KindOf(line) == UpstreamLine(h)
  {
    var line := "[ Upstream commit " + h + " ]";
    assert '\n' !in line by {
      forall i | 0 <= i < |line| ensures line[i] != '\n' {
        if 18 <= i < 58 { assert line[i] == h[i - 18]; }
      }
    }
    IndexOfNoNewline(line);
    TrimUntouched(line, PythonWhitespace);
    assert line[18..58] == h && line[0..18] == "[ Upstream commit " && line[58..60] == " ]";
    assert UpstreamOf(line) == Some(h);
  }

  /** An instance of `NoCommitLines`: a log holding only an upstream line yields the pair
      `(None, hash)` as written, and nothing once corrected. */
  lemma OrphanUpstream(h: string)
    requires IsHash(h)
    ensures ParsedAsWritten("[ Upstream commit " + h + " ]") == [Pick(None, h)]
    ensures Parsed("[ Upstream commit " + h + " ]") == []
  {
    var line := "[ Upstream commit " + h + " ]";
    UpstreamTagLine(h);
    var ks := [UpstreamLine(h)];
    assert Kinds(line) == ks;
    assert ParseUpTo(ks, 1) == ParseState([], None, Some(h));
  }

  // ---------------------------------------------------------------------------
  // The loop.

  /** The body of the loop of `parse_git_log` for one line. */
  method ParseLine(commits: seq<Pick>, currentCommit: Option<string>, upstreamCommit: Option<string>, raw: string)
    returns (commits': seq<Pick>, currentCommit': Option<string>, upstreamCommit': Option<string>)
    ensures ParseState(commits', currentCommit', upstreamCommit')
            == Step(ParseState(commits, currentCommit, upstreamCommit), KindOf(raw))
  {
    var line := Trim(raw, PythonWhitespace);
    commits', currentCommit', upstreamCommit' := commits, currentCommit, upstreamCommit;
    var header := CommitHeader(line);
    assert KindOf(raw) == Classify(line);
    if header.Some? {
      assert KindOf(raw) == CommitLine(header.value);
      if currentCommit.Some? && upstreamCommit.Some? {
        commits' := commits + [Pick(currentCommit, upstreamCommit.value)];
      }
      currentCommit' := header;
      upstreamCommit' := None;
    } else if upstreamCommit.None? {
      upstreamCommit' := UpstreamOf(line);
      assert KindOf(raw) == if upstreamCommit'.Some? then UpstreamLine(upstreamCommit'.value) else OtherLine;
    }
  }

  /** The loop of `parse_git_log` over the lines of the log. */
  method ParseLines(pieces: seq<string>) returns (commits: seq<Pick>, currentCommit: Option<string>, upstreamCommit: Option<string>)
    ensures ParseState(commits, currentCommit, upstreamCommit) == ParseUpTo(KindsOf(pieces), |pieces|)
  {
    commits := [];
    currentCommit := None;
    upstreamCommit := None;
    for i := 0 to |pieces|
      invariant ParseUpTo(KindsOf(pieces), i) == ParseState(commits, currentCommit, upstreamCommit)
    {
      commits, currentCommit, upstreamCommit := ParseNextLine(pieces, i, commits, currentCommit, upstreamCommit);
    }
  }

  /** The loop body for line `i`, in terms of the whole log's kinds. */
  method ParseNextLine(pieces: seq<string>, i: nat, commits: seq<Pick>, currentCommit: Option<string>, upstreamCommit: Option<string>)
    returns (commits': seq<Pick>, currentCommit': Option<string>, upstreamCommit': Option<string>)
    requires i < |pieces| && ParseUpTo(KindsOf(pieces), i) == ParseState(commits, currentCommit, upstreamCommit)
    ensures ParseUpTo(KindsOf(pieces), i + 1) == ParseState(commits', currentCommit', upstreamCommit')
  {
    KindsOfAt(pieces, i);
    commits', currentCommit', upstreamCommit' := ParseLine(commits, currentCommit, upstreamCommit, pieces[i]);
  }

  /** `parse_git_log`, with the last pair added only when a commit line opened its block. */
  method ParseGitLog(log: string) returns (commits: seq<Pick>)
    ensures commits == Parsed(log)
  {
    var currentCommit, upstreamCommit;
    commits, currentCommit, upstreamCommit := ParseLines(PySplitNewline(log));
    ghost var st := ParseState(commits, currentCommit, upstreamCommit);
    if currentCommit.Some? && upstreamCommit.Some? {
      commits := commits + [Pick(currentCommit, upstreamCommit.value)];
    }
    assert commits == st.commits + Final(st);
  }
}
