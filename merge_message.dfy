/**
 * The trailer `update_merge_message` adds to the merge (or rebase) message
 * after AI resolutions were applied: the line `Assisted-by: synthmerge` goes
 * after the last non-blank line that precedes the `# Conflicts:` comment
 * block git writes, separated by an empty line unless the message already
 * carries a `Something-by:` trailer. The message file is read and written by
 * the caller; here the text goes in and the new text comes out.
 */
module MergeMessage {
  import opened Wrappers
  import opened Text
  import Reconciler

  /** `concat!("Assisted-by: ", env!("CARGO_PKG_NAME"))` */
  const ASSISTED_BY_LINE: string := "Assisted-by: " + Reconciler.PKG_NAME

  /** Every character is whitespace: `line.trim().is_empty()` (see `BlankIffTrimmedEmpty`). */
  predicate IsBlank(l: string)
  {
    TextStart(l, RustWhitespace) == |l|
  }

  lemma BlankIffTrimmedEmpty(l: string)
    ensures IsBlank(l) <==> Trim(l, RustWhitespace) == ""
  {
    TrimAsSlice(l, RustWhitespace);
    if TextStart(l, RustWhitespace) < |l| {
      TextStartBeforeEnd(l, RustWhitespace);
    }
  }

  /** `line.trim() == "# Conflicts:"` (see `HeaderIffTrimmed`). */
  predicate IsConflictsHeader(l: string)
  {
    TextStart(l, RustWhitespace) < TextEnd(l, RustWhitespace) && l[TextStart(l, RustWhitespace)..TextEnd(l, RustWhitespace)] == "# Conflicts:"
  }

  lemma HeaderIffTrimmed(l: string)
    ensures IsConflictsHeader(l) <==> Trim(l, RustWhitespace) == "# Conflicts:"
  {
    TrimAsSlice(l, RustWhitespace);
  }

  predicate NoWhitespace(s: string)
  {
    forall i :: 0 <= i < |s| ==> !RustWhitespace(s[i])
  }

  /** Index of the first whitespace character of `s`, `|s|` if there is none. */
  function WhitespaceIndex(s: string): (k: nat)
    ensures k <= |s|
    ensures forall i :: 0 <= i < k ==> !RustWhitespace(s[i])
    ensures k < |s| ==> RustWhitespace(s[k])
  {
    if s == [] || RustWhitespace(s[0]) then 0 else 1 + WhitespaceIndex(s[1..])
  }

  /**
   * Whether the line matches `^[A-Z][^\s]*-by:\s.*\n$` (`.` excludes the
   * newline, `$` is the end of the text). Since `[^\s]*-by:` holds no
   * whitespace, the `\s` can only be the first whitespace character, so the
   * match is decided there (`TrailerIffRegex`).
   */
  predicate IsTrailer(l: string)
  {
    var w := WhitespaceIndex(l);
    |l| > 0 && 'A' <= l[0] <= 'Z' && 5 <= w < |l| - 1 && l[w - 4..w] == "-by:"
    && '\n' !in l[w + 1..|l| - 1] && l[|l| - 1] == '\n'
  }

  /** The regex read literally: some split `l[0]`, `l[1..j]`, `-by:`, one whitespace
      character, a newline-free rest and the final newline. */
  ghost predicate TrailerRegexMatch(l: string)
  {
    exists j :: 1 <= j && j + 6 <= |l| && TrailerAt(l, j)
  }

  ghost predicate TrailerAt(l: string, j: nat)
    requires 1 <= j && j + 6 <= |l|
  {
    'A' <= l[0] <= 'Z' && NoWhitespace(l[1..j]) && l[j..j + 4] == "-by:" && RustWhitespace(l[j + 4])
    && '\n' !in l[j + 5..|l| - 1] && l[|l| - 1] == '\n'
  }

  lemma TrailerIffRegex(l: string)
    ensures IsTrailer(l) <==> TrailerRegexMatch(l)
  {
    var w := WhitespaceIndex(l);
    if IsTrailer(l) {
      var j := w - 4;
      assert l[1..j] == l[..w][1..j];
      assert TrailerAt(l, j);
    }
    if TrailerRegexMatch(l) {
      var j :| 1 <= j && j + 6 <= |l| && TrailerAt(l, j);
      assert w == j + 4 by {
        forall i | 0 <= i < j + 4 ensures !RustWhitespace(l[i]) {
          if 1 <= i < j { assert l[i] == l[1..j][i - 1]; }
          else if j <= i { assert l[i] == "-by:"[i - j]; }
        }
      }
    }
  }

  /** Whether one of `lines[..n]` is a trailer line. */
  predicate HasTrailer(lines: seq<string>, n: nat)
    requires n <= |lines|
  {
    exists i :: 0 <= i < n && IsTrailer(lines[i])
  }

  /** Index of the first `# Conflicts:` line, `|lines|` when there is none. */
  function ConflictsIndex(lines: seq<string>): (c: nat)
    ensures c <= |lines|
  {
    if lines == [] then 0
    else if IsConflictsHeader(lines[0]) then 0
    else 1 + ConflictsIndex(lines[1..])
  }

  /** `ConflictsIndex` is the first header line, the line count when there is none. */
  lemma {:induction false} ConflictsIndexFirst(lines: seq<string>)
    ensures forall i :: 0 <= i < ConflictsIndex(lines) ==> !IsConflictsHeader(lines[i])
    ensures ConflictsIndex(lines) < |lines| ==> IsConflictsHeader(lines[ConflictsIndex(lines)])
  {
    if lines != [] && !IsConflictsHeader(lines[0]) {
      ConflictsIndexFirst(lines[1..]);
      forall i | 1 <= i < ConflictsIndex(lines) ensures !IsConflictsHeader(lines[i]) {
        assert lines[i] == lines[1..][i - 1];
      }
    }
  }

  /** Where the backwards walk from `n` stops: the last non-blank line before `n`,
      or line 0 when every line before `n` is blank. */
  function LastNonBlank(lines: seq<string>, n: nat): (p: nat)
    requires n <= |lines|
    ensures n == 0 ==> p == 0
    ensures n > 0 ==> p < n
    ensures forall i :: p < i < n ==> IsBlank(lines[i])
    ensures n > 0 ==> !IsBlank(lines[p]) || (p == 0 && forall i :: 0 <= i < n ==> IsBlank(lines[i]))
  {
    if n == 0 then 0
    else if !IsBlank(lines[n - 1]) || n == 1 then n - 1
    else LastNonBlank(lines, n - 1)
  }

  /** The inserted line: an empty line first unless a trailer precedes it. */
  function TrailerText(hasTrailer: bool): string
  {
    (if hasTrailer then "" else "\n") + ASSISTED_BY_LINE + "\n"
  }

  /**
   * The message as `update_merge_message` writes it back, `None` where it
   * panics: the insertion index is one past the stopping point of the
   * backwards walk, which exceeds the line count only for an empty message.
   */
  function UpdateAsWritten(msg: string): Option<string>
  {
    if Contains(msg, ASSISTED_BY_LINE) then Some(msg)
    else
      var lines := SplitInclusive(msg);
      var p := LastNonBlank(lines, ConflictsIndex(lines));
      if p >= |lines| then None
      else Some(Concat(lines[..p + 1] + [TrailerText(HasTrailer(lines, p + 1))] + lines[p + 1..]))
  }

  /** The insertion index for a walk back from line `c`, kept within the message (the
      source uses `insert_pos + 1` unguarded). */
  function InsertIndexFrom(lines: seq<string>, c: nat): (k: nat)
    requires c <= |lines|
    ensures k <= |lines|
  {
    var p := LastNonBlank(lines, c) + 1;
    if p <= |lines| then p else |lines|
  }

  function InsertIndex(lines: seq<string>): (k: nat)
    ensures k <= |lines|
  {
    InsertIndexFrom(lines, ConflictsIndex(lines))
  }

  /** The message after the trailer insertion, with the empty message handled. */
  function Updated(msg: string): string
  {
    if Contains(msg, ASSISTED_BY_LINE) then msg
    else
      var lines := SplitInclusive(msg);
      var k := InsertIndex(lines);
      Concat(lines[..k] + [TrailerText(HasTrailer(lines, k))] + lines[k..])
  }

  /** On every non-empty message the corrected definition is the source's. */
  lemma AsWrittenAgrees(msg: string)
    requires msg != ""
    ensures UpdateAsWritten(msg) == Some(Updated(msg))
  {
    var lines := SplitInclusive(msg);
    SplitInclusiveShape(msg);
    assert lines != [];
  }

  /** The source indexes `lines[0]` of an empty message and panics. */
  lemma EmptyMessagePanics()
    ensures UpdateAsWritten("") == None
    ensures Updated("") == "\n" + ASSISTED_BY_LINE + "\n"
  {
    assert !OccursAt("", ASSISTED_BY_LINE, 0);
    assert Concat([TrailerText(false)]) == TrailerText(false) + Concat([]);
  }

  lemma AfterTextFrom(lines: seq<string>, c: nat)
    requires c <= |lines| && exists i :: 0 <= i < c && !IsBlank(lines[i])
    ensures 0 < InsertIndexFrom(lines, c) <= c
    ensures !IsBlank(lines[InsertIndexFrom(lines, c) - 1])
    ensures forall i :: InsertIndexFrom(lines, c) <= i < c ==> IsBlank(lines[i])
  {
    var p := LastNonBlank(lines, c);
    var i :| 0 <= i < c && !IsBlank(lines[i]);
    assert p < c && !IsBlank(lines[p]);
  }

  lemma AfterFirstLineFrom(lines: seq<string>, c: nat)
    requires c <= |lines| && forall i :: 0 <= i < c ==> IsBlank(lines[i])
    ensures InsertIndexFrom(lines, c) == if lines == [] then 0 else 1
  {
    var p := LastNonBlank(lines, c);
    if c > 0 {
      assert p < c && IsBlank(lines[p]);
    }
  }

  /** Where the line goes when text precedes the first `# Conflicts:` line (the end, if
      there is none): right after the last non-blank line before it. */
  lemma InsertAfterText(lines: seq<string>)
    requires exists i :: 0 <= i < ConflictsIndex(lines) && !IsBlank(lines[i])
    ensures 0 < InsertIndex(lines) <= ConflictsIndex(lines)
    ensures !IsBlank(lines[InsertIndex(lines) - 1])
    ensures forall i :: InsertIndex(lines) <= i < ConflictsIndex(lines) ==> IsBlank(lines[i])
  {
    AfterTextFrom(lines, ConflictsIndex(lines));
  }

  /** When only blank lines precede it, the line goes after the first line. */
  lemma InsertAfterFirstLine(lines: seq<string>)
    requires forall i :: 0 <= i < ConflictsIndex(lines) ==> IsBlank(lines[i])
    ensures InsertIndex(lines) == if lines == [] then 0 else 1
  {
    AfterFirstLineFrom(lines, ConflictsIndex(lines));
  }

  /** The message is the new one with exactly the inserted text taken out, at a line
      boundary (offset `q`). */
  lemma {:induction false} UpdatedInserts(msg: string)
    requires !Contains(msg, ASSISTED_BY_LINE)
    ensures var lines := SplitInclusive(msg); var k := InsertIndex(lines);
      var q := |Concat(lines[..k])|; var t := TrailerText(HasTrailer(lines, k));
      q <= |msg| && Updated(msg) == msg[..q] + t + msg[q..]
  {
    var lines := SplitInclusive(msg);
    var k := InsertIndex(lines);
    var t := TrailerText(HasTrailer(lines, k));
    SplitInclusiveShape(msg);
    assert lines == lines[..k] + lines[k..];
    ConcatAppend(lines[..k], lines[k..]);
    ConcatAppend(lines[..k] + [t], lines[k..]);
    ConcatSnoc(lines[..k], t);
    var q := |Concat(lines[..k])|;
    assert msg[..q] == Concat(lines[..k]);
    assert msg[q..] == Concat(lines[k..]);
  }

  lemma OccursInMiddle(m1: string, pre: string, pat: string, m2: string)
    ensures OccursAt(m1 + (pre + pat + "\n") + m2, pat, |m1 + pre|)
  {
    var x, y := m1 + pre, "\n" + m2;
    assert m1 + (pre + pat + "\n") + m2 == x + pat + y;
    assert (x + pat + y)[|x|..|x| + |pat|] == pat;
  }

  /** After the update the message carries the Assisted-by line. */
  lemma UpdatedCarriesLine(msg: string)
    ensures Contains(Updated(msg), ASSISTED_BY_LINE)
  {
    if !Contains(msg, ASSISTED_BY_LINE) {
      UpdatedInserts(msg);
      var lines := SplitInclusive(msg);
      var k := InsertIndex(lines);
      var q := |Concat(lines[..k])|;
      var pre := if HasTrailer(lines, k) then "" else "\n";
      OccursInMiddle(msg[..q], pre, ASSISTED_BY_LINE, msg[q..]);
    }
  }

  /** Running the update twice adds nothing the first run did not. */
  lemma UpdatedIdempotent(msg: string)
    ensures Updated(Updated(msg)) == Updated(msg)
  {
    UpdatedCarriesLine(msg);
  }

  /** A message that already carries the line is left as it is. */
  lemma TaggedUnchanged(msg: string)
    requires Contains(msg, ASSISTED_BY_LINE)
    ensures Updated(msg) == msg && UpdateAsWritten(msg) == Some(msg)
  {
  }

  /** The empty separator line is written exactly when no trailer comes before the insertion. */
  lemma SeparatorIffNoTrailer(msg: string)
    ensures var lines := SplitInclusive(msg); var k := InsertIndex(lines);
      TrailerText(HasTrailer(lines, k)) == "\n" + ASSISTED_BY_LINE + "\n"
      <==> forall i :: 0 <= i < k ==> !IsTrailer(lines[i])
  {
    var lines := SplitInclusive(msg);
    var k := InsertIndex(lines);
    if HasTrailer(lines, k) {
      assert |TrailerText(true)| != |"\n" + ASSISTED_BY_LINE + "\n"|;
    }
  }

  /** The forward scan for the first `# Conflicts:` line. */
  method FindConflictsHeader(lines: seq<string>) returns (insertPos: nat)
    ensures insertPos == ConflictsIndex(lines)
  {
    insertPos := |lines|;
    var i := 0;
    while i < |lines|
      invariant 0 <= i <= |lines| && insertPos == |lines|
      invariant forall j :: 0 <= j < i ==> !IsConflictsHeader(lines[j])
    {
      if IsConflictsHeader(lines[i]) {
        insertPos := i;
        break;
      }
      i := i + 1;
    }
    ConflictsIndexFirst(lines);
  }

  /** The backwards walk from `n` over blank lines. */
  method SkipBlankLines(lines: seq<string>, n: nat) returns (insertPos: nat)
    requires n <= |lines|
    ensures insertPos == LastNonBlank(lines, n)
  {
    insertPos := n;
    while insertPos > 0
      invariant insertPos <= n
      invariant LastNonBlank(lines, n) == if insertPos > 0 then LastNonBlank(lines, insertPos) else 0
    {
      insertPos := insertPos - 1;
      if !IsBlank(lines[insertPos]) {
        break;
      }
    }
  }

  /** The backwards scan for a trailer among `lines[..k]`. */
  method FindTrailer(lines: seq<string>, k: nat) returns (found: bool)
    requires k <= |lines|
    ensures found == HasTrailer(lines, k)
  {
    found := false;
    var j := k;
    while j > 0
      invariant 0 <= j <= k && !found
      invariant forall m :: j <= m < k ==> !IsTrailer(lines[m])
    {
      j := j - 1;
      if IsTrailer(lines[j]) {
        found := true;
        break;
      }
    }
  }

  /**
   * The update as the source performs it: the header scan, the walk back
   * over blank lines, the trailer scan, then `lines.insert` and `join("")`.
   * Unlike the source, the insertion index is kept within the message, so an
   * empty message gets the line instead of a panic.
   */
  method UpdateMergeMessage(content: string) returns (updated: string)
    ensures updated == Updated(content)
  {
    if Contains(content, ASSISTED_BY_LINE) {
      return content;
    }
    var lines := SplitInclusive(content);
    var insertPos := FindConflictsHeader(lines);
    insertPos := SkipBlankLines(lines, insertPos);
    var k := insertPos + 1;
    if k > |lines| {
      k := |lines|;
    }
    var trailerSeen := FindTrailer(lines, k);
    var prefixNewline := if trailerSeen then "" else "\n";
    var assistedLine := prefixNewline + ASSISTED_BY_LINE + "\n";
    assert k == InsertIndex(lines) && assistedLine == TrailerText(trailerSeen);
    lines := lines[..k] + [assistedLine] + lines[k..];
    updated := Concat(lines);
  }
}
