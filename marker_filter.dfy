/**
 * `remove_conflict_markers`: keeps one side of every conflict region of a file
 * (the local, base or remote section), drops every marker line, and rejects the
 * result when a line of it still looks like a marker of the default size.
 *
 * The closure of the source keeps two flags, `skip_lines` (inside a region) and
 * `in_region` (inside the wanted section). `Next` is one step of that closure,
 * `Filtered` the lines it lets through.
 */
module MarkerFilter {
  import opened Wrappers
  import opened Text
  import opened Markers

  /** `ConflictMarkerMode` */
  datatype Mode = Local | Base | Remote

  datatype FilterError = NestedMarkers

  /** The two flags of the filter closure. */
  datatype FilterState = FilterState(skip: bool, inRegion: bool)

  const START: FilterState := FilterState(false, false)

  /** The line starts with none of the five markers of size `w` (spaces are not required here). */
  predicate MarkerFree(l: string, w: nat)
  {
    !RunOf(l, '<', w) && !RunOf(l, '|', w) && !RunOf(l, '=', w) && !RunOf(l, '&', w) && !RunOf(l, '>', w)
  }

  /** The flags after the closure has looked at `l`; the marker tests are tried in the source's order. */
  function Next(st: FilterState, l: string, w: nat, mode: Mode): FilterState
  {
    if RunOf(l, '<', w) then FilterState(true, mode == Local)
    else if RunOf(l, '|', w) then FilterState(st.skip, mode == Base)
    else if RunOf(l, '=', w) then FilterState(st.skip, mode == Remote)
    else if RunOf(l, '&', w) then FilterState(st.skip, false)
    else if RunOf(l, '>', w) then FilterState(false, false)
    else st
  }

  /** The closure's verdict on `l`: marker lines never pass, other lines pass outside regions or in the wanted section. */
  predicate Keeps(st: FilterState, l: string, w: nat)
  {
    MarkerFree(l, w) && Passing(st)
  }

  /** Ordinary lines pass: outside every region, or inside the section the mode asks for. */
  predicate Passing(st: FilterState) { !st.skip || st.inRegion }

  /** The flags after the closure has seen all of `ls`, starting from `st`. */
  function FinalState(ls: seq<string>, w: nat, mode: Mode, st: FilterState): FilterState
  {
    if ls == [] then st
    else Next(FinalState(ls[..|ls| - 1], w, mode, st), ls[|ls| - 1], w, mode)
  }

  /** The lines of `ls` the closure lets through, starting from `st`. */
  function Filtered(ls: seq<string>, w: nat, mode: Mode, st: FilterState): seq<string>
  {
    if ls == [] then []
    else
      Filtered(ls[..|ls| - 1], w, mode, st) +
      (if Keeps(FinalState(ls[..|ls| - 1], w, mode, st), ls[|ls| - 1], w) then [ls[|ls| - 1]] else [])
  }

  predicate IsMarkerChar(c: char) { c == '<' || c == '>' || c == '=' || c == '|' || c == '&' }

  /** The nested-marker pattern `^(<|>|=|\||\&){7,}`: the first seven characters are marker characters, in any mix. */
  predicate NestedMarkerLine(l: string)
  {
    DEFAULT_MARKER_SIZE <= |l| && forall i :: 0 <= i < DEFAULT_MARKER_SIZE ==> IsMarkerChar(l[i])
  }

  predicate HasNestedMarkers(ls: seq<string>)
  {
    exists k :: 0 <= k < |ls| && NestedMarkerLine(ls[k])
  }

  /** What `remove_conflict_markers` returns. */
  function RemoveMarkers(ls: seq<string>, w: nat, mode: Mode): Result<seq<string>, FilterError>
  {
    var kept := Filtered(ls, w, mode, START);
    if HasNestedMarkers(kept) then Failure(NestedMarkers) else Success(kept)
  }

  /** `remove_conflict_markers(content_lines, marker_size, mode)` */
  method RemoveConflictMarkers(contentLines: seq<string>, markerSize: nat, mode: Mode)
    returns (r: Result<seq<string>, FilterError>)
    ensures r == RemoveMarkers(contentLines, markerSize, mode)
  {
    var skipLines := false;
    var inRegion := false;
    var result: seq<string> := [];
    var i := 0;
    while i < |contentLines|
      invariant i <= |contentLines|
      invariant FilterState(skipLines, inRegion) == FinalState(contentLines[..i], markerSize, mode, START)
      invariant result == Filtered(contentLines[..i], markerSize, mode, START)
    {
      assert contentLines[..i + 1][..i] == contentLines[..i];
      var line := contentLines[i];
      var keep: bool;
      if RunOf(line, '<', markerSize) {
        inRegion := mode == Local;
        skipLines := true;
        keep := false;
      } else if RunOf(line, '|', markerSize) {
        inRegion := mode == Base;
        keep := false;
      } else if RunOf(line, '=', markerSize) {
        inRegion := mode == Remote;
        keep := false;
      } else if RunOf(line, '&', markerSize) {
        inRegion := false;
        keep := false;
      } else if RunOf(line, '>', markerSize) {
        skipLines := false;
        inRegion := false;
        keep := false;
      } else {
        keep := !skipLines || inRegion;
      }
      if keep {
        result := result + [line];
      }
      i := i + 1;
    }
    assert contentLines[..i] == contentLines;

    var nested := false;
    var j := 0;
    while j < |result| && !nested
      invariant j <= |result|
      invariant nested <==> exists k :: 0 <= k < j && NestedMarkerLine(result[k])
    {
      nested := NestedMarkerLine(result[j]);
      j := j + 1;
    }
    if nested {
      r := Failure(NestedMarkers);
    } else {
      r := Success(result);
    }
  }

  // ---------------------------------------------------------------------------
  // Properties

  /** Running the filter over `a + b` is running it over `a`, then over `b` from where `a` left the flags. */
  lemma {:induction false} FilterAppend(a: seq<string>, b: seq<string>, w: nat, mode: Mode, st: FilterState)
    ensures FinalState(a + b, w, mode, st) == FinalState(b, w, mode, FinalState(a, w, mode, st))
    ensures Filtered(a + b, w, mode, st) == Filtered(a, w, mode, st) + Filtered(b, w, mode, FinalState(a, w, mode, st))
    decreases |b|
  {
    if b == [] {
      assert a + b == a;
    } else {
      var b' := b[..|b| - 1];
      assert (a + b)[..|a + b| - 1] == a + b';
      assert (a + b)[|a + b| - 1] == b[|b| - 1];
      FilterAppend(a, b', w, mode, st);
    }
  }

  /** Every line that passes is marker-free and is a line of the input. */
  lemma {:induction false} FilteredLines(ls: seq<string>, w: nat, mode: Mode, st: FilterState)
    ensures |Filtered(ls, w, mode, st)| <= |ls|
    ensures forall k :: 0 <= k < |Filtered(ls, w, mode, st)| ==>
              MarkerFree(Filtered(ls, w, mode, st)[k], w) && Filtered(ls, w, mode, st)[k] in ls
  {
    if ls != [] {
      FilteredLines(ls[..|ls| - 1], w, mode, st);
      var f := Filtered(ls[..|ls| - 1], w, mode, st);
      forall k | 0 <= k < |f| ensures f[k] in ls {
        assert f[k] in ls[..|ls| - 1];
      }
    }
  }

  /** A run of marker-free lines leaves the flags alone, and passes whole or not at all. */
  lemma {:induction false} MarkerFreeRun(ls: seq<string>, w: nat, mode: Mode, st: FilterState)
    requires forall k :: 0 <= k < |ls| ==> MarkerFree(ls[k], w)
    ensures FinalState(ls, w, mode, st) == st
    ensures Filtered(ls, w, mode, st) == if Passing(st) then ls else []
  {
    if ls != [] {
      var p := ls[..|ls| - 1];
      MarkerFreeRun(p, w, mode, st);
      assert MarkerFree(ls[|ls| - 1], w);
      if Passing(st) {
        assert p + [ls[|ls| - 1]] == ls;
      }
    }
  }

  /** A file with no marker line comes back unchanged (and is accepted unless a line looks like a default-size marker). */
  lemma MarkerFreeIdentity(ls: seq<string>, w: nat, mode: Mode)
    requires forall k :: 0 <= k < |ls| ==> MarkerFree(ls[k], w)
    ensures RemoveMarkers(ls, w, mode) == if HasNestedMarkers(ls) then Failure(NestedMarkers) else Success(ls)
  {
    MarkerFreeRun(ls, w, mode, START);
  }

  /** The section a mode selects from a region. */
  function Section(mode: Mode, local: seq<string>, base: seq<string>, remote: seq<string>): seq<string>
  {
    match mode
    case Local => local
    case Base => base
    case Remote => remote
  }

  /** The filter on a single line. */
  lemma FilterOne(m: string, w: nat, mode: Mode, st: FilterState)
    ensures FinalState([m], w, mode, st) == Next(st, m, w, mode)
    ensures Filtered([m], w, mode, st) == if Keeps(st, m, w) then [m] else []
  {
    assert [m][..0] == [];
  }

  /** Walking one marker line and the marker-free section after it, once `done` has been walked. */
  lemma MarkerThenRun(done: seq<string>, m: string, sec: seq<string>, w: nat, mode: Mode,
                      st: FilterState, out: seq<string>)
    requires FinalState(done, w, mode, START) == st && Filtered(done, w, mode, START) == out
    requires forall k :: 0 <= k < |sec| ==> MarkerFree(sec[k], w)
    requires !MarkerFree(m, w)
    ensures FinalState(done + ([m] + sec), w, mode, START) == Next(st, m, w, mode)
    ensures Filtered(done + ([m] + sec), w, mode, START) == out + if Passing(Next(st, m, w, mode)) then sec else []
  {
    var st' := Next(st, m, w, mode);
    FilterOne(m, w, mode, st);
    MarkerFreeRun(sec, w, mode, st');
    FilterAppend([m], sec, w, mode, st);
    assert Filtered([m] + sec, w, mode, st) == if Passing(st') then sec else [];
    FilterAppend(done, [m] + sec, w, mode, START);
  }

  /** The local and base sections of a region: only the one the mode asks for passes. */
  lemma WalkToSeparator(pre: seq<string>, lo: string, local: seq<string>, ba: string, base: seq<string>, w: nat, mode: Mode)
    requires 0 < w && RunOf(lo, '<', w) && RunOf(ba, '|', w)
    requires forall k :: 0 <= k < |pre| ==> MarkerFree(pre[k], w)
    requires forall k :: 0 <= k < |local| ==> MarkerFree(local[k], w)
    requires forall k :: 0 <= k < |base| ==> MarkerFree(base[k], w)
    ensures FinalState(pre + ([lo] + local) + ([ba] + base), w, mode, START) == FilterState(true, mode == Base)
    ensures Filtered(pre + ([lo] + local) + ([ba] + base), w, mode, START) ==
              match mode case Local => pre + local case Base => pre + base case Remote => pre
  {
    assert ba[0] == '|';
    var p1 := pre + ([lo] + local);
    MarkerFreeRun(pre, w, mode, START);
    var o1 := if mode == Local then pre + local else pre;
    MarkerThenRun(pre, lo, local, w, mode, START, pre);
    MarkerThenRun(p1, ba, base, w, mode, FilterState(true, mode == Local), o1);
  }

  /** The three sections of a region: only the one the mode asks for passes. */
  lemma WalkToEnd(pre: seq<string>, lo: string, local: seq<string>, ba: string, base: seq<string>,
                  se: string, remote: seq<string>, w: nat, mode: Mode)
    requires 0 < w && RunOf(lo, '<', w) && RunOf(ba, '|', w) && RunOf(se, '=', w)
    requires forall k :: 0 <= k < |pre| ==> MarkerFree(pre[k], w)
    requires forall k :: 0 <= k < |local| ==> MarkerFree(local[k], w)
    requires forall k :: 0 <= k < |base| ==> MarkerFree(base[k], w)
    requires forall k :: 0 <= k < |remote| ==> MarkerFree(remote[k], w)
    ensures FinalState(pre + ([lo] + local) + ([ba] + base) + ([se] + remote), w, mode, START) == FilterState(true, mode == Remote)
    ensures Filtered(pre + ([lo] + local) + ([ba] + base) + ([se] + remote), w, mode, START) ==
              pre + Section(mode, local, base, remote)
  {
    assert se[0] == '=';
    var p2 := pre + ([lo] + local) + ([ba] + base);
    WalkToSeparator(pre, lo, local, ba, base, w, mode);
    var o2 := Filtered(p2, w, mode, START);
    assert Next(FilterState(true, mode == Base), se, w, mode) == FilterState(true, mode == Remote);
    MarkerThenRun(p2, se, remote, w, mode, FilterState(true, mode == Base), o2);
    match mode {
      case Local => assert o2 == pre + local;
      case Base => assert o2 == pre + base;
      case Remote => assert o2 == pre;
    }
  }

  /**
   * A region `<<<<<<< … ||||||| … ======= … >>>>>>>` between two marker-free parts
   * is replaced by the section the mode asks for; the rest of the file passes.
   */
  lemma SelectsSection(pre: seq<string>, lo: string, local: seq<string>, ba: string, base: seq<string>,
                       se: string, remote: seq<string>, en: string, post: seq<string>, w: nat, mode: Mode)
    requires 0 < w
    requires RunOf(lo, '<', w) && RunOf(ba, '|', w) && RunOf(se, '=', w) && RunOf(en, '>', w)
    requires forall k :: 0 <= k < |pre| ==> MarkerFree(pre[k], w)
    requires forall k :: 0 <= k < |local| ==> MarkerFree(local[k], w)
    requires forall k :: 0 <= k < |base| ==> MarkerFree(base[k], w)
    requires forall k :: 0 <= k < |remote| ==> MarkerFree(remote[k], w)
    requires forall k :: 0 <= k < |post| ==> MarkerFree(post[k], w)
    ensures Filtered(pre + ([lo] + local) + ([ba] + base) + ([se] + remote) + ([en] + post), w, mode, START) ==
            pre + Section(mode, local, base, remote) + post
  {
    assert en[0] == '>';
    var p3 := pre + ([lo] + local) + ([ba] + base) + ([se] + remote);
    WalkToEnd(pre, lo, local, ba, base, se, remote, w, mode);
    assert Next(FilterState(true, mode == Remote), en, w, mode) == START;
    MarkerThenRun(p3, en, post, w, mode, FilterState(true, mode == Remote), pre + Section(mode, local, base, remote));
  }

  /**
   * A default-size separator passes a filter run with marker size 8, and the nested-marker
   * check then rejects the result.
   */
  lemma NestedRejected()
    ensures RemoveMarkers(["x\n", "=======\n"], 8, Local) == Failure(NestedMarkers)
  {
    var ls := ["x\n", "=======\n"];
    assert |ls[0]| < 8 && ls[1][7] == '\n';
    MarkerFreeIdentity(ls, 8, Local);
    assert NestedMarkerLine(ls[1]);
  }
}
