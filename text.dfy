/**
 * The string operations of Rust's and Python's standard libraries that the
 * conflict engine relies on: `split_inclusive('\n')`, `lines()`, `join`,
 * `starts_with`, `find`, `rfind`, `trim` and `str.split("\n")`.
 * Strings are sequences of Unicode scalar values.
 */
module Text {
  import opened Wrappers

  /** `"".join(ls)` / `ls.concat()` */
  function Concat(ls: seq<string>): string
  {
    if ls == [] then "" else ls[0] + Concat(ls[1..])
  }

  lemma {:induction false} ConcatAppend(a: seq<string>, b: seq<string>)
    ensures Concat(a + b) == Concat(a) + Concat(b)
  {
    if a != [] {
      assert (a + b)[1..] == a[1..] + b;
      ConcatAppend(a[1..], b);
    } else {
      assert a + b == b;
    }
  }

  lemma ConcatSnoc(a: seq<string>, x: string)
    ensures Concat(a + [x]) == Concat(a) + x
  {
    ConcatAppend(a, [x]);
    assert Concat([x]) == x + Concat([]);
  }

  /** `ls.join(sep)` */
  function Join(ls: seq<string>, sep: string): string
  {
    if ls == [] then "" else if |ls| == 1 then ls[0] else ls[0] + sep + Join(ls[1..], sep)
  }

  /** `s.starts_with(p)` */
  predicate StartsWith(s: string, p: string)
  {
    |p| <= |s| && s[..|p|] == p
  }

  predicate EndsWith(s: string, p: string)
  {
    |p| <= |s| && s[|s| - |p|..] == p
  }

  /** `c.to_string().repeat(n)` */
  function Repeat(c: char, n: nat): (r: string)
    ensures |r| == n && forall i :: 0 <= i < n ==> r[i] == c
  {
    seq(n, _ => c)
  }

  /** Index of the first occurrence of `c` in `s`, `|s|` if there is none. */
  function IndexOf(s: string, c: char): (k: nat)
    ensures k <= |s|
    ensures k < |s| ==> s[k] == c
    ensures c !in s[..k]
  {
    if s == [] then 0 else if s[0] == c then 0 else 1 + IndexOf(s[1..], c)
  }

  /** `s.find(c)` for one character. */
  function FindChar(s: string, c: char): (r: Option<nat>)
    ensures r.None? <==> c !in s
    ensures r.Some? ==> r.value < |s| && s[r.value] == c && c !in s[..r.value]
  {
    var k := IndexOf(s, c);
    if k == |s| then (assert s[..k] == s; None) else Some(k)
  }

  /** `s.rfind(c)` for one character. */
  function RFindChar(s: string, c: char): (r: Option<nat>)
    ensures r.None? <==> c !in s
    ensures r.Some? ==> r.value < |s| && s[r.value] == c && c !in s[r.value + 1..]
  {
    if s == [] then None
    else if s[|s| - 1] == c then Some(|s| - 1)
    else
      var r := RFindChar(s[..|s| - 1], c);
      assert forall i :: 0 <= i < |s| - 1 ==> s[..|s| - 1][i] == s[i];
      r
  }

  /** The last occurrence of `c` is the one with no `c` after it. */
  lemma RFindCharAt(s: string, c: char, k: nat)
    requires k < |s| && s[k] == c && c !in s[k + 1..]
    ensures RFindChar(s, c) == Some(k)
  {
    assert s[k] in s;
  }

  /** Whether `pat` occurs in `s` at offset `i`. */
  predicate OccursAt(s: string, pat: string, i: nat)
  {
    i + |pat| <= |s| && s[i..i + |pat|] == pat
  }

  /** `s[from..].find(pat)`, as an offset into `s`. */
  function FindFrom(s: string, pat: string, from: nat): (r: Option<nat>)
    requires from <= |s|
    ensures r.Some? ==> from <= r.value && OccursAt(s, pat, r.value)
    ensures r.Some? ==> forall j :: from <= j < r.value ==> !OccursAt(s, pat, j)
    ensures r.None? ==> forall j :: from <= j <= |s| ==> !OccursAt(s, pat, j)
    decreases |s| - from
  {
    if OccursAt(s, pat, from) then Some(from)
    else if from == |s| then None
    else FindFrom(s, pat, from + 1)
  }

  /** `s.find(pat)`: the first offset where `pat` occurs. */
  function Find(s: string, pat: string): (r: Option<nat>)
    ensures r.Some? ==> OccursAt(s, pat, r.value)
    ensures r.Some? ==> forall j :: 0 <= j < r.value ==> !OccursAt(s, pat, j)
    ensures r.None? ==> forall j :: 0 <= j <= |s| ==> !OccursAt(s, pat, j)
  {
    FindFrom(s, pat, 0)
  }

  /** `s.contains(pat)` */
  predicate Contains(s: string, pat: string)
  {
    Find(s, pat).Some?
  }

  /** Rust's `char::is_whitespace` (the Unicode White_Space property). */
  predicate RustWhitespace(c: char)
  {
    ('\t' <= c <= '\r') || c == ' ' || c == '\U{85}' || c == '\U{A0}' || c == '\U{1680}'
    || ('\U{2000}' <= c <= '\U{200A}') || c == '\U{2028}' || c == '\U{2029}' || c == '\U{202F}'
    || c == '\U{205F}' || c == '\U{3000}'
  }

  /** Python's `str.isspace` on one character: Rust's set plus the separators U+001C..U+001F. */
  predicate PythonWhitespace(c: char)
  {
    RustWhitespace(c) || ('\U{1C}' <= c <= '\U{1F}')
  }

  function TrimStart(s: string, ws: char -> bool): (r: string)
    ensures |r| <= |s| && r == s[|s| - |r|..]
    ensures r != [] ==> !ws(r[0])
  {
    if s != [] && ws(s[0]) then TrimStart(s[1..], ws) else s
  }

  function TrimEnd(s: string, ws: char -> bool): (r: string)
    ensures |r| <= |s| && r == s[..|r|]
    ensures r != [] ==> !ws(r[|r| - 1])
  {
    if s != [] && ws(s[|s| - 1]) then TrimEnd(s[..|s| - 1], ws) else s
  }

  /** `s.trim()` in Rust (`ws` = RustWhitespace) or `s.strip()` in Python (`ws` = PythonWhitespace). */
  function Trim(s: string, ws: char -> bool): string
  {
    TrimEnd(TrimStart(s, ws), ws)
  }

  /** Trimming leaves alone a string that neither starts nor ends with whitespace. */
  lemma TrimUntouched(s: string, ws: char -> bool)
    requires s != [] && !ws(s[0]) && !ws(s[|s| - 1])
    ensures Trim(s, ws) == s
  {
    assert TrimStart(s, ws) == s;
  }

  /** `(p + " ").trim()` is `p` when `p` neither starts nor ends with whitespace. */
  lemma TrimTrailingSpace(p: string)
    requires p != [] && !RustWhitespace(p[0]) && !RustWhitespace(p[|p| - 1])
    ensures Trim(p + " ", RustWhitespace) == p
  {
    var t := p + " ";
    assert TrimStart(t, RustWhitespace) == t;
    assert t[..|t| - 1] == p;
    assert TrimEnd(p, RustWhitespace) == p;
  }

  /** Whether every character of `s` is whitespace, i.e. `s.trim().is_empty()`. */
  lemma {:induction false} TrimEmptyIffBlank(s: string, ws: char -> bool)
    ensures Trim(s, ws) == "" <==> forall i :: 0 <= i < |s| ==> ws(s[i])
  {
    if s != [] && ws(s[0]) {
      TrimEmptyIffBlank(s[1..], ws);
      assert forall i :: 1 <= i < |s| ==> s[i] == s[1..][i - 1];
    } else if s != [] {
      var t := TrimStart(s, ws);
      assert t == s;
      assert TrimEnd(t, ws) != "" by {
        if TrimEnd(t, ws) == "" { TrimEndEmpty(t, ws); }
      }
    }
  }

  lemma {:induction false} TrimEndEmpty(s: string, ws: char -> bool)
    requires TrimEnd(s, ws) == ""
    ensures forall i :: 0 <= i < |s| ==> ws(s[i])
  {
    if s != [] {
      TrimEndEmpty(s[..|s| - 1], ws);
      assert forall i :: 0 <= i < |s| - 1 ==> s[i] == s[..|s| - 1][i];
    }
  }

  /** Index of the first non-whitespace character of `s` `|s|` if none. */
  function TextStart(s: string, ws: char -> bool): (k: nat)
    ensures k <= |s|
    ensures forall i :: 0 <= i < k ==> ws(s[i])
    ensures k < |s| ==> !ws(s[k])
  {
    if s == [] || !ws(s[0]) then 0 else 1 + TextStart(s[1..], ws)
  }

  /** One past the last non-whitespace character of `s`, `0` if none. */
  function TextEnd(s: string, ws: char -> bool): (k: nat)
    ensures k <= |s|
    ensures forall i :: k <= i < |s| ==> ws(s[i])
    ensures 0 < k ==> !ws(s[k - 1])
  {
    if s == [] || !ws(s[|s| - 1]) then |s| else TextEnd(s[..|s| - 1], ws)
  }

  lemma {:induction false} TrimStartSlice(s: string, ws: char -> bool)
    ensures TrimStart(s, ws) == s[TextStart(s, ws)..]
  {
    if s != [] && ws(s[0]) {
      TrimStartSlice(s[1..], ws);
      assert s[1..][TextStart(s[1..], ws)..] == s[1 + TextStart(s[1..], ws)..];
    }
  }

  lemma {:induction false} TrimEndSlice(s: string, ws: char -> bool)
    ensures TrimEnd(s, ws) == s[..TextEnd(s, ws)]
  {
    if s != [] && ws(s[|s| - 1]) {
      TrimEndSlice(s[..|s| - 1], ws);
      assert s[..|s| - 1][..TextEnd(s[..|s| - 1], ws)] == s[..TextEnd(s[..|s| - 1], ws)];
    }
  }

  /** `TextEnd` is the only index with its two properties. */
  lemma TextEndUnique(x: string, k: nat, ws: char -> bool)
    requires k <= |x| && forall i :: k <= i < |x| ==> ws(x[i])
    requires k == 0 || !ws(x[k - 1])
    ensures TextEnd(x, ws) == k
  {
  }

  /** Dropping `a` characters before the end of the text moves that end by `a`. */
  lemma TextEndShift(s: string, a: nat, ws: char -> bool)
    requires a < TextEnd(s, ws)
    ensures TextEnd(s[a..], ws) == TextEnd(s, ws) - a
  {
    var e := TextEnd(s, ws);
    var t := s[a..];
    forall i | e - a <= i < |t| ensures ws(t[i]) {
      assert t[i] == s[a + i];
    }
    assert t[e - a - 1] == s[e - 1];
    TextEndUnique(t, e - a, ws);
  }

  /** The text starts before it ends, unless the string is all whitespace. */
  lemma TextStartBeforeEnd(s: string, ws: char -> bool)
    requires TextStart(s, ws) < |s|
    ensures TextStart(s, ws) < TextEnd(s, ws)
  {
    var a := TextStart(s, ws);
    assert !ws(s[a]);
  }

  lemma SliceOfSuffix(s: string, a: nat, e: nat)
    requires a <= e <= |s|
    ensures s[a..][..e - a] == s[a..e]
  {
  }

  /** Trimming the end of a suffix that has text up to `e` keeps the slice up to `e`. */
  lemma TrimEndOfSuffix(s: string, a: nat, e: nat, ws: char -> bool)
    requires a < e <= |s| && TextEnd(s[a..], ws) == e - a
    ensures TrimEnd(s[a..], ws) == s[a..e]
  {
    TrimEndSlice(s[a..], ws);
    SliceOfSuffix(s, a, e);
  }

  /** Trimming a string with some text keeps the slice from its first to its last non-whitespace character. */
  lemma TrimNonBlank(s: string, ws: char -> bool)
    requires TextStart(s, ws) < |s|
    ensures TextStart(s, ws) < TextEnd(s, ws)
    ensures Trim(s, ws) == s[TextStart(s, ws)..TextEnd(s, ws)]
  {
    var a, e := TextStart(s, ws), TextEnd(s, ws);
    TextStartBeforeEnd(s, ws);
    TextEndShift(s, a, ws);
    TrimEndOfSuffix(s, a, e, ws);
    TrimStartSlice(s, ws);
  }

  /** Trimming a string of whitespace leaves nothing. */
  lemma TrimBlank(s: string, ws: char -> bool)
    requires TextStart(s, ws) == |s|
    ensures Trim(s, ws) == ""
  {
    TrimStartSlice(s, ws);
    assert s[|s|..] == [];
  }

  /** Trimming keeps exactly the characters from the first to the last non-whitespace one. */
  lemma TrimAsSlice(s: string, ws: char -> bool)
    ensures TextStart(s, ws) < TextEnd(s, ws) ==> Trim(s, ws) == s[TextStart(s, ws)..TextEnd(s, ws)]
    ensures TextEnd(s, ws) <= TextStart(s, ws) ==> Trim(s, ws) == ""
  {
    if TextStart(s, ws) < |s| {
      TrimNonBlank(s, ws);
    } else {
      TrimBlank(s, ws);
    }
  }

  // ---------------------------------------------------------------------------
  // split_inclusive('\n')

  /** `s.split_inclusive('\n')`: each piece ends just after a newline; a final
      piece without newline is kept when it is non-empty; `""` gives no piece. */
  function SplitInclusive(s: string): seq<string>
    decreases |s|
  {
    if s == [] then []
    else
      var k := IndexOf(s, '\n');
      if k == |s| then [s] else [s[..k + 1]] + SplitInclusive(s[k + 1..])
  }

  /** One piece of a split: non-empty, and no newline except as its last character. */
  predicate IsLine(l: string)
  {
    |l| > 0 && '\n' !in l[..|l| - 1]
  }

  predicate EndsInNewline(l: string)
  {
    |l| > 0 && l[|l| - 1] == '\n'
  }

  /** The shape of a `split_inclusive('\n')` result: lines, all but the last newline-terminated. */
  predicate IsLineSeq(ls: seq<string>)
  {
    (forall i :: 0 <= i < |ls| ==> IsLine(ls[i]))
    && (forall i :: 0 <= i < |ls| - 1 ==> EndsInNewline(ls[i]))
  }

  /** A newline-terminated line in front of a line sequence gives a line sequence. */
  lemma IsLineSeqCons(l: string, rest: seq<string>)
    requires IsLine(l) && EndsInNewline(l) && IsLineSeq(rest)
    ensures IsLineSeq([l] + rest)
  {
    forall i | 0 < i < |rest| + 1 ensures ([l] + rest)[i] == rest[i - 1] {
    }
  }

  /** The text up to and including its first newline is one newline-terminated line. */
  lemma FirstLineShape(s: string, k: nat)
    requires k < |s| && s[k] == '\n' && '\n' !in s[..k]
    ensures IsLine(s[..k + 1]) && EndsInNewline(s[..k + 1])
  {
    assert s[..k + 1][..k] == s[..k];
  }

  /** A split whose first piece ends at the first newline. */
  lemma SplitFirstLine(s: string)
    requires IndexOf(s, '\n') < |s|
    ensures var k := IndexOf(s, '\n');
            && IsLine(s[..k + 1]) && EndsInNewline(s[..k + 1])
            && SplitInclusive(s) == [s[..k + 1]] + SplitInclusive(s[k + 1..])
            && s == s[..k + 1] + s[k + 1..]
  {
    var k := IndexOf(s, '\n');
    FirstLineShape(s, k);
    TakeDrop(s, k + 1);
  }

  lemma TakeDrop<T>(s: seq<T>, k: nat)
    requires k <= |s|
    ensures s == s[..k] + s[k..]
  {
  }

  /** A split of a text without a newline is that text alone. */
  lemma SplitNoNewline(s: string)
    requires s != [] && IndexOf(s, '\n') == |s|
    ensures SplitInclusive(s) == [s] && IsLine(s) && Concat([s]) == s
  {
    assert s[..|s| - 1] == s[..|s|][..|s| - 1];
    assert Concat([s]) == s + Concat([]);
  }

  lemma {:induction false} SplitInclusiveShape(s: string)
    ensures IsLineSeq(SplitInclusive(s))
    ensures Concat(SplitInclusive(s)) == s
    decreases |s|
  {
    if s != [] {
      var k := IndexOf(s, '\n');
      if k == |s| {
        SplitNoNewline(s);
      } else {
        SplitFirstLine(s);
        var l, rest := s[..k + 1], SplitInclusive(s[k + 1..]);
        SplitInclusiveShape(s[k + 1..]);
        IsLineSeqCons(l, rest);
        assert ([l] + rest)[1..] == rest;
      }
    }
  }

  /** Round trip: splitting the concatenation of a line sequence gives it back. */
  lemma {:induction false} SplitConcat(ls: seq<string>)
    requires IsLineSeq(ls)
    ensures SplitInclusive(Concat(ls)) == ls
  {
    if ls != [] {
      var l := ls[0];
      var rest := ls[1..];
      assert IsLineSeq(rest) by {
        forall i | 0 <= i < |rest| ensures IsLine(rest[i]) { assert rest[i] == ls[i + 1]; }
        forall i | 0 <= i < |rest| - 1 ensures EndsInNewline(rest[i]) { assert rest[i] == ls[i + 1]; }
      }
      SplitConcat(rest);
      var s := Concat(ls);
      assert s == l + Concat(rest);
      if |ls| == 1 {
        assert rest == [];
        assert s == l;
        if EndsInNewline(l) {
          IndexOfLine(l, "");
          assert l + "" == l;
          assert s[..|l|] == l;
        } else {
          IndexOfNoNewline(l);
        }
      } else {
        IndexOfLine(l, Concat(rest));
        assert s[..|l|] == l;
        assert s[|l|..] == Concat(rest);
      }
    }
  }

  lemma IndexOfLine(l: string, t: string)
    requires IsLine(l) && EndsInNewline(l)
    ensures IndexOf(l + t, '\n') == |l| - 1
  {
    IndexOfPrefix(l[..|l| - 1], "\n" + t);
    assert l[..|l| - 1] + ("\n" + t) == l + t;
  }

  lemma {:induction false} IndexOfPrefix(a: string, b: string)
    requires '\n' !in a && b != [] && b[0] == '\n'
    ensures IndexOf(a + b, '\n') == |a|
  {
    if a != [] {
      assert (a + b)[1..] == a[1..] + b;
      IndexOfPrefix(a[1..], b);
    } else {
      assert a + b == b;
    }
  }

  lemma {:induction false} IndexOfNoNewline(l: string)
    requires '\n' !in l
    ensures IndexOf(l, '\n') == |l|
  {
    if l != [] { IndexOfNoNewline(l[1..]); }
  }

  /** Number of occurrences of `c` in `s`. */
  function CountChar(s: string, c: char): nat
  {
    if s == [] then 0 else (if s[0] == c then 1 else 0) + CountChar(s[1..], c)
  }

  lemma {:induction false} CountCharAppend(a: string, b: string, c: char)
    ensures CountChar(a + b, c) == CountChar(a, c) + CountChar(b, c)
  {
    if a != [] {
      assert (a + b)[1..] == a[1..] + b;
      CountCharAppend(a[1..], b, c);
    } else {
      assert a + b == b;
    }
  }

  lemma {:induction false} CountCharAbsent(s: string, c: char)
    requires c !in s
    ensures CountChar(s, c) == 0
  {
    if s != [] { CountCharAbsent(s[1..], c); }
  }

  /** The text before line `i` of a line sequence holds exactly `i` newlines. */
  lemma {:induction false} NewlinesBefore(ls: seq<string>, i: nat)
    requires IsLineSeq(ls) && i < |ls|
    ensures CountChar(Concat(ls[..i]), '\n') == i
  {
    if i > 0 {
      NewlinesBefore(ls, i - 1);
      assert ls[..i] == ls[..i - 1] + [ls[i - 1]];
      ConcatSnoc(ls[..i - 1], ls[i - 1]);
      var l := ls[i - 1];
      assert IsLine(l) && EndsInNewline(l);
      assert l == l[..|l| - 1] + "\n";
      CountCharAppend(l[..|l| - 1], "\n", '\n');
      CountCharAbsent(l[..|l| - 1], '\n');
      CountCharAppend(Concat(ls[..i - 1]), l, '\n');
    } else {
      assert ls[..0] == [];
    }
  }

  // ---------------------------------------------------------------------------
  // lines() and str.split("\n")

  /** One item of Rust's `str::lines()`: the piece without its `"\n"` or `"\r\n"` ending. */
  function StripLineEnding(l: string): string
  {
    if EndsWith(l, "\n") then
      var t := l[..|l| - 1];
      if EndsWith(t, "\r") then t[..|t| - 1] else t
    else l
  }

  /** Rust's `str::lines()`. */
  function Lines(s: string): seq<string>
  {
    var pieces := SplitInclusive(s);
    seq(|pieces|, i requires 0 <= i < |pieces| => StripLineEnding(pieces[i]))
  }

  /** Python's `s.split("\n")`: always one more piece than there are newlines. */
  function PySplitNewline(s: string): (r: seq<string>)
    ensures |r| > 0
    decreases |s|
  {
    var k := IndexOf(s, '\n');
    if k == |s| then [s] else [s[..k]] + PySplitNewline(s[k + 1..])
  }
}
