/**
 * The marker grammar: local `<`, base `|`, separator `=`, resolution `&` and
 * end `>` markers, each the marker character repeated `size` times, and the
 * parse of `git check-attr conflict-marker-size` output that yields the size.
 */
module Markers {
  import opened Wrappers
  import opened Text

  /** `GitUtils::DEFAULT_MARKER_SIZE` */
  const DEFAULT_MARKER_SIZE: nat := 7

  /** The largest `usize` of a 64-bit target. */
  const USIZE_MAX: nat := 0xFFFF_FFFF_FFFF_FFFF

  /** `create_marker(marker_char, size)` */
  function CreateMarker(markerChar: char, size: nat): (r: string)
    ensures |r| == size
    ensures forall i :: 0 <= i < size ==> r[i] == markerChar
  {
    Repeat(markerChar, size)
  }

  function LocalMarker(size: nat): (r: string)
    ensures |r| == size && forall i :: 0 <= i < size ==> r[i] == '<'
  {
    CreateMarker('<', size)
  }

  function BaseMarker(size: nat): (r: string)
    ensures |r| == size && forall i :: 0 <= i < size ==> r[i] == '|'
  {
    CreateMarker('|', size)
  }

  function RemoteMarker(size: nat): (r: string)
    ensures |r| == size && forall i :: 0 <= i < size ==> r[i] == '='
  {
    CreateMarker('=', size)
  }

  function AiMarker(size: nat): (r: string)
    ensures |r| == size && forall i :: 0 <= i < size ==> r[i] == '&'
  {
    CreateMarker('&', size)
  }

  function EndMarker(size: nat): (r: string)
    ensures |r| == size && forall i :: 0 <= i < size ==> r[i] == '>'
  {
    CreateMarker('>', size)
  }

  // The line shapes of the region grammar. Each is stated on the characters of the line;
  // `MarkerLinesAsWritten` shows they are the `starts_with` / `==` tests of the source.

  /** The first `size` characters of `l` are all `c`: `l.starts_with(&create_marker(c, size))`. */
  predicate RunOf(l: string, c: char, size: nat)
  {
    size <= |l| && forall i :: 0 <= i < size ==> l[i] == c
  }

  /** A local-marker line: `<`*size followed by a space. */
  predicate IsLocalLine(l: string, size: nat) { RunOf(l, '<', size) && size < |l| && l[size] == ' ' }

  /** A base-marker line: `|`*size followed by a space. */
  predicate IsBaseLine(l: string, size: nat) { RunOf(l, '|', size) && size < |l| && l[size] == ' ' }

  /** The bare separator line: exactly `=`*size and a newline. */
  predicate IsSeparatorLine(l: string, size: nat) { RunOf(l, '=', size) && |l| == size + 1 && l[size] == '\n' }

  /** A resolution-marker line: `&`*size followed by a space. */
  predicate IsAiLine(l: string, size: nat) { RunOf(l, '&', size) && size < |l| && l[size] == ' ' }

  /** Any line starting with `>`*size (the region end, no space required). */
  predicate IsEndLine(l: string, size: nat) { RunOf(l, '>', size) }

  lemma RunOfStartsWith(l: string, c: char, size: nat, rest: string)
    ensures StartsWith(l, CreateMarker(c, size) + rest) <==>
              RunOf(l, c, size) && size + |rest| <= |l| && l[size..size + |rest|] == rest
  {
    var p := CreateMarker(c, size) + rest;
    if StartsWith(l, p) {
      forall i | 0 <= i < size ensures l[i] == c { assert l[i] == p[i]; }
      assert l[size..size + |rest|] == p[size..];
    }
    if RunOf(l, c, size) && size + |rest| <= |l| && l[size..size + |rest|] == rest {
      forall i | 0 <= i < |p| ensures l[i] == p[i] {
        if i >= size { assert l[i] == l[size..size + |rest|][i - size]; }
      }
      assert l[..|p|] == p;
    }
  }

  /** The line tests are exactly the source's tests on the constructed markers. */
  lemma MarkerLinesAsWritten(l: string, size: nat)
    ensures IsLocalLine(l, size) <==> StartsWith(l, LocalMarker(size) + " ")
    ensures IsBaseLine(l, size) <==> StartsWith(l, BaseMarker(size) + " ")
    ensures IsSeparatorLine(l, size) <==> l == RemoteMarker(size) + "\n"
    ensures IsAiLine(l, size) <==> StartsWith(l, AiMarker(size) + " ")
    ensures IsEndLine(l, size) <==> StartsWith(l, EndMarker(size))
  {
    RunOfStartsWith(l, '<', size, " ");
    RunOfStartsWith(l, '|', size, " ");
    RunOfStartsWith(l, '&', size, " ");
    RunOfStartsWith(l, '>', size, "");
    assert EndMarker(size) + "" == EndMarker(size);
    var sep := RemoteMarker(size) + "\n";
    if IsSeparatorLine(l, size) {
      forall i | 0 <= i < |sep| ensures l[i] == sep[i] { }
      assert l == sep;
    }
  }

  /** The five marker-line shapes the parser searches for. */
  datatype LineKind = LocalLine | BaseLine | SeparatorLine | AiLine | EndLine

  predicate Is(kind: LineKind, l: string, size: nat)
  {
    match kind
    case LocalLine => IsLocalLine(l, size)
    case BaseLine => IsBaseLine(l, size)
    case SeparatorLine => IsSeparatorLine(l, size)
    case AiLine => IsAiLine(l, size)
    case EndLine => IsEndLine(l, size)
  }

  /** For a positive size the five marker kinds exclude each other: their first characters differ. */
  lemma MarkerKindsDisjoint(l: string, size: nat)
    requires size >= 1
    ensures IsLocalLine(l, size) ==> !IsBaseLine(l, size) && !IsSeparatorLine(l, size) && !IsAiLine(l, size) && !IsEndLine(l, size)
    ensures IsBaseLine(l, size) ==> !IsSeparatorLine(l, size) && !IsAiLine(l, size) && !IsEndLine(l, size)
    ensures IsSeparatorLine(l, size) ==> !IsAiLine(l, size) && !IsEndLine(l, size)
    ensures IsAiLine(l, size) ==> !IsEndLine(l, size)
  {
    if |l| > 0 {
      assert IsLocalLine(l, size) ==> l[0] == (LocalMarker(size) + " ")[0] == '<';
      assert IsBaseLine(l, size) ==> l[0] == (BaseMarker(size) + " ")[0] == '|';
      assert IsSeparatorLine(l, size) ==> l[0] == (RemoteMarker(size) + "\n")[0] == '=';
      assert IsAiLine(l, size) ==> l[0] == (AiMarker(size) + " ")[0] == '&';
      assert IsEndLine(l, size) ==> l[0] == EndMarker(size)[0] == '>';
    }
  }

  // ---------------------------------------------------------------------------
  // `size_str.parse::<usize>()`

  predicate IsDigit(c: char) { '0' <= c <= '9' }

  predicate AllDigits(s: string) { forall i :: 0 <= i < |s| ==> IsDigit(s[i]) }

  /** The decimal value of a digit string. */
  function DigitsValue(s: string): nat
    requires AllDigits(s)
  {
    if s == [] then 0
    else DigitsValue(s[..|s| - 1]) * 10 + (s[|s| - 1] as int - '0' as int)
  }

  /** `usize::from_str`: an optional `+`, then one or more ASCII digits, no overflow. */
  function ParseUsize(s: string): (r: Option<nat>)
    ensures r.Some? ==> r.value <= USIZE_MAX
  {
    var digits := if |s| > 0 && s[0] == '+' then s[1..] else s;
    if digits == [] || !AllDigits(digits) then None
    else if DigitsValue(digits) > USIZE_MAX then None
    else Some(DigitsValue(digits))
  }

  /** The canonical decimal spelling of `n`, as `n.to_string()` writes it. */
  function Decimal(n: nat): (r: string)
    ensures |r| > 0 && AllDigits(r)
  {
    if n < 10 then [('0' as int + n) as char]
    else Decimal(n / 10) + [('0' as int + n % 10) as char]
  }

  lemma {:induction false} DecimalValue(n: nat)
    ensures DigitsValue(Decimal(n)) == n
  {
    if n >= 10 {
      DecimalValue(n / 10);
      var d := Decimal(n);
      assert d[..|d| - 1] == Decimal(n / 10);
    }
  }

  /** Round trip: every `usize` written in decimal parses back to itself. */
  lemma ParseDecimal(n: nat)
    requires n <= USIZE_MAX
    ensures ParseUsize(Decimal(n)) == Some(n)
  {
    DecimalValue(n);
  }

  // ---------------------------------------------------------------------------
  // `get_marker_size_for_file`, with the `git check-attr` call left out

  const SIZE_ATTR_PREFIX: string := "conflict-marker-size: "

  /** The size one line of `git check-attr conflict-marker-size -- <path>` output states, if any:
      the line must start with `<path>:`; the rest, trimmed, must start with
      `conflict-marker-size: ` and be followed by a valid `usize`. */
  function AttrLineSize(line: string, filePath: string): Option<nat>
  {
    var head := filePath + ":";
    if !StartsWith(line, head) then None
    else
      var rest := Trim(line[|head|..], RustWhitespace);
      if !StartsWith(rest, SIZE_ATTR_PREFIX) then None
      else ParseUsize(rest[|SIZE_ATTR_PREFIX|..])
  }

  /** The marker size for `filePath` given the exit status and stdout of `git check-attr`:
      the size stated by the first line that states one, `DEFAULT_MARKER_SIZE` otherwise. */
  method MarkerSizeForFile(success: bool, stdout: string, filePath: string) returns (size: nat)
    ensures !success ==> size == DEFAULT_MARKER_SIZE
    ensures success ==>
      var ls := Lines(stdout);
      || (exists k :: 0 <= k < |ls| && AttrLineSize(ls[k], filePath) == Some(size)
                      && forall j :: 0 <= j < k ==> AttrLineSize(ls[j], filePath).None?)
      || ((forall j :: 0 <= j < |ls| ==> AttrLineSize(ls[j], filePath).None?) && size == DEFAULT_MARKER_SIZE)
  {
    if success {
      var ls := Lines(stdout);
      var i := 0;
      while i < |ls|
        invariant 0 <= i <= |ls|
        invariant forall j :: 0 <= j < i ==> AttrLineSize(ls[j], filePath).None?
      {
        var parsed := AttrLineSize(ls[i], filePath);
        if parsed.Some? {
          return parsed.value;
        }
        i := i + 1;
      }
    }
    size := DEFAULT_MARKER_SIZE;
  }

  /** The text after `<path>:` in `<path>: <body>`, trimmed, is `body` when `body` neither
      starts nor ends with whitespace. */
  lemma AfterPathTrimmed(filePath: string, body: string)
    requires body != [] && !RustWhitespace(body[0]) && !RustWhitespace(body[|body| - 1])
    ensures var line := filePath + ": " + body;
      StartsWith(line, filePath + ":") && Trim(line[|filePath| + 1..], RustWhitespace) == body
  {
    var line := filePath + ": " + body;
    assert line[..|filePath| + 1] == filePath + ":";
    var rest := line[|filePath| + 1..];
    assert rest == " " + body;
    assert rest[1..] == body;
    TrimUntouched(body, RustWhitespace);
  }

  /** A line `<path>: conflict-marker-size: <v>` states the size `v` parses to. */
  lemma AttrLineValue(filePath: string, v: string)
    requires v != [] && !RustWhitespace(v[|v| - 1])
    ensures AttrLineSize(filePath + ": " + SIZE_ATTR_PREFIX + v, filePath) == ParseUsize(v)
  {
    var body := SIZE_ATTR_PREFIX + v;
    assert filePath + ": " + SIZE_ATTR_PREFIX + v == filePath + ": " + body;
    AfterPathTrimmed(filePath, body);
    assert body[..|SIZE_ATTR_PREFIX|] == SIZE_ATTR_PREFIX;
    assert body[|SIZE_ATTR_PREFIX|..] == v;
  }

  /** A path whose attribute is unset (`<path>: conflict-marker-size: unspecified`) states no size. */
  lemma UnspecifiedStatesNoSize(filePath: string)
    ensures AttrLineSize(filePath + ": " + SIZE_ATTR_PREFIX + "unspecified", filePath).None?
  {
    AttrLineValue(filePath, "unspecified");
    assert !IsDigit("unspecified"[0]);
  }

  /** A size written in decimal is read back. */
  lemma StatedSizeRead(filePath: string, n: nat)
    requires n <= USIZE_MAX
    ensures AttrLineSize(filePath + ": " + SIZE_ATTR_PREFIX + Decimal(n), filePath) == Some(n)
  {
    var d := Decimal(n);
    assert IsDigit(d[|d| - 1]);
    AttrLineValue(filePath, d);
    ParseDecimal(n);
  }
}
