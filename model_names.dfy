/**
 * `combine_model_names`: the display name of a group of agreeing candidates.
 * Names of the form `prefix (suffix)` are grouped by prefix and rendered as
 * `prefix (s1|s2|…)`; a name without a closed parenthesis stands alone.
 * The `assert!`s and the `unwrap` of the source are modelled as failures.
 */
module ModelNames {
  import opened Wrappers
  import opened Text
  import opened Sorting

  datatype NameError =
    | DuplicateSuffix(prefix: string, suffix: string)   // a suffix seen twice for one prefix
    | DuplicateEmptySuffix(model: string)               // a plain name seen twice
    | MissingPrefix(prefix: string)                     // `suffix_map.get(prefix).unwrap()` fails
    | NoSuffixes(prefix: string)                        // `assert!(!suffixes.is_empty())`
    | SeveralEmptySuffixes(prefix: string)              // more than one empty suffix

  /** How a model name is split. */
  datatype NameShape =
    | Suffixed(prefix: string, suffix: string)   // `prefix (suffix)`: the last `(` has a `)` after it
    | Unclosed(prefix: string)                   // a `(` with no `)` after it; `prefix` is the text before it
    | Plain                                      // no `(` at all

  function Shape(name: string): NameShape
  {
    match RFindChar(name, '(')
    case None => Plain
    case Some(pos) =>
      var prefix := Trim(name[..pos], RustWhitespace);
      var rest := name[pos + 1..];
      match FindChar(rest, ')')
      case Some(e) => Suffixed(prefix, rest[..e])
      case None => Unclosed(prefix)
  }

  /** `suffix_map` and the `prefixes` vector of the first loop. */
  datatype Groups = Groups(suffixes: map<string, seq<string>>, prefixes: seq<string>)

  /** `suffix_map.entry(k).or_default()` before the push. */
  function Entry(m: map<string, seq<string>>, k: string): seq<string>
  {
    if k in m then m[k] else []
  }

  /** One turn of the first loop. */
  function AddName(g: Groups, name: string): Result<Groups, NameError>
  {
    match Shape(name)
    case Suffixed(prefix, suffix) =>
      var entry := Entry(g.suffixes, prefix);
      if suffix in entry then Failure(DuplicateSuffix(prefix, suffix))
      else Success(Groups(g.suffixes[prefix := entry + [suffix]], g.prefixes + [prefix]))
    case Unclosed(prefix) =>
      // keyed by the whole name, but the trimmed text before `(` is what is pushed
      if Entry(g.suffixes, name) != [] then Failure(DuplicateEmptySuffix(name))
      else Success(Groups(g.suffixes[name := [""]], g.prefixes + [prefix]))
    case Plain =>
      if Entry(g.suffixes, name) != [] then Failure(DuplicateEmptySuffix(name))
      else Success(Groups(g.suffixes[name := [""]], g.prefixes + [name]))
  }

  /** The state after the first loop has seen `names`. */
  function Grouped(names: seq<string>): Result<Groups, NameError>
  {
    if names == [] then Success(Groups(map[], []))
    else
      match Grouped(names[..|names| - 1])
      case Failure(e) => Failure(e)
      case Success(g) => AddName(g, names[|names| - 1])
  }

  function CountEmpty(s: seq<string>): nat
  {
    if s == [] then 0 else (if s[0] == "" then 1 else 0) + CountEmpty(s[1..])
  }

  /** The text the second loop pushes for one prefix. */
  function RenderOne(prefix: string, m: map<string, seq<string>>): Result<string, NameError>
  {
    if prefix !in m then Failure(MissingPrefix(prefix))
    else
      var suffixes := m[prefix];
      if suffixes == [] then Failure(NoSuffixes(prefix))
      else if CountEmpty(suffixes) > 1 then Failure(SeveralEmptySuffixes(prefix))
      else if |suffixes| == 1 && suffixes[0] == "" then Success(prefix)
      else Success(prefix + " (" + Join(suffixes, "|") + ")")
  }

  function RenderEach(ps: seq<string>, m: map<string, seq<string>>): (r: seq<Result<string, NameError>>)
    ensures |r| == |ps|
  {
    if ps == [] then [] else RenderEach(ps[..|ps| - 1], m) + [RenderOne(ps[|ps| - 1], m)]
  }

  /** What `combine_model_names` returns: every prefix, at its first occurrence, rendered and joined by `", "`. */
  function Combine(names: seq<string>): Result<string, NameError>
  {
    match Grouped(names)
    case Failure(e) => Failure(e)
    case Success(g) =>
      match Collect(RenderEach(Distinct(g.prefixes), g.suffixes))
      case Failure(e) => Failure(e)
      case Success(rendered) => Success(Join(rendered, ", "))
  }

  lemma SliceOfSlice(s: string, a: nat, e: nat)
    requires a + e <= |s|
    ensures s[a..a + e] == s[a..][..e]
  {
  }

  /** One turn of the first loop on a name without `(`. */
  lemma AddNameNoParen(g: Groups, name: string)
    requires RFindChar(name, '(') == None
    ensures AddName(g, name) == if Entry(g.suffixes, name) != [] then Failure(DuplicateEmptySuffix(name))
                                else Success(Groups(g.suffixes[name := [""]], g.prefixes + [name]))
  {
    assert Shape(name) == Plain;
  }

  /** One turn of the first loop on a name whose last `(`, at `pos`, has no `)` after it. */
  lemma AddNameUnclosed(g: Groups, name: string, pos: nat)
    requires RFindChar(name, '(') == Some(pos) && FindChar(name[pos + 1..], ')') == None
    ensures AddName(g, name) == if Entry(g.suffixes, name) != [] then Failure(DuplicateEmptySuffix(name))
                                else Success(Groups(g.suffixes[name := [""]], g.prefixes + [Trim(name[..pos], RustWhitespace)]))
  {
    assert Shape(name) == Unclosed(Trim(name[..pos], RustWhitespace));
  }

  /** One turn of the first loop on a name whose last `(`, at `pos`, is closed `e` characters further on. */
  lemma AddNameSuffixed(g: Groups, name: string, pos: nat, e: nat)
    requires RFindChar(name, '(') == Some(pos) && FindChar(name[pos + 1..], ')') == Some(e)
    ensures var prefix := Trim(name[..pos], RustWhitespace);
            var suffix := name[pos + 1..][..e];
            AddName(g, name) == if suffix in Entry(g.suffixes, prefix) then Failure(DuplicateSuffix(prefix, suffix))
                                else Success(Groups(g.suffixes[prefix := Entry(g.suffixes, prefix) + [suffix]], g.prefixes + [prefix]))
  {
    assert Shape(name) == Suffixed(Trim(name[..pos], RustWhitespace), name[pos + 1..][..e]);
  }

  /** One turn of the first loop: split `modelName` and record it, or fail on a repeat. */
  method AddModelName(suffixMap: map<string, seq<string>>, prefixes: seq<string>, modelName: string)
    returns (r: Result<Groups, NameError>)
    ensures r == AddName(Groups(suffixMap, prefixes), modelName)
  {
    var pos := RFindChar(modelName, '(');
    if pos.None? {
      AddNameNoParen(Groups(suffixMap, prefixes), modelName);
      if Entry(suffixMap, modelName) != [] {
        return Failure(DuplicateEmptySuffix(modelName));
      }
      return Success(Groups(suffixMap[modelName := [""]], prefixes + [modelName]));
    }
    var prefix := Trim(modelName[..pos.value], RustWhitespace);
    var suffixStart := pos.value + 1;
    var suffixEnd := FindChar(modelName[suffixStart..], ')');
    if suffixEnd.None? {
      AddNameUnclosed(Groups(suffixMap, prefixes), modelName, pos.value);
      if Entry(suffixMap, modelName) != [] {
        return Failure(DuplicateEmptySuffix(modelName));
      }
      return Success(Groups(suffixMap[modelName := [""]], prefixes + [prefix]));
    }
    var suffix := modelName[suffixStart..suffixStart + suffixEnd.value];
    SliceOfSlice(modelName, suffixStart, suffixEnd.value);
    AddNameSuffixed(Groups(suffixMap, prefixes), modelName, pos.value, suffixEnd.value);
    var entry := Entry(suffixMap, prefix);
    if suffix in entry {
      return Failure(DuplicateSuffix(prefix, suffix));
    }
    r := Success(Groups(suffixMap[prefix := entry + [suffix]], prefixes + [prefix]));
  }

  /** The first loop of `combine_model_names`: group the suffixes by prefix. */
  method GroupNames(models: seq<string>) returns (r: Result<Groups, NameError>)
    ensures r == Grouped(models)
  {
    var suffixMap: map<string, seq<string>> := map[];
    var prefixes: seq<string> := [];
    var i := 0;
    while i < |models|
      invariant i <= |models|
      invariant Grouped(models[..i]) == Success(Groups(suffixMap, prefixes))
    {
      assert models[..i + 1][..i] == models[..i];
      var step := AddModelName(suffixMap, prefixes, models[i]);
      if step.Failure? {
        r := Failure(step.error);
        GroupedFailure(models, i + 1);
        return;
      }
      suffixMap, prefixes := step.value.suffixes, step.value.prefixes;
      i := i + 1;
    }
    assert models[..i] == models;
    r := Success(Groups(suffixMap, prefixes));
  }

  /** One prefix of the second loop: its rendered text, or the failed lookup or assertion. */
  method RenderPrefix(prefix: string, suffixMap: map<string, seq<string>>) returns (r: Result<string, NameError>)
    ensures r == RenderOne(prefix, suffixMap)
  {
    if prefix !in suffixMap {
      return Failure(MissingPrefix(prefix));
    }
    var suffixes := suffixMap[prefix];
    if suffixes == [] {
      return Failure(NoSuffixes(prefix));
    }
    if CountEmpty(suffixes) > 1 {
      return Failure(SeveralEmptySuffixes(prefix));
    }
    if |suffixes| == 1 && suffixes[0] == "" {
      return Success(prefix);
    }
    r := Success(prefix + " (" + Join(suffixes, "|") + ")");
  }

  /** One turn of the second loop, on `prefixes[j]`: the grown `seen` set and output, or the
      error that ends the loop. */
  method RenderTurn(prefixes: seq<string>, j: nat, m: map<string, seq<string>>, seen: set<string>, acc: seq<string>)
    returns (r: Result<(set<string>, seq<string>), NameError>)
    requires j < |prefixes| && forall x :: x in seen <==> x in prefixes[..j]
    requires Collect(RenderEach(Distinct(prefixes[..j]), m)) == Success(acc)
    ensures r.Success? ==> forall x :: x in r.value.0 <==> x in prefixes[..j + 1]
    ensures r.Success? ==> Collect(RenderEach(Distinct(prefixes[..j + 1]), m)) == Success(r.value.1)
    ensures r.Failure? ==> Collect(RenderEach(Distinct(prefixes[..j + 1]), m)) == Failure(r.error)
  {
    var prefix := prefixes[j];
    SeenPrefixStep(prefixes, j, seen);
    if prefix in seen {
      RenderSeenAgain(prefixes, j, m);
      assert seen + {prefix} == seen;
      return Success((seen, acc));
    }
    RenderNewPrefix(prefixes, j, m, acc);
    var text := RenderPrefix(prefix, m);
    if text.Failure? {
      return Failure(text.error);
    }
    r := Success((seen + {prefix}, acc + [text.value]));
  }

  /** The second loop of `combine_model_names`: render each prefix once, in first-seen order. */
  method RenderNames(g: Groups) returns (r: Result<seq<string>, NameError>)
    ensures r == Collect(RenderEach(Distinct(g.prefixes), g.suffixes))
  {
    var prefixes := g.prefixes;
    var combinedNames: seq<string> := [];
    var seen: set<string> := {};
    var j := 0;
    while j < |prefixes|
      invariant j <= |prefixes|
      invariant forall x :: x in seen <==> x in prefixes[..j]
      invariant Collect(RenderEach(Distinct(prefixes[..j]), g.suffixes)) == Success(combinedNames)
    {
      var turn := RenderTurn(prefixes, j, g.suffixes, seen, combinedNames);
      if turn.Failure? {
        r := Failure(turn.error);
        RenderFailure(prefixes, j + 1, g.suffixes);
        return;
      }
      seen, combinedNames := turn.value.0, turn.value.1;
      j := j + 1;
    }
    assert prefixes[..j] == prefixes;
    r := Success(combinedNames);
  }

  /** `combine_model_names(group)`, given the `model` of each member of the group. */
  method CombineModelNames(models: seq<string>) returns (r: Result<string, NameError>)
    ensures r == Combine(models)
  {
    var grouped := GroupNames(models);
    if grouped.Failure? {
      return Failure(grouped.error);
    }
    var combinedNames := RenderNames(grouped.value);
    if combinedNames.Failure? {
      return Failure(combinedNames.error);
    }
    r := Success(Join(combinedNames.value, ", "));
  }

  // ---------------------------------------------------------------------------
  // Properties

  /** Once the first loop has failed, the whole combination fails with that error. */
  lemma {:induction false} GroupedFailure(names: seq<string>, k: nat)
    requires k <= |names| && Grouped(names[..k]).Failure?
    ensures Grouped(names) == Grouped(names[..k])
    decreases |names| - k
  {
    if k < |names| {
      assert names[..k + 1][..k] == names[..k];
      GroupedFailure(names, k + 1);
    } else {
      assert names[..k] == names;
    }
  }

  /** Rendering one more prefix. */
  lemma RenderStep(d: seq<string>, x: string, m: map<string, seq<string>>, acc: seq<string>)
    requires Collect(RenderEach(d, m)) == Success(acc)
    ensures Collect(RenderEach(d + [x], m)) == match RenderOne(x, m)
                                              case Failure(e) => Failure(e)
                                              case Success(v) => Success(acc + [v])
  {
    var xs := RenderEach(d + [x], m);
    assert (d + [x])[..|d|] == d;
    assert xs[..|xs| - 1] == RenderEach(d, m);
  }

  /** A turn of the second loop on a prefix seen before renders nothing. */
  lemma RenderSeenAgain(ps: seq<string>, j: nat, m: map<string, seq<string>>)
    requires j < |ps| && ps[j] in ps[..j]
    ensures Distinct(ps[..j + 1]) == Distinct(ps[..j])
  {
    DistinctPrefixStep(ps, j);
  }

  /** A turn of the second loop on a new prefix renders it once, after the others. */
  lemma RenderNewPrefix(ps: seq<string>, j: nat, m: map<string, seq<string>>, acc: seq<string>)
    requires j < |ps| && ps[j] !in ps[..j] && Collect(RenderEach(Distinct(ps[..j]), m)) == Success(acc)
    ensures Collect(RenderEach(Distinct(ps[..j + 1]), m)) == match RenderOne(ps[j], m)
                                                             case Failure(e) => Failure(e)
                                                             case Success(v) => Success(acc + [v])
  {
    DistinctPrefixStep(ps, j);
    RenderStep(Distinct(ps[..j]), ps[j], m, acc);
  }

  /** Once the second loop has failed on a prefix, the whole combination fails with that error. */
  lemma {:induction false} RenderFailure(ps: seq<string>, k: nat, m: map<string, seq<string>>)
    requires k <= |ps| && Collect(RenderEach(Distinct(ps[..k]), m)).Failure?
    ensures Collect(RenderEach(Distinct(ps), m)) == Collect(RenderEach(Distinct(ps[..k]), m))
    decreases |ps| - k
  {
    if k < |ps| {
      var d := Distinct(ps[..k]);
      assert ps[..k + 1][..k] == ps[..k];
      if ps[k] !in d {
        var xs := RenderEach(d + [ps[k]], m);
        assert xs[..|xs| - 1] == RenderEach(d, m);
      }
      RenderFailure(ps, k + 1, m);
    } else {
      assert ps[..k] == ps;
    }
  }

  /** Every suffix list of the map is non-empty and repeats no suffix. */
  predicate Consistent(g: Groups)
  {
    forall p :: p in g.suffixes ==> g.suffixes[p] != [] && NoDuplicates(g.suffixes[p])
  }

  lemma {:induction false} CountEmptyAbsent(s: seq<string>)
    requires "" !in s
    ensures CountEmpty(s) == 0
  {
    if s != [] {
      assert s[1..] == s[1..] && forall x :: x in s[1..] ==> x in s;
      CountEmptyAbsent(s[1..]);
    }
  }

  lemma {:induction false} CountEmptyAtMostOne(s: seq<string>)
    requires NoDuplicates(s)
    ensures CountEmpty(s) <= 1
  {
    if s != [] {
      var t := s[1..];
      assert NoDuplicates(t) by {
        forall i, j | 0 <= i < j < |t| ensures t[i] != t[j] { assert t[i] == s[i + 1] && t[j] == s[j + 1]; }
      }
      if s[0] == "" {
        forall k | 0 <= k < |t| ensures t[k] != "" { assert t[k] == s[k + 1]; }
        CountEmptyAbsent(t);
      } else {
        CountEmptyAtMostOne(t);
      }
    }
  }

  /** The first loop keeps every suffix list non-empty and free of repetitions. */
  lemma {:induction false} GroupedConsistent(names: seq<string>)
    requires Grouped(names).Success?
    ensures Consistent(Grouped(names).value)
  {
    if names != [] {
      var front := names[..|names| - 1];
      GroupedConsistent(front);
      var g := Grouped(front).value;
      match Shape(names[|names| - 1])
      case Suffixed(prefix, suffix) =>
        var entry := Entry(g.suffixes, prefix);
        var e' := entry + [suffix];
        assert NoDuplicates(e') by {
          forall i, j | 0 <= i < j < |e'| ensures e'[i] != e'[j] {
            if j == |entry| { assert e'[i] in entry; }
          }
        }
      case Unclosed(_) =>
      case Plain =>
    }
  }

  /** When no name has an unclosed parenthesis, every recorded prefix is a key of the map. */
  lemma {:induction false} GroupedPrefixesKnown(names: seq<string>)
    requires Grouped(names).Success?
    requires forall k :: 0 <= k < |names| ==> !Shape(names[k]).Unclosed?
    ensures forall p :: p in Grouped(names).value.prefixes ==> p in Grouped(names).value.suffixes
  {
    if names != [] {
      var front := names[..|names| - 1];
      assert forall k :: 0 <= k < |front| ==> front[k] == names[k];
      GroupedPrefixesKnown(front);
    }
  }

  /** The two inner `assert!`s of the second loop never fire: only a duplicate, or a prefix left unkeyed by an unclosed parenthesis, makes the combination fail. */
  lemma CombineFailures(names: seq<string>)
    ensures Combine(names).Failure? ==>
              Combine(names).error.DuplicateSuffix? || Combine(names).error.DuplicateEmptySuffix? ||
              (Combine(names).error.MissingPrefix? && exists k :: 0 <= k < |names| && Shape(names[k]).Unclosed?)
  {
    GroupedErrors(names);
    if Grouped(names).Success? {
      var g := Grouped(names).value;
      GroupedConsistent(names);
      var d := Distinct(g.prefixes);
      var xs := RenderEach(d, g.suffixes);
      RenderEachAt(d, g.suffixes);
      CollectShape(xs);
      DistinctMembers(g.prefixes);
      if Collect(xs).Failure? {
        var k :| 0 <= k < |xs| && xs[k] == Failure(Collect(xs).error);
        var p := d[k];
        if p in g.suffixes {
          CountEmptyAtMostOne(g.suffixes[p]);
        } else if forall i :: 0 <= i < |names| ==> !Shape(names[i]).Unclosed? {
          GroupedPrefixesKnown(names);
        }
      }
    }
  }

  lemma {:induction false} RenderEachAt(ps: seq<string>, m: map<string, seq<string>>)
    ensures forall k :: 0 <= k < |ps| ==> RenderEach(ps, m)[k] == RenderOne(ps[k], m)
  {
    if ps != [] {
      RenderEachAt(ps[..|ps| - 1], m);
    }
  }

  /** The first loop fails only on a repeated suffix or a repeated plain name. */
  lemma {:induction false} GroupedErrors(names: seq<string>)
    ensures Grouped(names).Failure? ==> Grouped(names).error.DuplicateSuffix? || Grouped(names).error.DuplicateEmptySuffix?
  {
    if names != [] {
      GroupedErrors(names[..|names| - 1]);
    }
  }

  /** A new plain name is recorded under itself and listed. */
  lemma AddPlain(names: seq<string>, g: Groups, x: string)
    requires Grouped(names) == Success(g) && '(' !in x && x !in g.suffixes
    ensures Grouped(names + [x]) == Success(Groups(g.suffixes[x := [""]], g.prefixes + [x]))
  {
    assert (names + [x])[..|names|] == names;
    assert Shape(x) == Plain;
  }

  /** The map and prefixes recorded for distinct names with no parenthesis. */
  lemma {:induction false} GroupedPlain(names: seq<string>)
    requires NoDuplicates(names)
    requires forall k :: 0 <= k < |names| ==> '(' !in names[k]
    ensures Grouped(names).Success?
    ensures Grouped(names).value.prefixes == names
    ensures forall k :: 0 <= k < |names| ==>
              names[k] in Grouped(names).value.suffixes && Grouped(names).value.suffixes[names[k]] == [""]
    ensures forall p :: p in Grouped(names).value.suffixes ==> p in names
  {
    if names != [] {
      var front := names[..|names| - 1];
      var x := names[|names| - 1];
      assert names == front + [x];
      NoDuplicatesFront(names);
      assert forall k :: 0 <= k < |front| ==> front[k] == names[k];
      GroupedPlain(front);
      var g := Grouped(front).value;
      AddPlain(front, g, x);
      var m' := g.suffixes[x := [""]];
      forall k | 0 <= k < |names| ensures names[k] in m' && m'[names[k]] == [""] {
        if k < |front| { assert names[k] == front[k]; }
      }
      forall q | q in m' ensures q in names {
        if q != x { assert q in front; }
      }
    }
  }

  /** Distinct names without parentheses are listed as they are, joined by `", "`; one such name gives itself. */
  lemma CombinePlain(names: seq<string>)
    requires NoDuplicates(names)
    requires forall k :: 0 <= k < |names| ==> '(' !in names[k]
    ensures Combine(names) == Success(Join(names, ", "))
  {
    GroupedPlain(names);
    var g := Grouped(names).value;
    DistinctOfDistinct(names);
    RenderPlain(names, g.suffixes);
  }

  /** Prefixes whose only suffix is the empty one render as themselves. */
  lemma RenderPlain(ps: seq<string>, m: map<string, seq<string>>)
    requires forall k :: 0 <= k < |ps| ==> ps[k] in m && m[ps[k]] == [""]
    ensures Collect(RenderEach(ps, m)) == Success(ps)
  {
    var xs := RenderEach(ps, m);
    RenderEachAt(ps, m);
    assert CountEmpty([""]) == 1;
    forall k | 0 <= k < |ps| ensures xs[k] == Success(ps[k]) {
      assert m[ps[k]] == [""];
    }
    CollectShape(xs);
    assert Collect(xs).value == ps;
  }

  /** The last `(` of `p + " (" + tail` is the one written after `p` when `tail` holds none. */
  lemma LastParen(p: string, tail: string)
    requires '(' !in tail
    ensures RFindChar(p + " (" + tail, '(') == Some(|p| + 1)
  {
    var name := p + " (" + tail;
    var pos := |p| + 1;
    assert name[pos] == '(';
    assert name[pos + 1..] == tail;
    RFindCharAt(name, '(', pos);
  }

  /** The first `)` of `s + ")"`, when `s` holds none, is the appended one. */
  lemma CloseParen(s: string)
    requires ')' !in s
    ensures FindChar(s + ")", ')') == Some(|s|) && (s + ")")[..|s|] == s
  {
    assert (s + ")")[|s|] == ')';
  }

  /** `p (s)` splits back into `p` and `s`: the inverse of rendering a prefix with one suffix. */
  lemma ShapeOfSuffixed(p: string, s: string)
    requires p != [] && !RustWhitespace(p[0]) && !RustWhitespace(p[|p| - 1])
    requires '(' !in s && ')' !in s
    ensures Shape(p + " (" + s + ")") == Suffixed(p, s)
  {
    var name := p + " (" + s + ")";
    assert name == p + " (" + (s + ")");
    LastParen(p, s + ")");
    assert name[..|p| + 1] == p + " ";
    TrimTrailingSpace(p);
    assert name[|p| + 2..] == s + ")";
    CloseParen(s);
  }

  /** `p (s` with no closing parenthesis keeps `p` as its prefix. */
  lemma ShapeOfUnclosed(p: string, s: string)
    requires p != [] && !RustWhitespace(p[0]) && !RustWhitespace(p[|p| - 1])
    requires '(' !in s && ')' !in s
    ensures Shape(p + " (" + s) == Unclosed(p)
  {
    var name := p + " (" + s;
    LastParen(p, s);
    assert name[..|p| + 1] == p + " ";
    TrimTrailingSpace(p);
    assert name[|p| + 2..] == s;
  }

  lemma GroupedOne(a: string)
    ensures Grouped([a]) == AddName(Groups(map[], []), a)
  {
    var none: seq<string> := [];
    assert [a][..0] == none;
  }

  lemma GroupedTwo(a: string, b: string)
    ensures Grouped([a, b]) == match AddName(Groups(map[], []), a)
                               case Failure(e) => Failure(e)
                               case Success(g) => AddName(g, b)
  {
    assert [a, b][..1] == [a];
    GroupedOne(a);
  }

  /** When every recorded prefix is the same, the name is that prefix rendered. */
  lemma CombineOnePrefix(names: seq<string>, p: string)
    requires Grouped(names).Success? && Distinct(Grouped(names).value.prefixes) == [p]
    ensures Combine(names) == match RenderOne(p, Grouped(names).value.suffixes)
                              case Failure(e) => Failure(e)
                              case Success(v) => Success(v)
  {
    var none: seq<string> := [];
    var g := Grouped(names).value;
    var r := RenderOne(p, g.suffixes);
    assert [p][..0] == none;
    assert RenderEach([p], g.suffixes) == [r];
    CollectOne(r);
  }

  lemma DistinctTwice(p: string)
    ensures Distinct([p, p]) == [p]
  {
    var none: seq<string> := [];
    assert [p, p][..1] == [p] && [p][..0] == none;
  }

  /** The first loop on one name: a plain name `p`, or `p` with the suffix `t`. */
  lemma GroupedFirst(a: string, p: string, t: string)
    requires Shape(a) == (if t == "" then Plain else Suffixed(p, t)) && (t == "" ==> a == p)
    ensures Grouped([a]) == Success(Groups(map[p := [t]], [p]))
  {
    GroupedOne(a);
    var none: seq<string> := [];
    assert none + [t] == [t] && none + [p] == [p];
  }

  /** A second suffix `t2` for a prefix `p` already holding `t1`. */
  lemma AddSecondSuffix(b: string, p: string, t1: string, t2: string)
    requires Shape(b) == Suffixed(p, t2) && t1 != t2
    ensures AddName(Groups(map[p := [t1]], [p]), b) == Success(Groups(map[p := [t1, t2]], [p, p]))
  {
    var m := map[p := [t1]];
    assert Entry(m, p) == [t1] && t2 !in [t1];
    assert [t1] + [t2] == [t1, t2] && [p] + [p] == [p, p];
    assert m[p := [t1, t2]] == map[p := [t1, t2]];
  }

  /** The first loop on two names with prefix `p` and the suffixes `t1`, then `t2`. */
  lemma GroupedSamePrefix(a: string, b: string, p: string, t1: string, t2: string)
    requires Shape(a) == (if t1 == "" then Plain else Suffixed(p, t1)) && (t1 == "" ==> a == p)
    requires Shape(b) == Suffixed(p, t2) && t1 != t2
    ensures Grouped([a, b]) == Success(Groups(map[p := [t1, t2]], [p, p]))
  {
    GroupedTwo(a, b);
    GroupedFirst(a, p, t1);
    GroupedOne(a);
    AddSecondSuffix(b, p, t1, t2);
  }

  /** How a prefix with two different suffixes is rendered. */
  lemma RenderTwo(p: string, t1: string, t2: string)
    requires t1 != t2
    ensures RenderOne(p, map[p := [t1, t2]]) == Success(p + " (" + t1 + "|" + t2 + ")")
  {
    assert CountEmpty([t1, t2]) <= 1 by {
      assert NoDuplicates([t1, t2]);
      CountEmptyAtMostOne([t1, t2]);
    }
    assert Join([t1, t2], "|") == t1 + "|" + t2 by { assert [t1, t2][1..] == [t2]; }
    assert p + " (" + (t1 + "|" + t2) + ")" == p + " (" + t1 + "|" + t2 + ")";
  }

  /** Two different suffixes of one prefix are listed together: `p (s1)`, `p (s2)` give `p (s1|s2)`. */
  lemma CombineTwoSuffixes(a: string, b: string, p: string, s1: string, s2: string)
    requires Shape(a) == Suffixed(p, s1) && Shape(b) == Suffixed(p, s2) && s1 != s2 && s1 != ""
    ensures Combine([a, b]) == Success(p + " (" + s1 + "|" + s2 + ")")
  {
    GroupedSamePrefix(a, b, p, s1, s2);
    DistinctTwice(p);
    CombineOnePrefix([a, b], p);
    RenderTwo(p, s1, s2);
  }

  /** A plain name and a suffixed name with that prefix share one entry, with an empty first suffix: `p`, `p (s)` give `p (|s)`. */
  lemma CombinePlainThenSuffixed(p: string, b: string, s: string)
    requires Shape(p) == Plain && Shape(b) == Suffixed(p, s) && s != ""
    ensures Combine([p, b]) == Success(p + " (" + "" + "|" + s + ")")
  {
    GroupedSamePrefix(p, b, p, "", s);
    DistinctTwice(p);
    CombineOnePrefix([p, b], p);
    RenderTwo(p, "", s);
  }

  /** The same suffix twice for one prefix fails the assertion. */
  lemma RepeatedSuffixFails(a: string, p: string, s: string)
    requires Shape(a) == Suffixed(p, s)
    ensures Combine([a, a]) == Failure(DuplicateSuffix(p, s))
  {
    GroupedTwo(a, a);
    var none: seq<string> := [];
    assert Entry(map[], p) == none && none + [s] == [s] && none + [p] == [p];
    assert AddName(Groups(map[], []), a) == Success(Groups(map[p := [s]], [p]));
  }

  /** The same plain name twice fails the assertion. */
  lemma RepeatedPlainFails(name: string)
    requires Shape(name) == Plain
    ensures Combine([name, name]) == Failure(DuplicateEmptySuffix(name))
  {
    GroupedTwo(name, name);
    var none: seq<string> := [];
    assert Entry(map[], name) == none && none + [name] == [name];
    assert AddName(Groups(map[], []), name) == Success(Groups(map[name := [""]], [name]));
  }

  lemma GroupedUnclosed(a: string, p: string)
    requires Shape(a) == Unclosed(p)
    ensures Grouped([a]) == Success(Groups(map[a := [""]], [p]))
  {
    GroupedOne(a);
    var none: seq<string> := [];
    assert none + [p] == [p];
  }

  lemma DistinctOne(p: string)
    ensures Distinct([p]) == [p]
  {
    var none: seq<string> := [];
    assert [p][..0] == none;
  }

  /** The prefix of an unclosed name is shorter than the name, so the name is never filed under its own prefix. */
  lemma UnclosedLonger(a: string, p: string)
    requires Shape(a) == Unclosed(p)
    ensures |p| < |a|
  {
    var pos := RFindChar(a, '(').value;
    assert |TrimStart(a[..pos], RustWhitespace)| <= pos;
  }

  /** A lone name with `(` and no `)`: it is keyed whole but its prefix is looked up, and the lookup fails. */
  lemma UnclosedFails(a: string, p: string)
    requires Shape(a) == Unclosed(p)
    ensures Combine([a]) == Failure(MissingPrefix(p))
  {
    UnclosedLonger(a, p);
    GroupedUnclosed(a, p);
    DistinctOne(p);
    CombineOnePrefix([a], p);
  }

  /** `"m (x"` alone has no closing parenthesis and makes the combination fail. */
  lemma UnclosedExample()
    ensures Combine(["m (x"]) == Failure(MissingPrefix("m"))
  {
    assert "m" + " (" + "x" == "m (x";
    ShapeOfUnclosed("m", "x");
    UnclosedFails("m (x", "m");
  }

  /** The key under which the first loop files a name: the prefix of a suffixed name, the whole name otherwise. */
  function KeyOf(name: string): string
  {
    match Shape(name)
    case Suffixed(prefix, _) => prefix
    case _ => name
  }

  /** What the first loop pushes onto `prefixes` for a name. */
  function ListedAs(name: string): string
  {
    match Shape(name)
    case Suffixed(prefix, _) => prefix
    case Unclosed(prefix) => prefix
    case Plain => name
  }

  /** The keys the first loop files the names under, in order. */
  function KeysOf(names: seq<string>): (ks: seq<string>)
    ensures |ks| == |names|
  {
    if names == [] then [] else KeysOf(names[..|names| - 1]) + [KeyOf(names[|names| - 1])]
  }

  /** What the first loop pushes onto `prefixes` for the names, in order. */
  function ListedOf(names: seq<string>): (ps: seq<string>)
    ensures |ps| == |names|
  {
    if names == [] then [] else ListedOf(names[..|names| - 1]) + [ListedAs(names[|names| - 1])]
  }

  /** The prefixes of the names that have a `(` and no `)`, in order. */
  function UnclosedPrefixes(names: seq<string>): seq<string>
  {
    if names == [] then []
    else
      UnclosedPrefixes(names[..|names| - 1]) +
      match Shape(names[|names| - 1])
      case Unclosed(prefix) => [prefix]
      case _ => []
  }

  /** Every listed prefix is a key unless it comes from an unclosed name, and every unclosed name's prefix is listed. */
  lemma {:induction false} ListedCovered(names: seq<string>)
    ensures forall p :: p in UnclosedPrefixes(names) ==> p in ListedOf(names)
    ensures forall p :: p in ListedOf(names) ==> p in KeysOf(names) || p in UnclosedPrefixes(names)
  {
    if names != [] {
      var front := names[..|names| - 1];
      var x := names[|names| - 1];
      ListedCovered(front);
      assert ListedOf(names) == ListedOf(front) + [ListedAs(x)];
      assert KeysOf(names) == KeysOf(front) + [KeyOf(x)];
      match Shape(x) {
        case Unclosed(prefix) =>
          assert UnclosedPrefixes(names) == UnclosedPrefixes(front) + [prefix];
        case Suffixed(_, _) =>
          assert UnclosedPrefixes(names) == UnclosedPrefixes(front);
        case Plain =>
          assert UnclosedPrefixes(names) == UnclosedPrefixes(front);
      }
    }
  }

  /** One turn of the first loop lists the name's prefix and files it under its key. */
  lemma AddNameShape(g: Groups, x: string)
    requires AddName(g, x).Success?
    ensures AddName(g, x).value.prefixes == g.prefixes + [ListedAs(x)]
    ensures forall p :: p in AddName(g, x).value.suffixes <==> p in g.suffixes || p == KeyOf(x)
  {
    match Shape(x) {
      case Suffixed(_, _) =>
      case Unclosed(_) =>
      case Plain =>
    }
  }

  /** After the first loop, `prefixes` lists every name's prefix in order, and the map's keys are exactly the names' keys. */
  lemma {:induction false} GroupedShape(names: seq<string>)
    requires Grouped(names).Success?
    ensures Grouped(names).value.prefixes == ListedOf(names)
    ensures forall p :: p in Grouped(names).value.suffixes <==> p in KeysOf(names)
  {
    if names != [] {
      var front := names[..|names| - 1];
      var x := names[|names| - 1];
      GroupedShape(front);
      var g := Grouped(front).value;
      assert Grouped(names) == AddName(g, x);
      AddNameShape(g, x);
      assert ListedOf(names) == ListedOf(front) + [ListedAs(x)];
      assert KeysOf(names) == KeysOf(front) + [KeyOf(x)];
    }
  }

  /** The prefix whose rendering fails, once the first loop has passed: it is listed and not a key. */
  lemma FailingPrefix(names: seq<string>) returns (p: string)
    requires Grouped(names).Success? && Combine(names).Failure?
    ensures Combine(names).error == MissingPrefix(p)
    ensures p in Grouped(names).value.prefixes && p !in Grouped(names).value.suffixes
  {
    var g := Grouped(names).value;
    var d := Distinct(g.prefixes);
    var xs := RenderEach(d, g.suffixes);
    assert Collect(xs).Failure? && Combine(names).error == Collect(xs).error;
    RenderEachAt(d, g.suffixes);
    CollectShape(xs);
    var k :| 0 <= k < |xs| && xs[k] == Failure(Collect(xs).error);
    p := d[k];
    assert p !in g.suffixes by {
      GroupedConsistent(names);
      if p in g.suffixes { CountEmptyAtMostOne(g.suffixes[p]); }
    }
    DistinctMembers(g.prefixes);
  }

  /** A failing combination, after a first loop that passed, is the lookup of an unclosed name's unkeyed prefix. */
  lemma MissingWhenFailing(names: seq<string>)
    requires Grouped(names).Success? && Combine(names).Failure?
    ensures Combine(names).error.MissingPrefix?
    ensures Combine(names).error.prefix in UnclosedPrefixes(names) && Combine(names).error.prefix !in KeysOf(names)
  {
    var p := FailingPrefix(names);
    GroupedShape(names);
    ListedCovered(names);
  }

  /** A successful combination leaves no unclosed name's prefix unkeyed. */
  lemma KeyedWhenSucceeding(names: seq<string>)
    requires Grouped(names).Success? && Combine(names).Success?
    ensures forall p :: p in UnclosedPrefixes(names) ==> p in KeysOf(names)
  {
    var g := Grouped(names).value;
    var d := Distinct(g.prefixes);
    var xs := RenderEach(d, g.suffixes);
    assert Collect(xs).Success?;
    GroupedShape(names);
    ListedCovered(names);
    RenderEachAt(d, g.suffixes);
    CollectShape(xs);
    DistinctMembers(g.prefixes);
    forall p | p in UnclosedPrefixes(names) ensures p in KeysOf(names) {
      var i := PositionOf(d, p);
      assert xs[i].Success?;
    }
  }

  /** Once the first loop has passed, the combination fails exactly when some name with `(` and no `)` has a prefix
      under which no name of the group is filed, and the failure is that prefix's lookup. */
  lemma MissingPrefixIff(names: seq<string>)
    requires Grouped(names).Success?
    ensures Combine(names).Failure? <==> exists p :: p in UnclosedPrefixes(names) && p !in KeysOf(names)
    ensures Combine(names).Failure? ==>
              && Combine(names).error.MissingPrefix?
              && Combine(names).error.prefix in UnclosedPrefixes(names)
              && Combine(names).error.prefix !in KeysOf(names)
  {
    if Combine(names).Failure? {
      MissingWhenFailing(names);
    } else {
      KeyedWhenSucceeding(names);
    }
  }

  /** The first loop on an unclosed name and then its prefix as a plain name: two keys, the prefix listed twice. */
  lemma GroupedUnclosedPlain(a: string, p: string)
    requires Shape(a) == Unclosed(p) && Shape(p) == Plain
    ensures Grouped([a, p]) == Success(Groups(map[a := [""], p := [""]], [p, p]))
  {
    UnclosedLonger(a, p);
    GroupedTwo(a, p);
    GroupedOne(a);
    GroupedUnclosed(a, p);
    var m := map[a := [""]];
    assert Entry(m, p) == [] && [p] + [p] == [p, p];
  }

  /** A prefix whose only suffix is the empty one renders as itself. */
  lemma RenderEmptyOnly(p: string, m: map<string, seq<string>>)
    requires p in m && m[p] == [""]
    ensures RenderOne(p, m) == Success(p)
  {
    assert CountEmpty([""]) == 1;
  }

  /** An unclosed name does not fail when a plain name equal to its prefix is filed beside it: the pair gives the prefix. */
  lemma UnclosedBesidePlain(a: string, p: string)
    requires Shape(a) == Unclosed(p) && Shape(p) == Plain
    ensures Combine([a, p]) == Success(p)
  {
    GroupedUnclosedPlain(a, p);
    DistinctTwice(p);
    CombineOnePrefix([a, p], p);
    RenderEmptyOnly(p, map[a := [""], p := [""]]);
  }

  /** `"m (x"` beside `"m"` gives `"m"`: an unclosed name fails only when no other name is filed under its prefix. */
  lemma UnclosedHidden()
    ensures Combine(["m (x", "m"]) == Success("m")
  {
    assert "m" + " (" + "x" == "m (x";
    ShapeOfUnclosed("m", "x");
    assert Shape("m") == Plain by { assert '(' !in "m"; }
    UnclosedBesidePlain("m (x", "m");
  }

  /** Where `p (s)tail` splits when `tail` holds no `(`. */
  lemma SplitWithTail(p: string, s: string, tail: string)
    requires '(' !in s && '(' !in tail
    ensures var name := p + " (" + s + ")" + tail;
            RFindChar(name, '(') == Some(|p| + 1) && name[..|p| + 1] == p + " " && name[|p| + 2..] == s + ")" + tail
  {
    var name := p + " (" + s + ")" + tail;
    assert name[|p| + 2..] == s + ")" + tail && name[|p| + 1] == '(';
    RFindCharAt(name, '(', |p| + 1);
    assert name[..|p| + 1] == p + " ";
  }

  /** The first `)` of `s)tail`, when `s` holds none, is the one after `s`. */
  lemma CloseParenTail(s: string, tail: string)
    requires ')' !in s
    ensures FindChar(s + ")" + tail, ')') == Some(|s|) && (s + ")" + tail)[..|s|] == s
  {
    var rest := s + ")" + tail;
    assert rest[|s|] == ')' && rest[..|s|] == s;
  }

  /** Text after the closing parenthesis is ignored when it holds no `(`. */
  lemma ShapeIgnoresTail(p: string, s: string, tail: string)
    requires p != [] && !RustWhitespace(p[0]) && !RustWhitespace(p[|p| - 1])
    requires '(' !in s && ')' !in s && '(' !in tail
    ensures Shape(p + " (" + s + ")" + tail) == Suffixed(p, s)
  {
    SplitWithTail(p, s, tail);
    TrimTrailingSpace(p);
    CloseParenTail(s, tail);
  }

  /** A prefix with one non-empty suffix renders as `p (t)`. */
  lemma RenderSingle(p: string, t: string)
    requires t != ""
    ensures RenderOne(p, map[p := [t]]) == Success(p + " (" + t + ")")
  {
    assert CountEmpty([t]) == 0 by { CountEmptyAbsent([t]); }
    assert Join([t], "|") == t;
  }

  /** A combined name is not a fixed point: `"m (a|b), n"` is read as the single name `m` with suffix `a|b`, and the
      `n` after it is lost. */
  lemma RecombineDropsTail()
    ensures Combine(["m (a|b), n"]) == Success("m (a|b)")
  {
    var a := "m (a|b), n";
    assert "m" + " (" + "a|b" + ")" == "m (a|b)";
    assert "m" + " (" + "a|b" + ")" + ", n" == a;
    ShapeIgnoresTail("m", "a|b", ", n");
    GroupedFirst(a, "m", "a|b");
    assert Grouped([a]) == Success(Groups(map["m" := ["a|b"]], ["m"]));
    DistinctOne("m");
    CombineOnePrefix([a], "m");
    RenderSingle("m", "a|b");
    assert Combine([a]) == Success("m" + " (" + "a|b" + ")");
  }

}

/**
 * What the suffix map of `combine_model_names` holds after its first loop, and
 * exactly when that loop's duplicate assertions fire.
 */
module ModelNameRepeats {
  import opened Wrappers
  import opened Text
  import opened Sorting
  import opened ModelNames

  /** The suffix the first loop files a name with: its suffix when it has one, `""` otherwise. */
  function SuffixOf(name: string): string
  {
    match Shape(name)
    case Suffixed(_, suffix) => suffix
    case _ => ""
  }

  /** The suffixes of the names filed under the key `p`, in input order. */
  function FiledUnder(names: seq<string>, p: string): seq<string>
  {
    if names == [] then []
    else
      var x := names[|names| - 1];
      FiledUnder(names[..|names| - 1], p) + (if KeyOf(x) == p then [SuffixOf(x)] else [])
  }

  /** After a successful first loop, the list stored under every key is the suffixes of the names filed under it, in order. */
  lemma {:induction false} GroupedFiled(names: seq<string>)
    requires Grouped(names).Success?
    ensures forall p :: Entry(Grouped(names).value.suffixes, p) == FiledUnder(names, p)
  {
    if names != [] {
      var front := names[..|names| - 1];
      var x := names[|names| - 1];
      GroupedFiled(front);
      var g := Grouped(front).value;
      assert Grouped(names) == AddName(g, x);
      forall p ensures Entry(Grouped(names).value.suffixes, p) == FiledUnder(names, p) {
        assert FiledUnder(names, p) == FiledUnder(front, p) + (if KeyOf(x) == p then [SuffixOf(x)] else []);
        match Shape(x) {
          case Suffixed(_, _) =>
          case Unclosed(_) =>
          case Plain =>
        }
      }
    }
  }

  lemma {:induction false} FiledUnderHas(names: seq<string>, i: nat)
    requires i < |names|
    ensures SuffixOf(names[i]) in FiledUnder(names, KeyOf(names[i]))
  {
    var front := names[..|names| - 1];
    if i < |names| - 1 {
      assert front[i] == names[i];
      FiledUnderHas(front, i);
    }
  }

  lemma {:induction false} FiledUnderFrom(names: seq<string>, p: string, s: string) returns (i: nat)
    requires s in FiledUnder(names, p)
    ensures i < |names| && KeyOf(names[i]) == p && SuffixOf(names[i]) == s
  {
    var front := names[..|names| - 1];
    if s in FiledUnder(front, p) {
      i := FiledUnderFrom(front, p, s);
      assert front[i] == names[i];
    } else {
      i := |names| - 1;
    }
  }

  /** The name at `j` repeats the one at `i`: both are filed under one key, and when the later one has a suffix, the
      earlier one was filed with the same suffix. A later plain or unclosed name repeats any earlier name filed
      under it, since its entry must still be empty. */
  predicate RepeatAt(names: seq<string>, i: nat, j: nat)
  {
    && i < j < |names|
    && KeyOf(names[i]) == KeyOf(names[j])
    && (Shape(names[j]).Suffixed? ==> SuffixOf(names[i]) == SuffixOf(names[j]))
  }

  /** A repeat anywhere in the list makes the first loop, and so the combination, fail. */
  lemma RepeatFails(names: seq<string>, i: nat, j: nat)
    requires RepeatAt(names, i, j)
    ensures Grouped(names).Failure? && Combine(names).Failure?
  {
    var front := names[..j];
    if Grouped(front).Failure? {
      GroupedFailure(names, j);
    } else {
      assert front[i] == names[i];
      RepeatOfEarlier(front, i, names[j]);
      assert names[..j + 1][..j] == front && names[..j + 1][j] == names[j];
      GroupedFailure(names, j + 1);
    }
  }

  /** One turn of the first loop on a name that repeats the earlier name at `i` fails. */
  lemma RepeatOfEarlier(front: seq<string>, i: nat, x: string)
    requires Grouped(front).Success? && i < |front| && KeyOf(front[i]) == KeyOf(x)
    requires Shape(x).Suffixed? ==> SuffixOf(front[i]) == SuffixOf(x)
    ensures AddName(Grouped(front).value, x).Failure?
  {
    FiledUnderHas(front, i);
    GroupedFiled(front);
    assert SuffixOf(front[i]) in Entry(Grouped(front).value.suffixes, KeyOf(x));
  }

  /** A failing first loop has met a repeat. */
  lemma {:induction false} FailureRepeats(names: seq<string>) returns (i: nat, j: nat)
    requires Grouped(names).Failure?
    ensures RepeatAt(names, i, j)
  {
    var front := names[..|names| - 1];
    var x := names[|names| - 1];
    if Grouped(front).Failure? {
      i, j := FailureRepeats(front);
      assert front[i] == names[i] && front[j] == names[j];
    } else {
      var g := Grouped(front).value;
      assert AddName(g, x).Failure?;
      GroupedFiled(front);
      j := |names| - 1;
      match Shape(x) {
        case Suffixed(p, s) =>
          i := FiledUnderFrom(front, p, s);
        case Unclosed(_) =>
          i := FiledUnderFrom(front, x, FiledUnder(front, x)[0]);
        case Plain =>
          i := FiledUnderFrom(front, x, FiledUnder(front, x)[0]);
      }
      assert front[i] == names[i];
    }
  }

  /** The first loop fails exactly when some name repeats an earlier one. */
  lemma GroupedFailsIffRepeat(names: seq<string>)
    ensures Grouped(names).Failure? <==> exists i, j :: RepeatAt(names, i, j)
  {
    if Grouped(names).Failure? {
      var i, j := FailureRepeats(names);
    }
    if exists i, j :: RepeatAt(names, i, j) {
      var i, j :| RepeatAt(names, i, j);
      RepeatFails(names, i, j);
    }
  }

  /** The same suffix for one prefix at any two positions fails the assertion. */
  lemma RepeatedSuffixAnywhere(names: seq<string>, i: nat, j: nat, p: string, s: string)
    requires i < j < |names| && Shape(names[i]) == Suffixed(p, s) && Shape(names[j]) == Suffixed(p, s)
    ensures Combine(names).Failure?
    ensures Combine(names).error.DuplicateSuffix? || Combine(names).error.DuplicateEmptySuffix?
  {
    RepeatFails(names, i, j);
    GroupedErrors(names);
  }

  /** The same plain (or unclosed) name at any two positions fails the assertion. */
  lemma RepeatedPlainAnywhere(names: seq<string>, i: nat, j: nat)
    requires i < j < |names| && names[i] == names[j] && !Shape(names[i]).Suffixed?
    ensures Combine(names).Failure?
    ensures Combine(names).error.DuplicateSuffix? || Combine(names).error.DuplicateEmptySuffix?
  {
    RepeatFails(names, i, j);
    GroupedErrors(names);
  }

  /** When every listed prefix is `p`, the name is `p` rendered with the suffixes filed under it, in order:
      `p` alone for a single empty suffix, `p (s1|s2|…)` otherwise, and the failed lookup when nothing is filed
      under `p`. */
  lemma CombineFiled(names: seq<string>, p: string)
    requires Grouped(names).Success? && Distinct(Grouped(names).value.prefixes) == [p]
    ensures FiledUnder(names, p) == [] ==> Combine(names) == Failure(MissingPrefix(p))
    ensures FiledUnder(names, p) == [""] ==> Combine(names) == Success(p)
    ensures FiledUnder(names, p) != [] && FiledUnder(names, p) != [""] ==>
              Combine(names) == Success(p + " (" + Join(FiledUnder(names, p), "|") + ")")
  {
    var m := Grouped(names).value.suffixes;
    CombineOnePrefix(names, p);
    GroupedFiled(names);
    GroupedConsistent(names);
    assert Entry(m, p) == FiledUnder(names, p);
    if p in m {
      CountEmptyAtMostOne(m[p]);
    }
  }
}
