/**
 * A stable sort by a comparator, the model of Rust's `slice::sort_by` and
 * `slice::sort_by_key` (both stable). `leq(a, b)` means "a is ordered no later
 * than b", i.e. the comparator does not return `Greater` for (a, b).
 * Stable insertion sort: each element goes after every element it does not
 * precede strictly.
 */
module Sorting {

  ghost predicate Transitive<T(!new)>(leq: (T, T) -> bool)
  {
    forall a, b, c :: leq(a, b) && leq(b, c) ==> leq(a, c)
  }

  ghost predicate TotalPreorder<T(!new)>(leq: (T, T) -> bool)
  {
    (forall a, b :: leq(a, b) || leq(b, a)) && Transitive(leq)
  }

  ghost predicate SortedBy<T>(s: seq<T>, leq: (T, T) -> bool)
  {
    forall i, j :: 0 <= i < j < |s| ==> leq(s[i], s[j])
  }

  /** Insert `x` after the longest prefix of elements ordered no later than `x`. */
  function Insert<T>(x: T, s: seq<T>, leq: (T, T) -> bool): (r: seq<T>)
    ensures |r| == |s| + 1
    ensures multiset(r) == multiset(s) + multiset{x}
  {
    if s == [] then [x]
    else if leq(s[0], x) then
      assert s == [s[0]] + s[1..];
      [s[0]] + Insert(x, s[1..], leq)
    else [x] + s
  }

  /** `s.sort_by(cmp)` */
  function Sort<T>(s: seq<T>, leq: (T, T) -> bool): (r: seq<T>)
    ensures |r| == |s|
    ensures multiset(r) == multiset(s)
  {
    if s == [] then []
    else
      assert s == s[..|s| - 1] + [s[|s| - 1]];
      Insert(s[|s| - 1], Sort(s[..|s| - 1], leq), leq)
  }

  lemma SortedTail<T>(s: seq<T>, leq: (T, T) -> bool)
    requires s != [] && SortedBy(s, leq)
    ensures SortedBy(s[1..], leq)
  {
    var t := s[1..];
    forall i, j | 0 <= i < j < |t| ensures leq(t[i], t[j]) { assert leq(s[i + 1], s[j + 1]); }
  }

  /** Putting in front of a sorted sequence an element that precedes all of it keeps it sorted. */
  lemma ConsSorted<T>(h: T, s: seq<T>, leq: (T, T) -> bool)
    requires SortedBy(s, leq) && forall i :: 0 <= i < |s| ==> leq(h, s[i])
    ensures SortedBy([h] + s, leq)
  {
    var r := [h] + s;
    forall i, j | 0 <= i < j < |r| ensures leq(r[i], r[j]) {
      assert r[j] == s[j - 1];
      if i > 0 { assert r[i] == s[i - 1]; }
    }
  }

  /** A lower bound of `x` and of every element of `s` bounds every element of `Insert(x, s)`. */
  lemma InsertBounded<T>(x: T, s: seq<T>, leq: (T, T) -> bool, h: T)
    requires leq(h, x) && forall i :: 0 <= i < |s| ==> leq(h, s[i])
    ensures forall i :: 0 <= i < |Insert(x, s, leq)| ==> leq(h, Insert(x, s, leq)[i])
  {
    var r := Insert(x, s, leq);
    forall i | 0 <= i < |r| ensures leq(h, r[i]) {
      assert r[i] in multiset(r);
      assert r[i] in multiset(s) + multiset{x};
      if r[i] in multiset(s) {
        var k :| 0 <= k < |s| && s[k] == r[i];
      }
    }
  }

  lemma {:induction false} InsertSorted<T(!new)>(x: T, s: seq<T>, leq: (T, T) -> bool)
    requires TotalPreorder(leq) && SortedBy(s, leq)
    ensures SortedBy(Insert(x, s, leq), leq)
  {
    if s != [] && leq(s[0], x) {
      var t := s[1..];
      SortedTail(s, leq);
      InsertSorted(x, t, leq);
      forall i | 0 <= i < |t| ensures leq(s[0], t[i]) { assert t[i] == s[i + 1]; }
      InsertBounded(x, t, leq, s[0]);
      ConsSorted(s[0], Insert(x, t, leq), leq);
    } else if s != [] {
      assert leq(x, s[0]);
      ConsSorted(x, s, leq);
    }
  }

  /** The sort yields an ordered permutation of its input. */
  lemma {:induction false} SortSorted<T(!new)>(s: seq<T>, leq: (T, T) -> bool)
    requires TotalPreorder(leq)
    ensures SortedBy(Sort(s, leq), leq)
  {
    if s != [] {
      SortSorted(s[..|s| - 1], leq);
      InsertSorted(s[|s| - 1], Sort(s[..|s| - 1], leq), leq);
    }
  }

  // ---------------------------------------------------------------------------
  // Stability: the elements of one equivalence class keep their input order.

  ghost predicate Equiv<T>(leq: (T, T) -> bool, a: T, b: T)
  {
    leq(a, b) && leq(b, a)
  }

  /** The elements of `s` equivalent to `e`, in order. */
  ghost function ClassOf<T>(s: seq<T>, leq: (T, T) -> bool, e: T): seq<T>
  {
    if s == [] then [] else (if Equiv(leq, s[0], e) then [s[0]] else []) + ClassOf(s[1..], leq, e)
  }

  lemma {:induction false} ClassOfAppend<T>(a: seq<T>, b: seq<T>, leq: (T, T) -> bool, e: T)
    ensures ClassOf(a + b, leq, e) == ClassOf(a, leq, e) + ClassOf(b, leq, e)
  {
    if a != [] {
      assert (a + b)[1..] == a[1..] + b;
      ClassOfAppend(a[1..], b, leq, e);
    } else {
      assert a + b == b;
    }
  }

  lemma AppendAssoc<T>(a: seq<T>, b: seq<T>, c: seq<T>)
    ensures a + (b + c) == (a + b) + c
  {
  }

  lemma ClassOfCons<T>(h: T, t: seq<T>, leq: (T, T) -> bool, e: T)
    ensures ClassOf([h] + t, leq, e) == (if Equiv(leq, h, e) then [h] else []) + ClassOf(t, leq, e)
  {
    assert ([h] + t)[1..] == t;
  }

  lemma {:induction false} InsertClass<T(!new)>(x: T, s: seq<T>, leq: (T, T) -> bool, e: T)
    requires Transitive(leq) && SortedBy(s, leq)
    ensures ClassOf(Insert(x, s, leq), leq, e)
            == ClassOf(s, leq, e) + (if Equiv(leq, x, e) then [x] else [])
  {
    if s == [] {
      ClassOfOne(x, leq, e);
    } else if leq(s[0], x) {
      var t := s[1..];
      SortedTail(s, leq);
      InsertClass(x, t, leq, e);
      assert Insert(x, s, leq) == [s[0]] + Insert(x, t, leq);
      ClassOfCons(s[0], Insert(x, t, leq), leq, e);
      assert s == [s[0]] + t;
      ClassOfCons(s[0], t, leq, e);
      AppendAssoc(if Equiv(leq, s[0], e) then [s[0]] else [], ClassOf(t, leq, e), if Equiv(leq, x, e) then [x] else []);
    } else {
      // every element of s comes strictly after x, so none shares x's class when x is in e's
      assert Insert(x, s, leq) == [x] + s;
      ClassOfCons(x, s, leq, e);
      if Equiv(leq, x, e) {
        NoneEquiv(s, leq, e, x);
      }
    }
  }

  lemma {:induction false} NoneEquiv<T(!new)>(s: seq<T>, leq: (T, T) -> bool, e: T, x: T)
    requires Transitive(leq) && SortedBy(s, leq)
    requires s != [] && !leq(s[0], x) && Equiv(leq, x, e)
    ensures ClassOf(s, leq, e) == []
  {
    var t := s[1..];
    assert !Equiv(leq, s[0], e);
    if t != [] {
      assert leq(s[0], t[0]);
      assert SortedBy(t, leq) by {
        forall i, j | 0 <= i < j < |t| ensures leq(t[i], t[j]) { assert leq(s[i + 1], s[j + 1]); }
      }
      NoneEquiv(t, leq, e, x);
    }
  }

  lemma ClassOfOne<T>(x: T, leq: (T, T) -> bool, e: T)
    ensures ClassOf([x], leq, e) == if Equiv(leq, x, e) then [x] else []
  {
    assert ClassOf([x], leq, e) == (if Equiv(leq, x, e) then [x] else []) + ClassOf([], leq, e);
  }

  /** `sort_by` is stable: each equivalence class keeps its input order. */
  lemma {:induction false} SortStable<T(!new)>(s: seq<T>, leq: (T, T) -> bool, e: T)
    requires TotalPreorder(leq)
    ensures ClassOf(Sort(s, leq), leq, e) == ClassOf(s, leq, e)
  {
    if s != [] {
      var p := s[..|s| - 1];
      var x := s[|s| - 1];
      assert s == p + [x];
      var sp := Sort(p, leq);
      assert Sort(s, leq) == Insert(x, sp, leq);
      SortStable(p, leq, e);
      SortSorted(p, leq);
      InsertClass(x, sp, leq, e);
      ClassOfOne(x, leq, e);
      ClassOfAppend(p, [x], leq, e);
    }
  }

  // ---------------------------------------------------------------------------
  // First occurrences: the elements a `HashSet::insert` filter lets through, in order.

  predicate NoDuplicates<T(==)>(s: seq<T>)
  {
    forall i, j :: 0 <= i < j < |s| ==> s[i] != s[j]
  }

  /** Each element of `s` at its first occurrence. */
  function Distinct<T(==)>(s: seq<T>): (d: seq<T>)
    ensures |d| <= |s|
  {
    if s == [] then []
    else
      var d := Distinct(s[..|s| - 1]);
      if s[|s| - 1] in d then d else d + [s[|s| - 1]]
  }

  /** `Distinct(s)` holds the elements of `s`, each once. */
  lemma {:induction false} DistinctMembers<T>(s: seq<T>)
    ensures forall x :: x in Distinct(s) <==> x in s
    ensures NoDuplicates(Distinct(s))
  {
    if s != [] {
      var p := s[..|s| - 1];
      DistinctMembers(p);
      assert s == p + [s[|s| - 1]];
    }
  }

  /** One more element of `s`: a repeat leaves the first occurrences alone, a new one is appended. */
  lemma DistinctPrefixStep<T>(s: seq<T>, j: nat)
    requires j < |s|
    ensures s[j] in s[..j] ==> Distinct(s[..j + 1]) == Distinct(s[..j])
    ensures s[j] !in s[..j] ==> Distinct(s[..j + 1]) == Distinct(s[..j]) + [s[j]]
  {
    assert s[..j + 1][..j] == s[..j];
    DistinctMembers(s[..j]);
  }

  /** A position of an element of `s`. */
  lemma PositionOf<T>(s: seq<T>, x: T) returns (j: nat)
    requires x in s
    ensures j < |s| && s[j] == x
  {
    j :| 0 <= j < |s| && s[j] == x;
  }

  /** A set holding the elements of `s[..j]` (a `HashSet` filled along `s`) after one more step. */
  lemma SeenPrefixStep<T>(s: seq<T>, j: nat, seen: set<T>)
    requires j < |s| && forall x :: x in seen <==> x in s[..j]
    ensures forall x :: x in seen + {s[j]} <==> x in s[..j + 1]
    ensures s[j] in seen <==> s[j] in s[..j]
  {
    assert s[..j + 1] == s[..j] + [s[j]];
  }

  /** Dropping the last element of a sequence without repetitions keeps it so, and the
      dropped element does not occur in the rest. */
  lemma NoDuplicatesFront<T>(s: seq<T>)
    requires s != [] && NoDuplicates(s)
    ensures NoDuplicates(s[..|s| - 1]) && s[|s| - 1] !in s[..|s| - 1]
  {
    var front := s[..|s| - 1];
    assert forall k :: 0 <= k < |front| ==> front[k] == s[k];
  }

  /** A sequence without repetitions is its own first occurrences. */
  lemma {:induction false} DistinctOfDistinct<T>(s: seq<T>)
    requires NoDuplicates(s)
    ensures Distinct(s) == s
  {
    if s != [] {
      var p := s[..|s| - 1];
      DistinctOfDistinct(p);
      assert s[|s| - 1] !in p;
      assert s == p + [s[|s| - 1]];
    }
  }

  /** An element occurs at most once in a sequence without repetitions. */
  lemma {:induction false} NoDuplicatesCount<T>(s: seq<T>, x: T)
    requires NoDuplicates(s)
    ensures multiset(s)[x] <= 1
  {
    if s != [] {
      var p := s[..|s| - 1];
      assert s == p + [s[|s| - 1]];
      assert forall i :: 0 <= i < |p| ==> p[i] == s[i];
      NoDuplicatesCount(p, x);
      assert s[|s| - 1] !in p;
    }
  }

  /** A permutation of a sequence without repetitions has none either. */
  lemma PermutationNoDuplicates<T>(s: seq<T>, t: seq<T>)
    requires multiset(s) == multiset(t) && NoDuplicates(s)
    ensures NoDuplicates(t)
  {
    forall i, j | 0 <= i < j < |t| ensures t[i] != t[j] {
      var x := t[i];
      assert t == t[..j] + [t[j]] + t[j + 1..];
      assert x in t[..j];
      assert multiset(t)[x] >= 1 + (if t[j] == x then 1 else 0);
      NoDuplicatesCount(s, x);
    }
  }
}
