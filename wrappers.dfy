/** Failure-compatible result types shared by the whole model. */
module Wrappers {

  datatype Option<+T> = None | Some(value: T) {
    function GetOr(default: T): T { if Some? then value else default }
  }

  /** `Failure` stands for an `Err(..)` return or for a Rust panic that aborts the run. */
  datatype Result<+T, +E> = Success(value: T) | Failure(error: E)

  /** `iter.collect::<Result<Vec<_>, _>>()` on results produced in order: the values when
      every step succeeds, otherwise the first error. */
  function Collect<T, E>(xs: seq<Result<T, E>>): Result<seq<T>, E>
  {
    if xs == [] then Success([])
    else
      match Collect(xs[..|xs| - 1])
      case Failure(e) => Failure(e)
      case Success(vs) =>
        match xs[|xs| - 1]
        case Failure(e) => Failure(e)
        case Success(v) => Success(vs + [v])
  }

  lemma CollectStep<T, E>(xs: seq<Result<T, E>>, k: nat)
    requires k < |xs| && Collect(xs[..k]).Success?
    ensures Collect(xs[..k + 1]) == match xs[k]
                                    case Failure(e) => Failure(e)
                                    case Success(v) => Success(Collect(xs[..k]).value + [v])
  {
    assert xs[..k + 1][..k] == xs[..k];
  }

  /** Collecting one result gives that result's value as a one-element sequence, or its error. */
  lemma CollectOne<T, E>(x: Result<T, E>)
    ensures Collect([x]) == match x
                            case Failure(e) => Failure(e)
                            case Success(v) => Success([v])
  {
    var none: seq<Result<T, E>> := [];
    var noValues: seq<T> := [];
    assert [x][..0] == none;
    assert Collect(none) == Success(noValues);
    if x.Success? {
      assert noValues + [x.value] == [x.value];
    }
  }

  lemma {:induction false} CollectFailure<T, E>(xs: seq<Result<T, E>>, k: nat)
    requires k <= |xs| && Collect(xs[..k]).Failure?
    ensures Collect(xs) == Collect(xs[..k])
    decreases |xs| - k
  {
    if k < |xs| {
      assert xs[..k + 1][..k] == xs[..k];
      CollectFailure(xs, k + 1);
    } else {
      assert xs[..k] == xs;
    }
  }

  /** A collected success holds exactly the values of the steps, in order; a failure is the
      error of a failing step all of whose predecessors succeeded. */
  lemma {:induction false} CollectShape<T, E>(xs: seq<Result<T, E>>)
    ensures Collect(xs).Success? <==> forall k :: 0 <= k < |xs| ==> xs[k].Success?
    ensures Collect(xs).Success? ==>
              |Collect(xs).value| == |xs| && forall k :: 0 <= k < |xs| ==> xs[k] == Success(Collect(xs).value[k])
    ensures Collect(xs).Failure? ==>
              exists k :: 0 <= k < |xs| && xs[k] == Failure(Collect(xs).error)
                          && forall j :: 0 <= j < k ==> xs[j].Success?
  {
    if xs != [] {
      var front := xs[..|xs| - 1];
      assert forall k :: 0 <= k < |front| ==> front[k] == xs[k];
      CollectShape(front);
      match Collect(front)
      case Failure(e) =>
        var k :| 0 <= k < |front| && front[k] == Failure(e) && forall j :: 0 <= j < k ==> front[j].Success?;
        assert xs[k] == Failure(e);
      case Success(vs) =>
        var r := Collect(xs);
        if r.Success? {
          assert r.value == vs + [xs[|xs| - 1].value];
          forall k | 0 <= k < |xs| ensures xs[k] == Success(r.value[k]) {
            if k < |front| { assert r.value[k] == vs[k]; }
          }
        } else {
          assert xs[|xs| - 1] == Failure(r.error);
        }
    }
  }

  /** `f` applied to every element of `s`, in order (`iter().map(f)`). */
  function MapSeq<A, B>(f: A -> B, s: seq<A>): (r: seq<B>)
    ensures |r| == |s|
  {
    if s == [] then [] else MapSeq(f, s[..|s| - 1]) + [f(s[|s| - 1])]
  }

  lemma {:induction false} MapSeqAt<A, B>(f: A -> B, s: seq<A>, i: nat)
    requires i < |s|
    ensures MapSeq(f, s)[i] == f(s[i])
  {
    if i < |s| - 1 {
      MapSeqAt(f, s[..|s| - 1], i);
    }
  }

  lemma MapSeqSnoc<A, B>(f: A -> B, s: seq<A>, x: A)
    ensures MapSeq(f, s + [x]) == MapSeq(f, s) + [f(x)]
  {
    assert (s + [x])[..|s|] == s;
  }

  /** The values of a sequence of options, or `None` as soon as one of them is `None`. */
  function AllSome<T>(xs: seq<Option<T>>): Option<seq<T>>
  {
    if xs == [] then Some([])
    else
      var front := AllSome(xs[..|xs| - 1]);
      if front.None? || xs[|xs| - 1].None? then None else Some(front.value + [xs[|xs| - 1].value])
  }

  lemma {:induction false} AllSomeShape<T>(xs: seq<Option<T>>)
    ensures AllSome(xs).Some? <==> forall k :: 0 <= k < |xs| ==> xs[k].Some?
    ensures AllSome(xs).Some? ==>
              |AllSome(xs).value| == |xs| && forall k :: 0 <= k < |xs| ==> xs[k] == Some(AllSome(xs).value[k])
  {
    if xs != [] {
      var front := xs[..|xs| - 1];
      assert forall k :: 0 <= k < |front| ==> front[k] == xs[k];
      AllSomeShape(front);
    }
  }

  lemma AllSomeSnoc<T>(xs: seq<Option<T>>, x: Option<T>)
    ensures AllSome(xs + [x]) == if AllSome(xs).None? || x.None? then None else Some(AllSome(xs).value + [x.value])
  {
    assert (xs + [x])[..|xs|] == xs;
  }
}
