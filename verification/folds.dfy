/**
 * Sequential folds standing in for batches of independent tasks: each task
 * maps one input to a list of results, and the batch joins those lists.
 */
module Folds {

  /** The results of `f` on each element of `xs`, joined in order. */
  function FlatMap<T, U>(f: T -> seq<U>, xs: seq<T>): seq<U> {
    if |xs| == 0 then [] else f(xs[0]) + FlatMap(f, xs[1..])
  }

  /** Running two batches one after the other joins their results. */
  lemma {:induction false} FlatMapAppend<T, U>(f: T -> seq<U>, a: seq<T>, b: seq<T>)
    ensures FlatMap(f, a + b) == FlatMap(f, a) + FlatMap(f, b)
    decreases |a|
  {
    if |a| > 0 {
      assert (a + b)[1..] == a[1..] + b;
      FlatMapAppend(f, a[1..], b);
    } else {
      assert a + b == b;
    }
  }

  /** A batch split around its `k`-th task yields the results before it, the task's own, and those after it. */
  lemma {:induction false} FlatMapSplitAt<T, U>(f: T -> seq<U>, b: seq<T>, k: nat)
    requires k < |b|
    ensures FlatMap(f, b) == FlatMap(f, b[..k]) + f(b[k]) + FlatMap(f, b[k + 1..])
    decreases k
  {
    if k == 0 {
      assert b[..0] == [];
    } else {
      var tail := b[1..];
      FlatMapSplitAt(f, tail, k - 1);
      assert tail[..k - 1] == b[..k][1..] && tail[k - 1] == b[k] && tail[k..] == b[k + 1..];
      assert FlatMap(f, b[..k]) == f(b[0]) + FlatMap(f, tail[..k - 1]);
    }
  }

  /** A result comes out of the batch exactly when some task produced it. */
  lemma {:induction false} FlatMapMembers<T, U>(f: T -> seq<U>, xs: seq<T>, y: U)
    ensures y in FlatMap(f, xs) <==> exists i :: 0 <= i < |xs| && y in f(xs[i])
    decreases |xs|
  {
    if |xs| > 0 {
      FlatMapMembers(f, xs[1..], y);
      if exists i :: 0 <= i < |xs| && y in f(xs[i]) {
        var i :| 0 <= i < |xs| && y in f(xs[i]);
        if i > 0 {
          assert xs[1..][i - 1] == xs[i];
        }
      }
      if y in FlatMap(f, xs[1..]) {
        var i :| 0 <= i < |xs[1..]| && y in f(xs[1..][i]);
        assert xs[1..][i] == xs[i + 1];
      }
    }
  }
}
