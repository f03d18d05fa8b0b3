/**
 * Several tasks appending to one shared vector. `scanPage` calls
 * `list.push_back` from every `scanMap` task with no lock, while
 * `filterByChunk` takes `filterMutex` around its `push_back`.
 *
 * An unsynchronised `push_back` is modelled by its two steps: reading the
 * size (the slot the element will go to) and storing the element there,
 * which makes the size one past that slot. Under the lock both steps happen
 * at once, so every element lands at the end.
 */
module SharedAppend {
  import opened Folds

  /** The store step of `push_back`: `x` goes into `slot`, which the task read as the size earlier. */
  function StoreAt<T>(list: seq<T>, slot: nat, x: T): (r: seq<T>)
    requires slot <= |list|
    ensures |r| == slot + 1 && r[..slot] == list[..slot] && r[slot] == x
  {
    list[..slot] + [x]
  }

  /**
   * Two tasks both read the size before either stores: the second store
   * lands on the first, and the first task's element is lost.
   */
  lemma RacyAppendsLoseOne<T>(list: seq<T>, x: T, y: T)
    ensures StoreAt(StoreAt(list, |list|, x), |list|, y) == list + [y]
    ensures x !in list && x != y ==> x !in StoreAt(StoreAt(list, |list|, x), |list|, y)
  {
    var once := StoreAt(list, |list|, x);
    assert once[..|list|] == list;
  }

  /** `push_back` under the lock: the size is read and the element stored in one step, at the end. */
  function LockedPush<T>(list: seq<T>, x: T): (r: seq<T>)
    ensures |r| == |list| + 1 && r[..|list|] == list && r[|list|] == x
  {
    StoreAt(list, |list|, x)
  }

  /** All the elements the tasks still have to push, task by task. */
  function Joined<T>(pending: seq<seq<T>>): seq<T> {
    FlatMap((s: seq<T>) => s, pending)
  }

  /** Every task has pushed all of its elements. */
  predicate Finished<T>(pending: seq<seq<T>>) {
    forall t :: 0 <= t < |pending| ==> pending[t] == []
  }

  /** The results the tasks of a batch would push: `f` of each input. */
  function Results<T, U>(f: T -> seq<U>, xs: seq<T>): (r: seq<seq<U>>)
    ensures |r| == |xs| && forall i :: 0 <= i < |xs| ==> r[i] == f(xs[i])
  {
    seq(|xs|, i requires 0 <= i < |xs| => f(xs[i]))
  }

  /**
   * Locked pushes, interleaved element by element: at each step of
   * `schedule` the named task pushes its next element, if it has one.
   * Returns the shared list and what each task has left.
   */
  function Interleave<T>(pending: seq<seq<T>>, schedule: seq<nat>, list: seq<T>): (r: (seq<T>, seq<seq<T>>))
    ensures |r.1| == |pending|
    ensures |list| <= |r.0| && r.0[..|list|] == list
    decreases |schedule|
  {
    if |schedule| == 0 then (list, pending)
    else
      var t := schedule[0];
      if t < |pending| && |pending[t]| > 0 then
        Interleave(pending[t := pending[t][1..]], schedule[1..], LockedPush(list, pending[t][0]))
      else
        Interleave(pending, schedule[1..], list)
  }

  /** Taking the first element off task `t`'s pending results removes exactly that element from what is left to push. */
  lemma JoinedTake<T>(pending: seq<seq<T>>, t: nat)
    requires t < |pending| && |pending[t]| > 0
    ensures multiset(Joined(pending)) == multiset{pending[t][0]} + multiset(Joined(pending[t := pending[t][1..]]))
  {
    var id := (s: seq<T>) => s;
    var after := pending[t := pending[t][1..]];
    FlatMapSplitAt(id, pending, t);
    FlatMapSplitAt(id, after, t);
    assert after[..t] == pending[..t] && after[t + 1..] == pending[t + 1..];
    var p := pending[t];
    assert p == [p[0]] + p[1..];
    assert multiset(p) == multiset{p[0]} + multiset(p[1..]);
    var front, back := Joined(pending[..t]), Joined(pending[t + 1..]);
    assert multiset(front + p + back) == multiset(front) + multiset(p) + multiset(back);
    assert multiset(front + p[1..] + back) == multiset(front) + multiset(p[1..]) + multiset(back);
  }

  /** Locked pushes lose nothing: what is in the list plus what is left is what there was to push. */
  lemma {:induction false} InterleaveKeepsAll<T>(pending: seq<seq<T>>, schedule: seq<nat>, list: seq<T>)
    ensures multiset(Interleave(pending, schedule, list).0) + multiset(Joined(Interleave(pending, schedule, list).1)) ==
      multiset(list) + multiset(Joined(pending))
    decreases |schedule|
  {
    if |schedule| > 0 {
      var t := schedule[0];
      if t < |pending| && |pending[t]| > 0 {
        var after := pending[t := pending[t][1..]];
        var pushed := LockedPush(list, pending[t][0]);
        InterleaveKeepsAll(after, schedule[1..], pushed);
        JoinedTake(pending, t);
        assert pushed == list + [pending[t][0]];
      } else {
        InterleaveKeepsAll(pending, schedule[1..], list);
      }
    }
  }

  /** When every task has finished there is nothing left to push. */
  lemma {:induction false} JoinedFinished<T>(pending: seq<seq<T>>)
    requires Finished(pending)
    ensures Joined(pending) == []
    decreases |pending|
  {
    if |pending| > 0 {
      JoinedFinished(pending[1..]);
    }
  }

  /** Joining the batch's result lists is running the batch. */
  lemma {:induction false} JoinedResults<T, U>(f: T -> seq<U>, xs: seq<T>)
    ensures Joined(Results(f, xs)) == FlatMap(f, xs)
    decreases |xs|
  {
    if |xs| > 0 {
      assert Results(f, xs)[1..] == Results(f, xs[1..]);
      JoinedResults(f, xs[1..]);
    }
  }

  /**
   * A batch whose tasks push under a lock, in any element-by-element
   * interleaving that lets every task finish, ends with the same elements
   * as running the tasks one after another.
   */
  lemma LockedBatchKeepsAll<T, U>(f: T -> seq<U>, xs: seq<T>, schedule: seq<nat>)
    requires Finished(Interleave(Results(f, xs), schedule, []).1)
    ensures multiset(Interleave(Results(f, xs), schedule, []).0) == multiset(FlatMap(f, xs))
  {
    var pending: seq<seq<U>> := Results(f, xs);
    var empty: seq<U> := [];
    var r := Interleave(pending, schedule, empty);
    InterleaveKeepsAll(pending, schedule, empty);
    JoinedFinished(r.1);
    JoinedResults(f, xs);
    assert multiset(r.0) + multiset(Joined(r.1)) == multiset(empty) + multiset(Joined(pending));
    assert Joined(r.1) == empty;
    assert multiset(r.0) + multiset(empty) == multiset(r.0);
    assert multiset(empty) + multiset(Joined(pending)) == multiset(Joined(pending));
  }
}
