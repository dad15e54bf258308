/** The counting rules of a task's child protocol, as values: how `spawn`
    counts children, and when the per-child completion hooks registered by
    `whenResolved` put the parent task back on a queue. */
module TaskProtocol {

  /** How many of `ts` are not `me`: what `spawn` adds to the spawned count
      of the task `me` when it is given `ts`. */
  function CountOther<T(==)>(ts: seq<T>, me: T): (c: nat)
    ensures c <= |ts|
  {
    if ts == [] then 0
    else CountOther(ts[..|ts| - 1], me) + (if ts[|ts| - 1] != me then 1 else 0)
  }

  /** Spawning counts every given task except the spawning task itself. */
  lemma {:induction false} CountOtherExcludesSelf<T>(ts: seq<T>, me: T)
    ensures CountOther(ts, me) == |ts| - multiset(ts)[me]
    ensures me !in ts ==> CountOther(ts, me) == |ts|
    ensures (forall k :: 0 <= k < |ts| ==> ts[k] == me) ==> CountOther(ts, me) == 0
  {
    if ts != [] {
      var init := ts[..|ts| - 1];
      CountOtherExcludesSelf(init, me);
      assert ts == init + [ts[|ts| - 1]];
      assert multiset(ts) == multiset(init) + multiset{ts[|ts| - 1]};
      if (forall k :: 0 <= k < |ts| ==> ts[k] == me) {
        assert forall k :: 0 <= k < |init| ==> init[k] == ts[k];
      }
    }
  }

  /** Whether the completion hook, run when the finished count goes from
      `finished` to `finished + 1`, re-submits the parent having `spawned`
      counted children. */
  predicate HookResubmits(finished: nat, spawned: nat): (b: bool)
    ensures finished + 1 == spawned ==> b
    ensures spawned <= finished ==> b
    ensures finished + 1 < spawned ==> !b
  {
    finished + 1 >= spawned
  }

  /** How many of `m` consecutive hook runs, starting from a finished count
      of `finished`, re-submit the parent. */
  function Resubmissions(finished: nat, spawned: nat, m: nat): (r: nat)
    ensures r <= m
  {
    if m == 0 then 0
    else Resubmissions(finished, spawned, m - 1) + (if HookResubmits(finished + m - 1, spawned) then 1 else 0)
  }

  /** The hook runs that re-submit are exactly those that bring the finished
      count to `spawned` or beyond. */
  lemma {:induction false} ResubmissionsCount(finished: nat, spawned: nat, m: nat)
    ensures Resubmissions(finished, spawned, m) ==
      if finished + m < spawned then 0
      else if finished >= spawned then m
      else finished + m - spawned + 1
  {
    if m > 0 {
      ResubmissionsCount(finished, spawned, m - 1);
    }
  }

  /** With `k >= 1` spawned children whose hooks each run once, the parent is
      re-submitted exactly once, by the hook of the last child to resolve. */
  lemma ResubmittedOnceAfterLastChild(k: nat)
    requires k >= 1
    ensures Resubmissions(0, k, k - 1) == 0
    ensures Resubmissions(0, k, k) == 1
    ensures HookResubmits(k - 1, k)
  {
    ResubmissionsCount(0, k, k - 1);
    ResubmissionsCount(0, k, k);
  }

  /** More hook runs than spawned children re-submit the parent once for the
      last spawned child and again for every extra run. */
  lemma ExtraHooksResubmitAgain(k: nat, m: nat)
    requires k >= 1 && m >= k
    ensures Resubmissions(0, k, m) == m - k + 1
  {
    ResubmissionsCount(0, k, m);
  }

  /** How many entries of `flags` are true. */
  function CountTrue(flags: seq<bool>): (c: nat)
    ensures c <= |flags|
  {
    if flags == [] then 0 else CountTrue(flags[..|flags| - 1]) + (if flags[|flags| - 1] then 1 else 0)
  }

  /** One more flag counts one more when it is true. */
  lemma CountTrueStep(flags: seq<bool>, i: nat)
    requires i < |flags|
    ensures CountTrue(flags[..i + 1]) == CountTrue(flags[..i]) + (if flags[i] then 1 else 0)
  {
    assert flags[..i + 1][..i] == flags[..i];
  }
}
