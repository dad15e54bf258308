/** The pool's table of per-worker task deques, as values.
    Queue `i` belongs to worker `i`; position 0 of a queue is its front,
    the end that `addFirst` and `pollFirst` use, and its last position is
    the back, the end that thieves take from with `pollLast`. */
module QueueTable {

  datatype Option<T> = None | Some(value: T)

  /** The queues after an operation that may hand one task to its caller. */
  datatype Taken<T> = Taken(queues: seq<seq<T>>, task: Option<T>)

  /** `addFirst` on queue `id`. */
  function PushFront<T>(qs: seq<seq<T>>, id: nat, t: T): (r: seq<seq<T>>)
    requires id < |qs|
    ensures |r| == |qs| && |r[id]| == |qs[id]| + 1 && r[id][0] == t && r[id][1..] == qs[id]
    ensures forall j :: 0 <= j < |qs| && j != id ==> r[j] == qs[j]
  {
    qs[id := [t] + qs[id]]
  }

  /** `pollFirst` on queue `id`: its front, or nothing when it is empty. */
  function PollFirst<T>(qs: seq<seq<T>>, id: nat): (r: Taken<T>)
    requires id < |qs|
    ensures |r.queues| == |qs|
    ensures r.task.None? <==> qs[id] == []
    ensures r.task.None? ==> r.queues == qs
    ensures r.task.Some? ==> [r.task.value] + r.queues[id] == qs[id]
    ensures forall j :: 0 <= j < |qs| && j != id ==> r.queues[j] == qs[j]
  {
    if qs[id] == [] then Taken(qs, None) else Taken(qs[id := qs[id][1..]], Some(qs[id][0]))
  }

  /** The tasks a sequence of queues holds, with their multiplicities. */
  function Queued<T>(qs: seq<seq<T>>): (m: multiset<T>)
  {
    if qs == [] then multiset{} else Queued(qs[..|qs| - 1]) + multiset(qs[|qs| - 1])
  }

  /** A task is queued exactly when some queue holds it. */
  lemma {:induction false} QueuedMembers<T>(qs: seq<seq<T>>, t: T)
    ensures t in Queued(qs) <==> exists j :: 0 <= j < |qs| && t in qs[j]
  {
    if qs != [] {
      var init := qs[..|qs| - 1];
      QueuedMembers(init, t);
      if t in Queued(qs) && t !in qs[|qs| - 1] {
        var j :| 0 <= j < |init| && t in init[j];
        assert qs[j] == init[j];
      }
      if exists j :: 0 <= j < |qs| && t in qs[j] {
        var j :| 0 <= j < |qs| && t in qs[j];
        if j < |init| {
          assert init[j] == qs[j];
        }
      }
    }
  }

  /** The single-task summand of a result, for conservation statements. */
  function AsMultiset<T>(o: Option<T>): (m: multiset<T>)
  {
    if o.Some? then multiset{o.value} else multiset{}
  }

  /** Submitting `ts` to queue `id` one after the other, each with `addFirst`. */
  function SubmitAll<T>(qs: seq<seq<T>>, id: nat, ts: seq<T>): (r: seq<seq<T>>)
    requires id < |qs|
    ensures |r| == |qs|
  {
    if ts == [] then qs else PushFront(SubmitAll(qs, id, ts[..|ts| - 1]), id, ts[|ts| - 1])
  }

  /** `r` copies of `t`. */
  function Repeat<T>(t: T, r: nat): (s: seq<T>)
    ensures |s| == r
    ensures forall k :: 0 <= k < r ==> s[k] == t
  {
    if r == 0 then [] else Repeat(t, r - 1) + [t]
  }

  /** `s` back to front. */
  function Reversed<T>(s: seq<T>): (r: seq<T>)
    ensures |r| == |s|
    ensures forall k :: 0 <= k < |s| ==> r[k] == s[|s| - 1 - k]
  {
    if s == [] then [] else [s[|s| - 1]] + Reversed(s[..|s| - 1])
  }

  /** The order in which worker `id` of `n` looks at the other workers'
      queues: `id+1, ..., n-1`, then `0, ..., id-1`. */
  function Rotation(n: nat, id: nat): (order: seq<nat>)
    requires id < n
    ensures |order| == n - 1
    ensures forall k :: 0 <= k < |order| ==>
      order[k] == if id + 1 + k < n then id + 1 + k else id + 1 + k - n
  {
    seq(n - 1 - id, k => id + 1 + k) + seq(id, k => k)
  }

  /** The position in `order` of the first queue holding more than one task. */
  function FirstStealable<T>(qs: seq<seq<T>>, order: seq<nat>): (pos: Option<nat>)
    requires forall k :: 0 <= k < |order| ==> order[k] < |qs|
    ensures pos.Some? ==> pos.value < |order| && |qs[order[pos.value]]| > 1
    ensures pos.Some? ==> forall l :: 0 <= l < pos.value ==> |qs[order[l]]| <= 1
    ensures pos.None? <==> forall k :: 0 <= k < |order| ==> |qs[order[k]]| <= 1
  {
    if order == [] then None
    else if |qs[order[0]]| > 1 then Some(0)
    else
      match FirstStealable(qs, order[1..])
      case None => None
      case Some(p) => Some(p + 1)
  }

  /** A queue holding more than one task, after queues holding at most one,
      is the first stealable one. */
  lemma FirstStealableAt<T>(qs: seq<seq<T>>, order: seq<nat>, k: nat)
    requires forall l :: 0 <= l < |order| ==> order[l] < |qs|
    requires k < |order| && |qs[order[k]]| > 1
    requires forall l :: 0 <= l < k ==> |qs[order[l]]| <= 1
    ensures FirstStealable(qs, order) == Some(k)
  {
  }

  /** What `stealTasks(id, ver)` does to the table when no other thread
      interferes: the first victim in the rotation holding more than one
      task loses the back half of its queue (`size/2` tasks) to the front of
      queue `id`, which then hands out its new front; with no such victim,
      the thief pops the front of its own queue. */
  function Steal<T>(qs: seq<seq<T>>, id: nat): (r: Taken<T>)
    requires id < |qs|
    ensures |r.queues| == |qs|
    ensures r.task.None? <==> qs[id] == [] && forall j :: 0 <= j < |qs| && j != id ==> |qs[j]| <= 1
  {
    VictimIsFirstInRotation(qs, id);
    var order := Rotation(|qs|, id);
    match FirstStealable(qs, order)
    case None => PollFirst(qs, id)
    case Some(k) => StealFrom(qs, order[k], id)
  }

  /** Queue `id` takes the back `size/2` tasks of queue `v`, one `pollLast`
      and `addFirst` at a time, and then hands out its new front. */
  function StealFrom<T>(qs: seq<seq<T>>, v: nat, id: nat): (r: Taken<T>)
    requires v < |qs| && id < |qs| && v != id && |qs[v]| > 1
    ensures |r.queues| == |qs| && r.task.Some?
    ensures |r.queues[v]| == |qs[v]| - |qs[v]| / 2
    ensures |r.queues[id]| == |qs[id]| + |qs[v]| / 2 - 1
    ensures forall j :: 0 <= j < |qs| && j != v && j != id ==> r.queues[j] == qs[j]
  {
    var keep := |qs[v]| - |qs[v]| / 2;
    Taken(qs[v := qs[v][..keep]][id := qs[v][keep + 1..] + qs[id]], Some(qs[v][keep]))
  }

  /** The victim a steal by `id` picks, if any. */
  function Victim<T>(qs: seq<seq<T>>, id: nat): (v: Option<nat>)
    requires id < |qs|
    ensures v.Some? ==> v.value < |qs| && v.value != id && |qs[v.value]| > 1
  {
    RotationVisitsOthersOnce(|qs|, id);
    var order := Rotation(|qs|, id);
    match FirstStealable(qs, order)
    case None => None
    case Some(k) => Some(order[k])
  }

  /** The task one round of a worker's run loop obtains: the front of its own
      queue, and only when that queue is empty, the task of a steal. */
  function NextTask<T>(qs: seq<seq<T>>, id: nat): (t: Option<T>)
    requires id < |qs|
    ensures t.None? <==> forall j :: 0 <= j < |qs| ==> (j == id ==> qs[j] == []) && (j != id ==> |qs[j]| <= 1)
  {
    if qs[id] != [] then Some(qs[id][0]) else Steal(qs, id).task
  }

  // ---------------------------------------------------------------------
  // The rotation

  /** The rotation visits every other worker exactly once and never the thief. */
  lemma RotationVisitsOthersOnce(n: nat, id: nat)
    requires id < n
    ensures forall k :: 0 <= k < |Rotation(n, id)| ==> Rotation(n, id)[k] < n && Rotation(n, id)[k] != id
    ensures forall j :: 0 <= j < n && j != id ==> j in Rotation(n, id)
    ensures forall k, l :: 0 <= k < l < |Rotation(n, id)| ==> Rotation(n, id)[k] != Rotation(n, id)[l]
  {
    var order := Rotation(n, id);
    forall j | 0 <= j < n && j != id
      ensures j in order
    {
      var k := if j > id then j - id - 1 else n - 1 - id + j;
      assert order[k] == j;
    }
  }

  /** With a single worker there is no one to steal from. */
  lemma RotationOfOne()
    ensures Rotation(1, 0) == []
  {
  }

  // ---------------------------------------------------------------------
  // Submissions and pops

  /** Own-queue order is last in, first out: popping after a push returns
      the pushed task and restores the table. */
  lemma PushThenPoll<T>(qs: seq<seq<T>>, id: nat, t: T)
    requires id < |qs|
    ensures PollFirst(PushFront(qs, id, t), id) == Taken(qs, Some(t))
  {
    var pushed := PushFront(qs, id, t);
    assert pushed[id][1..] == qs[id];
    assert pushed[id := pushed[id][1..]] == qs;
  }

  lemma {:induction false} QueuedUpdate<T>(qs: seq<seq<T>>, i: nat, q: seq<T>)
    requires i < |qs|
    ensures Queued(qs[i := q]) + multiset(qs[i]) == Queued(qs) + multiset(q)
    decreases |qs|
  {
    var n := |qs| - 1;
    var r := qs[i := q];
    assert Queued(r) == Queued(r[..n]) + multiset(r[n]);
    assert Queued(qs) == Queued(qs[..n]) + multiset(qs[n]);
    if i < n {
      assert r[..n] == qs[..n][i := q];
      assert r[n] == qs[n];
      QueuedUpdate(qs[..n], i, q);
      calc {
        Queued(r) + multiset(qs[i]);
        Queued(r[..n]) + multiset(qs[i]) + multiset(qs[n]);
        Queued(qs[..n]) + multiset(q) + multiset(qs[n]);
        Queued(qs) + multiset(q);
      }
    } else {
      assert r[..n] == qs[..n];
    }
  }

  /** Taking `m + rest` out and `rest` back in leaves `m` out: the multiset
      arithmetic of a pop. */
  lemma CancelRest<T>(a: multiset<T>, s: multiset<T>, c: multiset<T>, m: multiset<T>, rest: multiset<T>)
    requires a + s == c + rest
    requires s == m + rest
    ensures a + m == c
  {
    forall x
      ensures (a + m)[x] == c[x]
    {
      assert (a + s)[x] == (c + rest)[x];
    }
  }

  /** A push adds exactly the pushed task to the queued tasks. */
  lemma PushFrontConserves<T>(qs: seq<seq<T>>, id: nat, t: T)
    requires id < |qs|
    ensures Queued(PushFront(qs, id, t)) == Queued(qs) + multiset{t}
  {
    var pushed := [t] + qs[id];
    QueuedUpdate(qs, id, pushed);
    assert multiset(pushed) == multiset{t} + multiset(qs[id]);
    CancelRest(Queued(qs), multiset(pushed), Queued(qs[id := pushed]), multiset{t}, multiset(qs[id]));
  }

  /** A pop removes exactly the task it returns. */
  lemma PollFirstConserves<T>(qs: seq<seq<T>>, id: nat)
    requires id < |qs|
    ensures Queued(PollFirst(qs, id).queues) + AsMultiset(PollFirst(qs, id).task) == Queued(qs)
  {
    if qs[id] != [] {
      var rest := qs[id][1..];
      var r := PollFirst(qs, id);
      assert r.queues == qs[id := rest] && AsMultiset(r.task) == multiset{qs[id][0]};
      QueuedUpdate(qs, id, rest);
      SplitFront(qs[id]);
      CancelRest(Queued(r.queues), multiset(qs[id]), Queued(qs), multiset{qs[id][0]}, multiset(rest));
    }
  }

  lemma SplitFront<T>(s: seq<T>)
    requires s != []
    ensures multiset(s) == multiset{s[0]} + multiset(s[1..])
  {
    assert s == [s[0]] + s[1..];
  }

  /** Submitting `ts` one by one to the front of queue `id` leaves them
      there in reverse order of submission and changes no other queue. */
  lemma {:induction false} SubmitAllFront<T>(qs: seq<seq<T>>, id: nat, ts: seq<T>)
    requires id < |qs|
    ensures SubmitAll(qs, id, ts)[id] == Reversed(ts) + qs[id]
    ensures forall j :: 0 <= j < |qs| && j != id ==> SubmitAll(qs, id, ts)[j] == qs[j]
  {
    if ts != [] {
      SubmitAllFront(qs, id, ts[..|ts| - 1]);
    }
  }

  /** One more copy of `t`, submitted last, lands in front of the others. */
  lemma SubmitRepeatStep<T>(qs: seq<seq<T>>, id: nat, t: T, r: nat)
    requires id < |qs|
    ensures SubmitAll(qs, id, Repeat(t, r + 1)) == PushFront(SubmitAll(qs, id, Repeat(t, r)), id, t)
  {
    assert Repeat(t, r + 1)[..r] == Repeat(t, r);
  }

  // ---------------------------------------------------------------------
  // Stealing

  /** With a victim at position `k` of the rotation: the victim keeps its first
      `s - s/2` tasks, its last `s/2` tasks go, in their order, to the front of
      the thief's queue, the first of them is handed out, every queue looked at
      before the victim held at most one task, and no other queue changes. */
  lemma StealTakesBackHalf<T>(qs: seq<seq<T>>, id: nat)
    requires id < |qs|
    requires Victim(qs, id).Some?
    ensures var v := Victim(qs, id).value;
      var s := |qs[v]|;
      var r := Steal(qs, id);
      && v != id && v < |qs| && s > 1
      && r.queues[v] == qs[v][..s - s / 2]
      && [r.task.value] + r.queues[id][..s / 2 - 1] == qs[v][s - s / 2..]
      && r.queues[id][s / 2 - 1..] == qs[id]
      && |r.queues| == |qs|
      && (forall j :: 0 <= j < |qs| && j != v && j != id ==> r.queues[j] == qs[j])
  {
    RotationVisitsOthersOnce(|qs|, id);
    var v := Victim(qs, id).value;
    var s := |qs[v]|;
    var keep := s - s / 2;
    var r := Steal(qs, id);
    assert r.queues[id] == qs[v][keep + 1..] + qs[id];
    assert r.queues[id][..s / 2 - 1] == qs[v][keep + 1..];
    assert qs[v][keep..] == [qs[v][keep]] + qs[v][keep + 1..];
  }

  /** The victim is the first queue in the rotation holding more than one task. */
  lemma VictimIsFirstInRotation<T>(qs: seq<seq<T>>, id: nat)
    requires id < |qs|
    ensures Victim(qs, id).Some? ==>
      exists k :: (0 <= k < |qs| - 1 && Rotation(|qs|, id)[k] == Victim(qs, id).value &&
        |qs[Victim(qs, id).value]| > 1 &&
        forall l :: 0 <= l < k ==> |qs[Rotation(|qs|, id)[l]]| <= 1)
    ensures Victim(qs, id).None? <==> forall j :: 0 <= j < |qs| && j != id ==> |qs[j]| <= 1
  {
    RotationVisitsOthersOnce(|qs|, id);
    var order := Rotation(|qs|, id);
    if Victim(qs, id).None? {
      forall j | 0 <= j < |qs| && j != id
        ensures |qs[j]| <= 1
      {
        assert j in order;
        var k :| 0 <= k < |order| && order[k] == j;
        assert |qs[order[k]]| <= 1;
      }
    }
  }

  /** A queue of size at most one, other than the thief's, is never stolen from. */
  lemma StealSparesSmallQueues<T>(qs: seq<seq<T>>, id: nat, j: nat)
    requires id < |qs| && j < |qs| && j != id && |qs[j]| <= 1
    ensures Steal(qs, id).queues[j] == qs[j]
  {
    RotationVisitsOthersOnce(|qs|, id);
  }

  /** With nothing to steal, the steal falls back to a pop of the thief's own queue. */
  lemma StealFallsBackToOwnQueue<T>(qs: seq<seq<T>>, id: nat)
    requires id < |qs|
    requires forall j :: 0 <= j < |qs| && j != id ==> |qs[j]| <= 1
    ensures Steal(qs, id) == PollFirst(qs, id)
  {
    VictimIsFirstInRotation(qs, id);
  }

  /** The multiset arithmetic of a steal: the victim's queue `sv` splits
      into `front`, the handed-out `h` and `tail`, and the thief's new queue
      `to` is `tail` before its old queue `own`. */
  lemma Rebalance<T>(r: multiset<T>, a: multiset<T>, sv: multiset<T>, to: multiset<T>,
                     front: multiset<T>, h: multiset<T>, tail: multiset<T>, own: multiset<T>)
    requires r + own + sv == a + front + to
    requires sv == front + h + tail
    requires to == tail + own
    ensures r + h == a
  {
    forall x
      ensures (r + h)[x] == a[x]
    {
      assert (r + own + sv)[x] == (a + front + to)[x];
    }
  }

  lemma SplitAround<T>(s: seq<T>, k: nat)
    requires k < |s|
    ensures multiset(s) == multiset(s[..k]) + multiset{s[k]} + multiset(s[k + 1..])
  {
    assert s == s[..k] + [s[k]] + s[k + 1..];
  }

  /** Two updates of distinct queues, in conservation form. */
  lemma QueuedTwoUpdates<T>(qs: seq<seq<T>>, v: nat, a: seq<T>, id: nat, b: seq<T>)
    requires v < |qs| && id < |qs| && v != id
    ensures Queued(qs[v := a][id := b]) + multiset(qs[id]) + multiset(qs[v]) ==
      Queued(qs) + multiset(a) + multiset(b)
  {
    var mid := qs[v := a];
    QueuedUpdate(qs, v, a);
    QueuedUpdate(mid, id, b);
    assert mid[id] == qs[id];
  }

  lemma StealFromConserves<T>(qs: seq<seq<T>>, v: nat, id: nat)
    requires v < |qs| && id < |qs| && v != id && |qs[v]| > 1
    ensures Queued(StealFrom(qs, v, id).queues) + AsMultiset(StealFrom(qs, v, id).task) == Queued(qs)
  {
    var keep := |qs[v]| - |qs[v]| / 2;
    MoveConserves(qs, v, id, keep);
  }

  /** Queue `v` split around position `k`: the part before stays, the part
      after goes in front of queue `id`, and the task at `k` is taken out. */
  lemma MoveConserves<T>(qs: seq<seq<T>>, v: nat, id: nat, k: nat)
    requires v < |qs| && id < |qs| && v != id && k < |qs[v]|
    ensures Queued(qs[v := qs[v][..k]][id := qs[v][k + 1..] + qs[id]]) + multiset{qs[v][k]} == Queued(qs)
  {
    var front, h, tail := qs[v][..k], qs[v][k], qs[v][k + 1..];
    var rq := qs[v := front][id := tail + qs[id]];
    QueuedTwoUpdates(qs, v, front, id, tail + qs[id]);
    SplitAround(qs[v], k);
    assert multiset(tail + qs[id]) == multiset(tail) + multiset(qs[id]);
    Rebalance(Queued(rq), Queued(qs), multiset(qs[v]), multiset(tail + qs[id]),
      multiset(front), multiset{h}, multiset(tail), multiset(qs[id]));
  }

  /** A steal conserves the queued tasks, except the one it hands out. */
  lemma StealConserves<T>(qs: seq<seq<T>>, id: nat)
    requires id < |qs|
    ensures Queued(Steal(qs, id).queues) + AsMultiset(Steal(qs, id).task) == Queued(qs)
  {
    RotationVisitsOthersOnce(|qs|, id);
    match Victim(qs, id)
    case None =>
      PollFirstConserves(qs, id);
    case Some(v) =>
      StealFromConserves(qs, v, id);
  }

  /** One more `pollLast` of a victim that kept `s[..|s| - i]`, the back of it
      put in front of the `s[|s| - i..]` already moved. */
  lemma MoveOneFromBack<T>(s: seq<T>, i: nat)
    requires i < |s|
    ensures var kept := s[..|s| - i];
      && kept[..|kept| - 1] == s[..|s| - (i + 1)]
      && [kept[|kept| - 1]] + s[|s| - i..] == s[|s| - (i + 1)..]
  {
  }

  /** Setting the same two queues again overrides the first setting. */
  lemma UpdateTwoAgain<T>(qs: seq<seq<T>>, v: nat, id: nat, a: seq<T>, b: seq<T>, a2: seq<T>, b2: seq<T>)
    requires v < |qs| && id < |qs| && v != id
    ensures qs[v := a][id := b][v := a2][id := b2] == qs[v := a2][id := b2]
  {
  }

  /** Moving the back half first and popping the thief's front afterwards,
      as `stealTasks` does, gives `StealFrom`. */
  lemma MoveThenPoll<T>(qs: seq<seq<T>>, v: nat, id: nat)
    requires v < |qs| && id < |qs| && v != id && |qs[v]| > 1
    ensures var keep := |qs[v]| - |qs[v]| / 2;
      PollFirst(qs[v := qs[v][..keep]][id := qs[v][keep..] + qs[id]], id) == StealFrom(qs, v, id)
  {
    var keep := |qs[v]| - |qs[v]| / 2;
    var moved := qs[v][keep..] + qs[id];
    var mid := qs[v := qs[v][..keep]][id := moved];
    assert moved[1..] == qs[v][keep + 1..] + qs[id];
    assert mid[id := moved[1..]] == qs[v := qs[v][..keep]][id := qs[v][keep + 1..] + qs[id]];
  }

  /** The steal at the first victim, at position `k` of the rotation. */
  lemma StealAtVictim<T>(qs: seq<seq<T>>, id: nat, k: nat)
    requires id < |qs|
    requires FirstStealable(qs, Rotation(|qs|, id)) == Some(k)
    ensures Steal(qs, id) == StealFrom(qs, Rotation(|qs|, id)[k], id)
  {
    RotationVisitsOthersOnce(|qs|, id);
  }

  /** A task handed out by a steal was queued before it. */
  lemma StealHandsOutQueuedTask<T>(qs: seq<seq<T>>, id: nat)
    requires id < |qs|
    ensures Steal(qs, id).task.Some? ==> Steal(qs, id).task.value in Queued(qs)
  {
    StealConserves(qs, id);
  }

  /** A pop hands out a task that was queued before it. */
  lemma PollHandsOutQueuedTask<T>(qs: seq<seq<T>>, id: nat)
    requires id < |qs|
    ensures PollFirst(qs, id).task.Some? ==> PollFirst(qs, id).task.value in Queued(qs)
  {
    PollFirstConserves(qs, id);
  }
}
