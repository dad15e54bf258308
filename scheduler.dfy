/** The pool, its processors, tasks and their results, with the worker threads
    taken out: every thing one thread does to another (a submission, a steal,
    a child resolving) is an explicit method call. */
module Scheduler {
  import opened QueueTable
  import opened TaskProtocol

  /** A continuation stored by `whenResolved`: user code, known by its name. */
  datatype Continuation = Continuation(name: nat)

  /** What a call of `handle` ran: the task body `start()` or the stored continuation. */
  datatype Ran = RanStart | RanContinuation(continuation: Continuation)

  /** The callback a Deferred runs once it is resolved: the per-child hook a
      parent registers with `whenResolved`, or a callback of outside code. */
  datatype Hook = ChildHook(parent: Task) | OutsideCallback(name: nat)

  /** The results of `ts`, in order. */
  function Results(ts: seq<Task>): (ds: seq<Deferred>)
    ensures |ds| == |ts| && forall k :: 0 <= k < |ts| ==> ds[k] == ts[k].deferred
  {
    seq(|ts|, k requires 0 <= k < |ts| => ts[k].deferred)
  }

  /** Which of the results `ds` are resolved: those whose hooks
      `whenResolved` runs at once. */
  function ResolvedFlags(ds: seq<Deferred>): (flags: seq<bool>)
    reads ds
    ensures |flags| == |ds|
    ensures forall k :: 0 <= k < |ds| ==> flags[k] == ds[k].resolved
  {
    seq(|ds|, k requires 0 <= k < |ds| reads ds => ds[k].resolved)
  }

  /** The values of the results `ds`, in order. */
  function ResultValues(ds: seq<Deferred>): (vs: seq<Option<int>>)
    reads ds
    ensures |vs| == |ds|
    ensures forall k :: 0 <= k < |ds| ==> vs[k] == ds[k].value
  {
    seq(|ds|, k requires 0 <= k < |ds| reads ds => ds[k].value)
  }

  /** A parent's finished count together with the pool's queues, version,
      processors and started flag. The record has no counterpart in the
      source: it is the proof's snapshot of the state a task's hooks touch,
      kept as one value so that the hook loop's invariant is a single
      equation; `processors` and `started` are in it only to carry the fact
      that the hooks leave them alone. */
  datatype Tally = Tally(finished: nat, queues: seq<seq<Task>>, version: nat, processors: seq<Processor>, started: bool)

  /** The tally after `fired` runs of the per-child hook of `parent`, which
      has `spawned` counted children and re-submits to queue `pid`. */
  ghost function AfterHooks(t0: Tally, parent: Task, pid: nat, spawned: nat, fired: nat): (t: Tally)
    requires pid < |t0.queues|
    ensures t.finished == t0.finished + fired && |t.queues| == |t0.queues|
    ensures t0.version <= t.version <= t0.version + fired
    ensures t.processors == t0.processors && t.started == t0.started
  {
    var r := Resubmissions(t0.finished, spawned, fired);
    Tally(t0.finished + fired, SubmitAll(t0.queues, pid, Repeat(parent, r)), t0.version + r, t0.processors, t0.started)
  }

  /** One more hook run: one more finished child, and the parent pushed once
      more exactly when that run re-submits. */
  lemma OneMoreHook(t0: Tally, parent: Task, pid: nat, spawned: nat, fired: nat)
    requires pid < |t0.queues|
    ensures var a := AfterHooks(t0, parent, pid, spawned, fired);
      var more := HookResubmits(t0.finished + fired, spawned);
      AfterHooks(t0, parent, pid, spawned, fired + 1) ==
        Tally(a.finished + 1, if more then PushFront(a.queues, pid, parent) else a.queues,
          a.version + (if more then 1 else 0), a.processors, a.started)
  {
    var r := Resubmissions(t0.finished, spawned, fired);
    var more := HookResubmits(t0.finished + fired, spawned);
    assert Resubmissions(t0.finished, spawned, fired + 1) == r + (if more then 1 else 0);
    var a := AfterHooks(t0, parent, pid, spawned, fired);
    var b := AfterHooks(t0, parent, pid, spawned, fired + 1);
    assert a.queues == SubmitAll(t0.queues, pid, Repeat(parent, r));
    if more {
      SubmitRepeatStep(t0.queues, pid, parent, r);
      assert b.queues == PushFront(a.queues, pid, parent);
    } else {
      assert b.queues == a.queues;
    }
  }

  class WorkStealingThreadPool {
    /** Queue `i` is the deque of processor `i`. */
    var queues: seq<seq<Task>>
    /** The version monitor's counter. */
    var version: nat
    /** The processors `start` creates, processor `i` at index `i`. */
    var processors: seq<Processor>
    var started: bool

    /** `nthreads` empty queues, keyed `0..nthreads-1`; no processor yet. */
    constructor(nthreads: nat)
      ensures |queues| == nthreads
      ensures forall i :: 0 <= i < nthreads ==> queues[i] == []
      ensures version == 0 && processors == [] && !started
    {
      var qs: seq<seq<Task>> := [];
      for i := 0 to nthreads
        invariant |qs| == i
        invariant forall j :: 0 <= j < i ==> qs[j] == []
      {
        qs := qs + [[]];
      }
      queues := qs;
      version := 0;
      processors := [];
      started := false;
    }

    /** External `submit(task)`: `choice` is the queue the random generator picks. */
    method Submit(task: Task, choice: nat)
      requires choice < |queues|
      modifies this
      ensures queues == PushFront(old(queues), choice, task)
      ensures version == old(version) + 1
      ensures processors == old(processors) && started == old(started)
    {
      queues := queues[choice := [task] + queues[choice]];
      version := version + 1;
    }

    /** Internal `submit(t, processorId)`, used by `spawn`. */
    method SubmitTo(t: Task, processorId: nat)
      requires processorId < |queues|
      modifies this
      ensures queues == PushFront(old(queues), processorId, t)
      ensures version == old(version) + 1
      ensures processors == old(processors) && started == old(started)
    {
      queues := queues[processorId := [t] + queues[processorId]];
      version := version + 1;
    }

    function GetVMVersion(): (v: nat)
      reads this
      ensures v == version
    {
      version
    }

    /** `getNextTask(id)`: the front of queue `id`, removed, or nothing. */
    method GetNextTask(id: nat) returns (t: Option<Task>)
      requires id < |queues|
      modifies this
      ensures Taken(queues, t) == PollFirst(old(queues), id)
      ensures version == old(version) && processors == old(processors) && started == old(started)
    {
      if queues[id] == [] {
        t := None;
      } else {
        t := Some(queues[id][0]);
        queues := queues[id := queues[id][1..]];
      }
    }

    /** `stealTasks(id, ver)` run by processor `id` after it observed version
        `ver`: scan the others in rotation, move the back half of the first
        queue holding more than one task to the front of queue `id` and pop
        it; after a full rotation, pop queue `id` instead. */
    method StealTasks(id: nat, ver: nat) returns (t: Option<Task>)
      requires id < |queues|
      modifies this
      ensures Taken(queues, t) == Steal(old(queues), id)
      ensures version == old(version) && processors == old(processors) && started == old(started)
    {
      ghost var qs := queues;
      ghost var n := |qs|;
      ghost var order := Rotation(n, id);
      var index := id + 1;
      ghost var steps := 0;
      while true
        invariant steps <= n - 1
        invariant index == if id + 1 + steps <= n then id + 1 + steps else id + 1 + steps - n
        invariant forall l :: 0 <= l < steps ==> |qs[order[l]]| <= 1
        invariant queues == qs
        invariant version == old(version) && processors == old(processors) && started == old(started)
        decreases n - steps
      {
        if index == |queues| {
          index := 0;
        }
        if index == id {
          // A full rotation found no victim.
          assert steps == n - 1;
          assert FirstStealable(qs, order).None?;
          t := PollOwnQueue(id, ver);
          return;
        }
        assert index == order[steps];
        var size := |queues[index]|;
        if size > 1 {
          FirstStealableAt(qs, order, steps);
          StealAtVictim(qs, id, steps);
          var stole;
          stole, t := StealFromVictim(index, id);
          if stole {
            return;
          }
        }
        index := index + 1;
        steps := steps + 1;
      }
    }

    /** The body of `stealTasks` once it found `victim` holding more than
        one task: move the back half over, then pop the own queue. */
    method StealFromVictim(victim: nat, id: nat) returns (stole: bool, t: Option<Task>)
      requires victim < |queues| && id < |queues| && victim != id && |queues[victim]| > 1
      modifies this
      ensures stole && Taken(queues, t) == StealFrom(old(queues), victim, id)
      ensures version == old(version) && processors == old(processors) && started == old(started)
    {
      ghost var qs := queues;
      stole := MoveBackHalf(victim, id);
      t := None;
      if stole {
        t := GetNextTask(id);
        MoveThenPoll(qs, victim, id);
      }
    }

    /** The end of `stealTasks` after a full rotation without a victim: pop
        the own queue if the version moved on since `ver`, and otherwise (or
        if that found nothing) pop it once more. The wait for a version change
        between the two pops is not modelled. */
    method PollOwnQueue(id: nat, ver: nat) returns (t: Option<Task>)
      requires id < |queues|
      modifies this
      ensures Taken(queues, t) == PollFirst(old(queues), id)
      ensures version == old(version) && processors == old(processors) && started == old(started)
    {
      if ver != version {
        t := GetNextTask(id);
        if t.Some? {
          return;
        }
      }
      t := GetNextTask(id);
    }

    /** The inner loop of `stealTasks`: `size/2` times, take the back of queue
        `victim` with `pollLast` and put it on the front of queue `thief`. */
    method MoveBackHalf(victim: nat, thief: nat) returns (stole: bool)
      requires victim < |queues| && thief < |queues| && victim != thief
      modifies this
      ensures var q := old(queues); var keep := |q[victim]| - |q[victim]| / 2;
        queues == q[victim := q[victim][..keep]][thief := q[victim][keep..] + q[thief]]
      ensures stole == (|old(queues)[victim]| > 1)
      ensures version == old(version) && processors == old(processors) && started == old(started)
    {
      ghost var qs := queues;
      var size := |queues[victim]|;
      stole := false;
      var i := 0;
      assert qs[victim][..size] == qs[victim] && qs[victim][size..] + qs[thief] == qs[thief];
      while i < size / 2
        invariant 0 <= i <= size / 2
        invariant stole == (i > 0)
        invariant queues == qs[victim := qs[victim][..size - i]][thief := qs[victim][size - i..] + qs[thief]]
        invariant version == old(version) && processors == old(processors) && started == old(started)
      {
        MoveOneFromBack(qs[victim], i);
        var back := queues[victim];
        var last := back[|back| - 1];
        assert back == qs[victim][..size - i] && queues[thief] == qs[victim][size - i..] + qs[thief];
        assert [last] + queues[thief] == ([last] + qs[victim][size - i..]) + qs[thief];
        UpdateTwoAgain(qs, victim, thief, back, queues[thief], back[..|back| - 1], [last] + queues[thief]);
        queues := queues[victim := back[..|back| - 1]][thief := [last] + queues[thief]];
        stole := true;
        i := i + 1;
      }
    }

    /** `start`, without the threads: one processor per queue, processor `i`
        with id `i`. */
    method Start()
      modifies this
      ensures started && |processors| == |queues|
      ensures forall i :: 0 <= i < |processors| ==>
        fresh(processors[i]) && processors[i].id == i && processors[i].pool == this &&
        !processors[i].shouldStop && processors[i].waitingTasks == map[]
      ensures queues == old(queues) && version == old(version)
    {
      var ps: seq<Processor> := [];
      for i := 0 to |queues|
        invariant |ps| == i
        invariant queues == old(queues) && version == old(version)
        invariant forall j :: 0 <= j < i ==>
          fresh(ps[j]) && ps[j].id == j && ps[j].pool == this &&
          !ps[j].shouldStop && ps[j].waitingTasks == map[]
      {
        var p := new Processor(i, this);
        ps := ps + [p];
      }
      processors := ps;
      started := true;
    }

    /** `shutdown`, without the joins: every processor is told to stop and the
        version moves on. */
    method Shutdown()
      requires started
      modifies this, set i | 0 <= i < |processors| :: processors[i]
      ensures queues == old(queues) && processors == old(processors) && started
      ensures forall i :: 0 <= i < |processors| ==> processors[i].shouldStop
      ensures forall i :: 0 <= i < |processors| ==> processors[i].waitingTasks == old(processors[i].waitingTasks)
      ensures version == old(version) + 1
    {
      for i := 0 to |processors|
        invariant queues == old(queues) && processors == old(processors) && version == old(version) && started
        invariant forall j :: 0 <= j < i ==> processors[j].shouldStop
        invariant forall j :: 0 <= j < |processors| ==> processors[j].waitingTasks == old(processors[j].waitingTasks)
      {
        processors[i].StopProcessor();
      }
      version := version + 1;
    }
  }

  /** The result cell of a task, with room for one callback. */
  class Deferred {
    var resolved: bool
    var value: Option<int>
    var hook: Option<Hook>

    constructor()
      ensures !resolved && value == None && hook == None
    {
      resolved := false;
      value := None;
      hook := None;
    }

    /** `getHasCallback`: a callback has been registered on this cell. */
    predicate HasCallback()
      reads this
      ensures HasCallback() <==> hook != None
    {
      hook.Some?
    }

    /** Registers `h`; on a cell already resolved, `h` is to run at once. */
    method WhenResolved(h: Hook) returns (runNow: bool)
      modifies this
      ensures hook == Some(h) && HasCallback()
      ensures resolved == old(resolved) && value == old(value)
      ensures runNow == resolved
    {
      hook := Some(h);
      runNow := resolved;
    }

    /** Stores `v` and hands back the callback that is to run now. */
    method Resolve(v: int) returns (run: Hook)
      requires HasCallback() && !resolved
      modifies this
      ensures resolved && value == Some(v) && hook == old(hook)
      ensures run == hook.value
    {
      resolved := true;
      value := Some(v);
      run := hook.value;
    }
  }

  class Task {
    const deferred: Deferred
    var callback: Option<Continuation>
    var processorId: nat
    var hasStarted: bool
    var subTasks: seq<Task>
    var handler: Processor?
    var numOfSubTasksFinished: nat
    var numOfSubTasks: nat

    constructor()
      ensures fresh(deferred) && !deferred.resolved && deferred.value == None && deferred.hook == None
      ensures callback == None && processorId == 0 && !hasStarted && subTasks == [] && handler == null
      ensures numOfSubTasksFinished == 0 && numOfSubTasks == 0
    {
      deferred := new Deferred();
      callback := None;
      processorId := 0;
      hasStarted := false;
      subTasks := [];
      handler := null;
      numOfSubTasksFinished := 0;
      numOfSubTasks := 0;
    }

    /** The task is known to a processor whose pool has a queue for it. */
    predicate CanResubmit()
      reads this, if handler != null then {handler.pool} else {}
    {
      handler != null && processorId < |handler.pool.queues|
    }

    /** `handle(handler)`: the body `start()` on the first call, the stored
        continuation on every later one. */
    method Handle(handler: Processor) returns (ran: Ran)
      requires hasStarted ==> callback.Some?
      modifies this
      ensures processorId == handler.id && this.handler == handler && hasStarted
      ensures ran == if old(hasStarted) then RanContinuation(old(callback).value) else RanStart
      ensures callback == old(callback) && subTasks == old(subTasks)
      ensures numOfSubTasksFinished == old(numOfSubTasksFinished) && numOfSubTasks == old(numOfSubTasks)
    {
      processorId := handler.GetId();
      this.handler := handler;
      if !hasStarted {
        hasStarted := true;
        ran := RanStart;
      } else {
        ran := RanContinuation(callback.value);
      }
    }

    /** The public `spawn(tasks)`: onto the queue of the processor that handled the task last. */
    method Spawn(tasks: seq<Task>)
      requires CanResubmit()
      modifies this`numOfSubTasks, handler.pool
      ensures numOfSubTasks == old(numOfSubTasks) + CountOther(tasks, this)
      ensures handler.pool.queues == SubmitAll(old(handler.pool.queues), processorId, tasks)
      ensures handler.pool.version == old(handler.pool.version) + |tasks|
      ensures handler.pool.processors == old(handler.pool.processors) && handler.pool.started == old(handler.pool.started)
    {
      SpawnTo(processorId, tasks);
    }

    /** The private `spawn(processorId, tasks)`: every task goes to the front of
        queue `pid`, but only tasks other than this one are counted. */
    method SpawnTo(pid: nat, tasks: seq<Task>)
      requires handler != null && pid < |handler.pool.queues|
      modifies this`numOfSubTasks, handler.pool
      ensures numOfSubTasks == old(numOfSubTasks) + CountOther(tasks, this)
      ensures handler.pool.queues == SubmitAll(old(handler.pool.queues), pid, tasks)
      ensures handler.pool.version == old(handler.pool.version) + |tasks|
      ensures handler.pool.processors == old(handler.pool.processors) && handler.pool.started == old(handler.pool.started)
    {
      var pool := handler.GetPool();
      for i := 0 to |tasks|
        invariant numOfSubTasks == old(numOfSubTasks) + CountOther(tasks[..i], this)
        invariant pool.queues == SubmitAll(old(pool.queues), pid, tasks[..i])
        invariant pool.version == old(pool.version) + i
        invariant pool.processors == old(pool.processors) && pool.started == old(pool.started)
      {
        assert tasks[..i + 1][..i] == tasks[..i];
        if tasks[i] != this {
          numOfSubTasks := numOfSubTasks + 1;
        }
        pool.SubmitTo(tasks[i], pid);
      }
      assert tasks[..|tasks|] == tasks;
    }

    /** The per-child hook `whenResolved` registers: one more child finished,
        and the task goes back to its queue once finished >= spawned. */
    method ChildResolved() returns (resubmitted: bool)
      requires CanResubmit()
      modifies this`numOfSubTasksFinished, this`numOfSubTasks, handler.pool
      ensures numOfSubTasksFinished == old(numOfSubTasksFinished) + 1
      ensures numOfSubTasks == old(numOfSubTasks)
      ensures resubmitted == HookResubmits(old(numOfSubTasksFinished), numOfSubTasks)
      ensures handler.pool.queues ==
        if resubmitted then PushFront(old(handler.pool.queues), processorId, this) else old(handler.pool.queues)
      ensures handler.pool.version == old(handler.pool.version) + (if resubmitted then 1 else 0)
      ensures handler.pool.processors == old(handler.pool.processors) && handler.pool.started == old(handler.pool.started)
    {
      numOfSubTasksFinished := numOfSubTasksFinished + 1;
      resubmitted := numOfSubTasksFinished >= numOfSubTasks;
      if resubmitted {
        SpawnTo(processorId, [this]);
        assert [this][..0] == [];
      }
    }

    /** `whenResolved(tasks, callback)`: a hook on every given task, then the
        continuation is stored; hooks of tasks already resolved run at once. */
    method WhenResolved(tasks: seq<Task>, cb: Continuation)
      requires CanResubmit()
      modifies this`subTasks, this`callback, this`numOfSubTasksFinished, this`numOfSubTasks,
        handler.pool, Results(tasks)
      ensures subTasks == tasks && callback == Some(cb)
      ensures forall k :: 0 <= k < |tasks| ==> tasks[k].deferred.hook == Some(ChildHook(this))
      ensures forall k :: 0 <= k < |tasks| ==>
        tasks[k].deferred.resolved == old(tasks[k].deferred.resolved) &&
        tasks[k].deferred.value == old(tasks[k].deferred.value)
      ensures numOfSubTasks == old(numOfSubTasks)
      ensures var fired := CountTrue(old(ResolvedFlags(Results(tasks))));
        var r := Resubmissions(old(numOfSubTasksFinished), numOfSubTasks, fired);
        && numOfSubTasksFinished == old(numOfSubTasksFinished) + fired
        && handler.pool.queues == SubmitAll(old(handler.pool.queues), processorId, Repeat(this, r))
        && handler.pool.version == old(handler.pool.version) + r
      ensures handler.pool.processors == old(handler.pool.processors) && handler.pool.started == old(handler.pool.started)
    {
      subTasks := tasks;
      HookAll(tasks);
      callback := Some(cb);
    }

    /** The loop of `whenResolved`: the per-child hook on the result of every
        given task, run at once for the results already there. */
    method HookAll(tasks: seq<Task>)
      requires CanResubmit()
      modifies this`numOfSubTasksFinished, this`numOfSubTasks, handler.pool, Results(tasks)
      ensures forall k :: 0 <= k < |tasks| ==> tasks[k].deferred.hook == Some(ChildHook(this))
      ensures forall k :: 0 <= k < |tasks| ==>
        tasks[k].deferred.resolved == old(tasks[k].deferred.resolved) &&
        tasks[k].deferred.value == old(tasks[k].deferred.value)
      ensures numOfSubTasks == old(numOfSubTasks)
      ensures var fired := CountTrue(old(ResolvedFlags(Results(tasks))));
        var r := Resubmissions(old(numOfSubTasksFinished), numOfSubTasks, fired);
        && numOfSubTasksFinished == old(numOfSubTasksFinished) + fired
        && handler.pool.queues == SubmitAll(old(handler.pool.queues), processorId, Repeat(this, r))
        && handler.pool.version == old(handler.pool.version) + r
      ensures handler.pool.processors == old(handler.pool.processors) && handler.pool.started == old(handler.pool.started)
    {
      var ds := Results(tasks);
      ghost var flags := ResolvedFlags(ds);
      ghost var values := ResultValues(ds);
      ghost var t0 := Tally(numOfSubTasksFinished, handler.pool.queues, handler.pool.version, handler.pool.processors, handler.pool.started);
      var pool := handler.GetPool();
      for i := 0 to |ds|
        invariant numOfSubTasks == old(numOfSubTasks)
        invariant Tally(numOfSubTasksFinished, pool.queues, pool.version, pool.processors, pool.started) ==
          AfterHooks(t0, this, processorId, numOfSubTasks, CountTrue(flags[..i]))
        invariant Registered(ds, i, flags, values)
      {
        var ranNow := HookChild(ds, i, flags, values, t0);
      }
      assert flags[..|ds|] == flags;
    }

    /** The results `ds` still have their resolved flags `flags` and values
        `values`, and the first `n` carry this task's per-child hook. */
    ghost predicate Registered(ds: seq<Deferred>, n: nat, flags: seq<bool>, values: seq<Option<int>>)
      reads ds
    {
      && n <= |ds| == |flags| == |values|
      && (forall k :: 0 <= k < |ds| ==> ds[k].resolved == flags[k] && ds[k].value == values[k])
      && (forall k :: 0 <= k < n ==> ds[k].hook == Some(ChildHook(this)))
    }

    /** The registration of this task's per-child hook on the result `ds[i]`,
        as the loop of `whenResolved` does it for one child; the hook runs at
        once when that result is already there and counts one more fired
        hook. */
    method HookChild(ds: seq<Deferred>, i: nat, ghost flags: seq<bool>, ghost values: seq<Option<int>>, ghost t0: Tally)
        returns (ranNow: bool)
      requires i < |ds| && CanResubmit() && processorId < |t0.queues|
      requires Registered(ds, i, flags, values)
      requires Tally(numOfSubTasksFinished, handler.pool.queues, handler.pool.version, handler.pool.processors, handler.pool.started) ==
        AfterHooks(t0, this, processorId, numOfSubTasks, CountTrue(flags[..i]))
      modifies ds[i], this`numOfSubTasksFinished, this`numOfSubTasks, handler.pool
      ensures Registered(ds, i + 1, flags, values)
      ensures ranNow == flags[i]
      ensures numOfSubTasks == old(numOfSubTasks)
      ensures Tally(numOfSubTasksFinished, handler.pool.queues, handler.pool.version, handler.pool.processors, handler.pool.started) ==
        AfterHooks(t0, this, processorId, numOfSubTasks, CountTrue(flags[..i + 1]))
    {
      ghost var fired := CountTrue(flags[..i]);
      CountTrueStep(flags, i);
      ghost var before := Tally(numOfSubTasksFinished, handler.pool.queues, handler.pool.version, handler.pool.processors, handler.pool.started);
      ranNow := RegisterChild(ds, i, flags, values);
      assert Tally(numOfSubTasksFinished, handler.pool.queues, handler.pool.version, handler.pool.processors, handler.pool.started) == before;
      if ranNow {
        RunChildHook(t0, fired);
        assert fired + 1 == CountTrue(flags[..i + 1]);
      } else {
        assert fired == CountTrue(flags[..i + 1]);
      }
    }

    /** This task's per-child hook put on the result `ds[i]`; it is to run at
        once exactly when that result is already resolved. */
    method RegisterChild(ds: seq<Deferred>, i: nat, ghost flags: seq<bool>, ghost values: seq<Option<int>>)
        returns (ranNow: bool)
      requires i < |ds| && Registered(ds, i, flags, values)
      modifies ds[i]
      ensures Registered(ds, i + 1, flags, values)
      ensures ranNow == flags[i]
    {
      ranNow := ds[i].WhenResolved(ChildHook(this));
    }

    /** The per-child hook run once more, counted from the tally `t0`. */
    method RunChildHook(ghost t0: Tally, ghost fired: nat)
      requires CanResubmit() && processorId < |t0.queues|
      requires Tally(numOfSubTasksFinished, handler.pool.queues, handler.pool.version, handler.pool.processors, handler.pool.started) ==
        AfterHooks(t0, this, processorId, numOfSubTasks, fired)
      modifies this`numOfSubTasksFinished, this`numOfSubTasks, handler.pool
      ensures numOfSubTasks == old(numOfSubTasks)
      ensures Tally(numOfSubTasksFinished, handler.pool.queues, handler.pool.version, handler.pool.processors, handler.pool.started) ==
        AfterHooks(t0, this, processorId, numOfSubTasks, fired + 1)
    {
      OneMoreHook(t0, this, processorId, numOfSubTasks, fired);
      var resubmitted := ChildResolved();
    }

    /** `complete(result)`: resolves the result once a callback is registered
        on it, and runs that callback. */
    method Complete(result: int)
      requires deferred.HasCallback() && !deferred.resolved
      requires deferred.hook.value.ChildHook? ==> deferred.hook.value.parent.CanResubmit()
      modifies deferred,
        (if deferred.hook.value.ChildHook? then {deferred.hook.value.parent} else {})`numOfSubTasksFinished,
        (if deferred.hook.value.ChildHook? then {deferred.hook.value.parent} else {})`numOfSubTasks,
        if deferred.hook.value.ChildHook? then {deferred.hook.value.parent.handler.pool} else {}
      ensures deferred.resolved && deferred.value == Some(result) && deferred.hook == old(deferred.hook)
      ensures deferred.hook.value.ChildHook? ==>
        var p := deferred.hook.value.parent;
        && p.handler == old(p.handler) && p.processorId == old(p.processorId)
        && p.numOfSubTasksFinished == old(p.numOfSubTasksFinished) + 1
        && p.numOfSubTasks == old(p.numOfSubTasks)
        && p.handler.pool.queues ==
          (if HookResubmits(old(p.numOfSubTasksFinished), p.numOfSubTasks)
           then PushFront(old(p.handler.pool.queues), p.processorId, p)
           else old(p.handler.pool.queues))
        && p.handler.pool.version ==
          old(p.handler.pool.version) + (if HookResubmits(old(p.numOfSubTasksFinished), p.numOfSubTasks) then 1 else 0)
        && p.handler.pool.processors == old(p.handler.pool.processors)
        && p.handler.pool.started == old(p.handler.pool.started)
        && p.hasStarted == old(p.hasStarted) && p.callback == old(p.callback) && p.subTasks == old(p.subTasks)
    {
      var run := deferred.Resolve(result);
      if run.ChildHook? {
        var _ := run.parent.ChildResolved();
      }
    }

    function GetResult(): (d: Deferred)
      ensures d == deferred
    {
      deferred
    }
  }

  class Processor {
    const id: nat
    const pool: WorkStealingThreadPool
    var shouldStop: bool
    var waitingTasks: map<Task, Continuation>

    constructor(id: nat, pool: WorkStealingThreadPool)
      ensures this.id == id && this.pool == pool && !shouldStop && waitingTasks == map[]
    {
      this.id := id;
      this.pool := pool;
      shouldStop := false;
      waitingTasks := map[];
    }

    function GetId(): (r: nat)
      ensures r == id
    {
      id
    }

    function GetPool(): (p: WorkStealingThreadPool)
      ensures p == pool
    {
      pool
    }

    /** Keeps the first callback registered for `t`. */
    method AddToWaitingTasks(t: Task, callback: Continuation)
      modifies this`waitingTasks
      ensures waitingTasks == if t in old(waitingTasks) then old(waitingTasks) else old(waitingTasks)[t := callback]
    {
      if t !in waitingTasks {
        waitingTasks := waitingTasks[t := callback];
      }
    }

    method StopProcessor()
      modifies this`shouldStop
      ensures shouldStop
    {
      shouldStop := true;
    }

    /** One iteration of `run`: snapshot the version, take the front of the
        own queue, steal only when that queue is empty, and handle the task
        obtained, if any. */
    method Step() returns (ver: nat, handled: Option<Task>, ran: Option<Ran>)
      requires !shouldStop
      requires id < |pool.queues|
      requires var n := NextTask(pool.queues, id); n.Some? && n.value.hasStarted ==> n.value.callback.Some?
      modifies pool, var n := NextTask(pool.queues, id); if n.Some? then {n.value} else {}
      ensures handled == NextTask(old(pool.queues), id)
      ensures ver == old(pool.version) && pool.version == old(pool.version)
      ensures pool.processors == old(pool.processors) && pool.started == old(pool.started)
      ensures old(pool.queues[id]) != [] ==>
        handled == Some(old(pool.queues[id][0])) && pool.queues == PollFirst(old(pool.queues), id).queues
      ensures old(pool.queues[id]) == [] ==> Taken(pool.queues, handled) == Steal(old(pool.queues), id)
      ensures handled.Some? ==> handled.value in old(Queued(pool.queues))
      ensures handled.Some? <==> ran.Some?
      ensures handled.Some? ==>
        var t := handled.value;
        && t.processorId == id && t.handler == this && t.hasStarted
        && ran.value == (if old(t.hasStarted) then RanContinuation(old(t.callback).value) else RanStart)
        && t.callback == old(t.callback) && t.subTasks == old(t.subTasks)
        && t.numOfSubTasksFinished == old(t.numOfSubTasksFinished) && t.numOfSubTasks == old(t.numOfSubTasks)
      ensures forall t: Task :: old(allocated(t)) && (handled.None? || t != handled.value) ==>
        t.hasStarted == old(t.hasStarted) && t.processorId == old(t.processorId) &&
        t.handler == old(t.handler) && t.callback == old(t.callback)
    {
      ghost var qs := pool.queues;
      ghost var next := NextTask(qs, id);
      ver := pool.GetVMVersion();
      handled := pool.GetNextTask(id);
      if handled.None? {
        assert pool.queues == qs;
        handled := pool.StealTasks(id, ver);
        StealHandsOutQueuedTask(qs, id);
      } else {
        PollHandsOutQueuedTask(qs, id);
      }
      assert handled == next;
      if handled.Some? {
        var r := handled.value.Handle(this);
        ran := Some(r);
      } else {
        ran := None;
      }
    }
  }
}
