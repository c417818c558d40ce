/**
 * The single-threaded task scheduler (scheduler.c): a priority queue of tasks
 * ordered by due time and a running flag.
 *
 * Time is an explicit clock. Sleeping until a task is due moves the clock to
 * the task's due time; a callback advances it by the time it reports having
 * taken. Run is a loop bounded by a fuel count, so that it is a total function.
 */
module TaskScheduler {
  import opened Common
  import opened Order
  import UniqueId
  import Tasks
  import PriorityQueue
  import DynamicVector

  datatype Scheduler<C, D> = Scheduler(queue: PriorityQueue.PQueue<Tasks.Task<C, D>>, running: bool)
  {
    function Items(): seq<Tasks.Task<C, D>> {
      queue.Items()
    }
  }

  /** What SchedulerRun returns: COMPLETE when the queue ran dry, STOP when SchedulerStop was called. */
  datatype RunStatus = Complete | Stopped

  /** HasHigherPriority(queued, incoming): the incoming task goes first when the queued one is due later. */
  predicate HasHigherPriority<C, D>(queued: Tasks.Task<C, D>, incoming: Tasks.Task<C, D>) {
    queued.runTime > incoming.runTime
  }

  /** Ordering by due time is a comparator the heap invariant is stated for. */
  lemma PriorityIsStrictWeakOrder<C(!new), D(!new)>()
    ensures StrictWeakOrder(HasHigherPriority<C, D>)
  {
    GreaterKeyIsStrictWeakOrder((t: Tasks.Task<C, D>) => t.runTime, HasHigherPriority<C, D>);
  }

  /**
   * IDIsMatch as HeapRemove calls it: the searched identifier first, the
   * queued task second, compared with UIDIsSame.
   */
  predicate IDIsMatch<C, D>(id: UniqueId.Uid, t: Tasks.Task<C, D>) {
    UniqueId.IsSame(t.id, id)
  }

  ghost predicate Valid<C, D>(s: Scheduler<C, D>) {
    PriorityQueue.Valid(s.queue, HasHigherPriority<C, D>)
  }

  /* ---------------------- identifier bookkeeping ---------------------- */

  /** The identifiers of the queued tasks. */
  ghost function IdsOf<C, D>(m: multiset<Tasks.Task<C, D>>): set<UniqueId.Uid> {
    set t | t in m :: t.id
  }

  /** No two queued tasks share an identifier (and no task is queued twice). */
  ghost predicate UniqueIds<C, D>(m: multiset<Tasks.Task<C, D>>) {
    && (forall t :: t in m ==> m[t] == 1)
    && (forall t, u :: t in m && u in m && t.id == u.id ==> t == u)
  }

  /** Every queued identifier was drawn before the generator reached its current count. */
  ghost predicate IdsBelow<C, D>(m: multiset<Tasks.Task<C, D>>, g: UniqueId.Generator) {
    forall t :: t in m ==> t.id.counter < g.counter
  }

  /** The bookkeeping a scheduler keeps between calls, relative to the process's UID counter. */
  ghost predicate WellFormed<C, D>(s: Scheduler<C, D>, g: UniqueId.Generator) {
    Valid(s) && UniqueIds(multiset(s.Items())) && IdsBelow(multiset(s.Items()), g)
  }

  lemma SubKeepsIds<C, D>(m: multiset<Tasks.Task<C, D>>, m': multiset<Tasks.Task<C, D>>, g: UniqueId.Generator)
    requires m' <= m
    ensures UniqueIds(m) ==> UniqueIds(m')
    ensures IdsBelow(m, g) ==> IdsBelow(m', g)
    ensures IdsOf(m') <= IdsOf(m)
  {
  }

  /** Adding a task whose identifier is the generator's next value keeps identifiers unique and below the advanced generator. */
  lemma AddFreshKeepsIds<C, D>(m: multiset<Tasks.Task<C, D>>, t: Tasks.Task<C, D>, g: UniqueId.Generator)
    requires t.id.counter == g.counter
    ensures UniqueIds(m) && IdsBelow(m, g) ==>
              UniqueIds(m + multiset{t}) && IdsBelow(m + multiset{t}, UniqueId.Generator(g.counter + 1))
  {
    if IdsBelow(m, g) {
      assert t !in m;
    }
  }

  /** Replacing a queued task by one with the same identifier keeps identifiers unique. */
  lemma ReplaceKeepsIds<C, D>(m: multiset<Tasks.Task<C, D>>, t: Tasks.Task<C, D>, t': Tasks.Task<C, D>)
    requires t in m && t'.id == t.id
    ensures UniqueIds(m) ==> UniqueIds(m - multiset{t} + multiset{t'})
    ensures IdsOf(m - multiset{t} + multiset{t'}) == IdsOf(m)
  {
    var rest := m - multiset{t};
    var m' := rest + multiset{t'};
    if UniqueIds(m) {
      assert forall u :: u in rest ==> u in m && u != t;
      assert t' !in rest;
      forall u | u in m'
        ensures m'[u] == 1
      {
        if u != t' {
          assert u in rest;
        }
      }
    }
  }

  /* --------------------------- operations --------------------------- */

  /**
   * SchedulerCreate: the scheduler record and its queue are allocated in
   * turn; either failing gives None. A new scheduler is empty and not running.
   */
  function Create<C, D>(schedAllocOk: bool, queueAllocOk: bool): (r: Option<Scheduler<C, D>>)
    ensures r.Some? <==> schedAllocOk && queueAllocOk
    ensures r.Some? ==> Valid(r.value) && r.value.Items() == [] && !r.value.running
    ensures r.Some? ==> forall g :: WellFormed(r.value, g)
    ensures r.Some? ==> DynamicVector.Capacity(r.value.queue.heap.dv) == PriorityQueue.HeapCapacity
  {
    if !schedAllocOk then None
    else
      match PriorityQueue.Create<Tasks.Task<C, D>>(queueAllocOk)
      case None => None
      case Some(q) =>
        PriorityQueue.CreatedIsValid<Tasks.Task<C, D>>(queueAllocOk, HasHigherPriority<C, D>);
        Some(Scheduler(q, false))
  }

  /** SchedulerSize */
  function Size<C, D>(s: Scheduler<C, D>): (n: nat)
    requires Valid(s)
    ensures n == |s.Items()|
  {
    PriorityQueue.Size(s.queue)
  }

  /** SchedulerIsEmpty */
  predicate IsEmpty<C, D>(s: Scheduler<C, D>)
    requires Valid(s)
  {
    PriorityQueue.IsEmpty(s.queue)
  }

  /** SchedulerStop: clear the running flag; the queue is untouched. */
  function Stop<C, D>(s: Scheduler<C, D>): (r: Scheduler<C, D>)
    ensures !r.running && r.queue == s.queue
  {
    s.(running := false)
  }

  /**
   * SchedulerAddTask: create a task (drawing a UID) and push it. On either
   * allocation failure the queue is unchanged and the bad UID is returned;
   * a UID drawn for a task that could not be queued stays consumed.
   */
  function AddTask<C(!new), D(!new)>(s: Scheduler<C, D>, g: UniqueId.Generator, callback: C, data: D,
                                     startTime: int, interval: int, now: int, pid: int,
                                     taskAllocOk: bool, growOk: bool)
    : (r: (UniqueId.Uid, Scheduler<C, D>, UniqueId.Generator))
    requires Valid(s)
    ensures Valid(r.1) && r.1.running == s.running
    ensures DynamicVector.Capacity(r.1.queue.heap.dv) >= DynamicVector.Capacity(s.queue.heap.dv)
    ensures var added := taskAllocOk && (growOk || |s.Items()| < DynamicVector.Capacity(s.queue.heap.dv));
            && (added ==> r.0 == UniqueId.Uid(now, pid, g.counter))
            && (added ==> multiset(r.1.Items()) == multiset(s.Items()) + multiset{Tasks.Task(r.0, startTime, interval, callback, data)})
            && (!added ==> r.0 == UniqueId.CreateBad() && r.1 == s)
    ensures r.2 == if taskAllocOk then UniqueId.Generator(g.counter + 1) else g
    ensures pid != 0 ==> (UniqueId.IsBad(r.0) <==> r.1 == s)
    ensures WellFormed(s, g) ==> WellFormed(r.1, r.2)
  {
    PriorityIsStrictWeakOrder<C, D>();
    var (t, g1) := Tasks.Create(g, now, pid, callback, data, startTime, interval, taskAllocOk);
    if t.None? then (UniqueId.CreateBad(), s, g1)
    else
      var (st, q) := PriorityQueue.Push(s.queue, t.value, HasHigherPriority<C, D>, growOk);
      if st == Success then
        AddFreshKeepsIds(multiset(s.Items()), t.value, g);
        (Tasks.GetId(t.value), s.(queue := q), g1)
      else (UniqueId.CreateBad(), s, g1)
  }

  /**
   * SchedulerRemoveTask: erase the first queued task whose identifier is
   * `id`; FAILURE when there is none.
   */
  function RemoveTask<C(!new), D(!new)>(s: Scheduler<C, D>, id: UniqueId.Uid): (r: (Status, Scheduler<C, D>))
    requires Valid(s)
    ensures Valid(r.1) && r.1.running == s.running
    ensures r.0 == Failure <==> forall t :: t in s.Items() ==> t.id != id
    ensures r.0 == Failure ==> r.1 == s
    ensures r.0 == Success ==> exists t :: t in s.Items() && t.id == id &&
                                           multiset(r.1.Items()) == multiset(s.Items()) - multiset{t}
    ensures multiset(r.1.Items()) <= multiset(s.Items())
  {
    PriorityIsStrictWeakOrder<C, D>();
    var (t, q) := PriorityQueue.Erase(s.queue, id, IDIsMatch<C, D>, HasHigherPriority<C, D>);
    if t.Some? then
      assert t.value in s.Items() by {
        assert t.value in multiset(s.Items());
      }
      (Success, s.(queue := q))
    else
      (Failure, s)
  }

  /** With unique identifiers, removing by an identifier a second time fails. */
  lemma RemoveTwiceFails<C(!new), D(!new)>(s: Scheduler<C, D>, id: UniqueId.Uid)
    requires Valid(s) && UniqueIds(multiset(s.Items()))
    ensures var (st, s1) := RemoveTask(s, id);
            st == Success ==> RemoveTask(s1, id).0 == Failure
  {
    var (st, s1) := RemoveTask(s, id);
    if st == Success {
      var m := multiset(s.Items());
      var t :| t in s.Items() && t.id == id && multiset(s1.Items()) == m - multiset{t};
      forall u | u in s1.Items()
        ensures u.id != id
      {
        assert u in multiset(s1.Items());
        assert u in m && u != t;
      }
    }
  }

  /** SchedulerDestroy: every queued task is popped and destroyed, each exactly once. */
  function Destroy<C(!new), D(!new)>(s: Scheduler<C, D>): (destroyed: seq<Tasks.Task<C, D>>)
    requires Valid(s)
    ensures multiset(destroyed) == multiset(s.Items())
    ensures forall i, j :: 0 <= i < j < |destroyed| ==> destroyed[i].runTime <= destroyed[j].runTime
  {
    PriorityIsStrictWeakOrder<C, D>();
    PriorityQueue.Drain(s.queue, HasHigherPriority<C, D>)
  }

  /* ------------------------------ running ------------------------------ */

  /** One iteration of SchedulerRun's loop. */
  datatype StepResult<C, D, E> =
    StepResult(sched: Scheduler<C, D>, clock: int, env: E, dispatched: Tasks.Task<C, D>, outcome: Tasks.Outcome)

  /**
   * Sleep until the earliest task is due, pop it, run it, then: FAIL and
   * DONE destroy it; REPEAT reschedules it `interval` after the clock at
   * completion and pushes it back (a failed push would destroy it). A
   * callback that called SchedulerStop clears the running flag.
   */
  function Step<C(!new), D(!new), E>(s: Scheduler<C, D>, clock: int, env: E,
                                     call: (C, D, E, int) -> Tasks.Dispatch<E>, growOk: bool)
    : (r: StepResult<C, D, E>)
    requires Valid(s) && !IsEmpty(s)
    ensures Valid(r.sched)
    ensures r.dispatched in s.Items()
    ensures forall t :: t in s.Items() ==> r.dispatched.runTime <= t.runTime
    ensures var start := if r.dispatched.runTime > clock then r.dispatched.runTime else clock;
            var d := Tasks.Run(r.dispatched, call, env, start);
            && r.outcome == d.outcome && r.env == d.env && r.clock == start + d.elapsed
            && r.sched.running == (s.running && !d.stopsScheduler)
    ensures r.clock >= clock && r.clock >= r.dispatched.runTime
    ensures r.outcome != Tasks.Repeat ==>
              multiset(r.sched.Items()) == multiset(s.Items()) - multiset{r.dispatched}
    ensures r.outcome == Tasks.Repeat ==>
              multiset(r.sched.Items()) ==
              multiset(s.Items()) - multiset{r.dispatched} + multiset{Tasks.UpdateRunTime(r.dispatched, r.clock)}
    ensures |r.sched.Items()| == if r.outcome == Tasks.Repeat then |s.Items()| else |s.Items()| - 1
    ensures IdsOf(multiset(r.sched.Items())) <= IdsOf(multiset(s.Items()))
    ensures UniqueIds(multiset(s.Items())) ==> UniqueIds(multiset(r.sched.Items()))
  {
    PriorityIsStrictWeakOrder<C, D>();
    var popped := PriorityQueue.Pop(s.queue, HasHigherPriority<C, D>);
    var t := popped.0.value;
    var start := if t.runTime > clock then t.runTime else clock;
    var d := Tasks.Run(t, call, env, start);
    var finish := start + d.elapsed;
    var sched := Settle(s, popped.1, t, d.outcome, finish, s.running && !d.stopsScheduler, growOk);
    StepResult(sched, finish, d.env, t, d.outcome)
  }

  /**
   * The second half of an iteration of SchedulerRun, once task `t` has been
   * popped (leaving queue `q1`) and run: DONE and FAIL leave it destroyed;
   * REPEAT pushes it back due `interval` after `finish`. The pop left room
   * for it, so the push succeeds whether or not the queue may grow.
   */
  function Settle<C(!new), D(!new)>(s: Scheduler<C, D>, q1: PriorityQueue.PQueue<Tasks.Task<C, D>>,
                                    t: Tasks.Task<C, D>, outcome: Tasks.Outcome, finish: int,
                                    running: bool, growOk: bool)
    : (r: Scheduler<C, D>)
    requires PriorityQueue.Valid(q1, HasHigherPriority<C, D>)
    requires t in multiset(s.Items()) && multiset(q1.Items()) == multiset(s.Items()) - multiset{t}
    requires |s.Items()| <= DynamicVector.Capacity(q1.heap.dv)
    ensures Valid(r) && r.running == running
    ensures outcome != Tasks.Repeat ==> multiset(r.Items()) == multiset(s.Items()) - multiset{t}
    ensures outcome == Tasks.Repeat ==>
              multiset(r.Items()) == multiset(s.Items()) - multiset{t} + multiset{Tasks.UpdateRunTime(t, finish)}
    ensures |r.Items()| == if outcome == Tasks.Repeat then |s.Items()| else |s.Items()| - 1
    ensures IdsOf(multiset(r.Items())) <= IdsOf(multiset(s.Items()))
    ensures UniqueIds(multiset(s.Items())) ==> UniqueIds(multiset(r.Items()))
  {
    PriorityIsStrictWeakOrder<C, D>();
    assert |q1.Items()| == |s.Items()| - 1 by {
      assert |multiset(q1.Items())| == |multiset(s.Items())| - 1;
    }
    if outcome == Tasks.Repeat then
      var t' := Tasks.UpdateRunTime(t, finish);
      var pushed := PriorityQueue.Push(q1, t', HasHigherPriority<C, D>, growOk);
      ReplaceKeepsIds(multiset(s.Items()), t, t');
      Scheduler(pushed.1, running)
    else
      SubKeepsIds(multiset(s.Items()), multiset(s.Items()) - multiset{t}, UniqueId.Initial);
      Scheduler(q1, running)
  }

  /** How SchedulerRun ended: its status, or the fuel bound ran out first. */
  datatype RunResult<C, D, E> =
    | Finished(status: RunStatus, sched: Scheduler<C, D>, clock: int, env: E)
    | OutOfFuel(sched: Scheduler<C, D>, clock: int, env: E)

  /**
   * The loop of SchedulerRun, at most `fuel` iterations. The re-push of a
   * repeating task directly follows its pop, so it never needs to grow the
   * queue; the loop therefore runs Step with growing disallowed. When every
   * callback asks to be repeated the queue never empties, so such a loop can
   * only end by being stopped.
   */
  function Loop<C(!new), D(!new), E(!new)>(s: Scheduler<C, D>, clock: int, env: E,
                                     call: (C, D, E, int) -> Tasks.Dispatch<E>, fuel: nat)
    : (r: RunResult<C, D, E>)
    requires Valid(s)
    ensures Valid(r.sched) && r.clock >= clock
    ensures r.Finished? ==> (r.status == Complete <==> r.sched.running)
    ensures r.Finished? && r.status == Complete ==> IsEmpty(r.sched)
    ensures r.OutOfFuel? ==> !IsEmpty(r.sched) && r.sched.running
    ensures !s.running ==> r == Finished(Stopped, s, clock, env)
    ensures IdsOf(multiset(r.sched.Items())) <= IdsOf(multiset(s.Items()))
    ensures UniqueIds(multiset(s.Items())) ==> UniqueIds(multiset(r.sched.Items()))
    ensures (forall c, d, e, n :: call(c, d, e, n).outcome == Tasks.Repeat) && !IsEmpty(s) ==> !IsEmpty(r.sched)
    decreases fuel
  {
    if IsEmpty(s) || !s.running then
      Finished(if s.running then Complete else Stopped, s, clock, env)
    else if fuel == 0 then
      OutOfFuel(s, clock, env)
    else
      var r := Step(s, clock, env, call, false);
      Loop(r.sched, r.clock, r.env, call, fuel - 1)
  }

  /** SchedulerRun: set the running flag and loop. */
  function Run<C(!new), D(!new), E(!new)>(s: Scheduler<C, D>, clock: int, env: E,
                                    call: (C, D, E, int) -> Tasks.Dispatch<E>, fuel: nat)
    : (r: RunResult<C, D, E>)
    requires Valid(s)
    ensures Valid(r.sched) && r.clock >= clock
    ensures r.Finished? ==> (r.status == Complete <==> r.sched.running)
    ensures r.Finished? && r.status == Complete ==> IsEmpty(r.sched)
    ensures r.Finished? && r.status == Stopped ==> !r.sched.running
    ensures IsEmpty(s) ==> r == Finished(Complete, s.(running := true), clock, env)
    ensures (forall c, d, e, n :: call(c, d, e, n).outcome == Tasks.Repeat) && !IsEmpty(s) ==>
              !IsEmpty(r.sched) && !(r.Finished? && r.status == Complete)
  {
    Loop(s.(running := true), clock, env, call, fuel)
  }

  /* ------------------------------ properties ------------------------------ */

  /** A task just added can be removed by the identifier AddTask returned, which restores the queue's contents. */
  lemma AddThenRemove<C(!new), D(!new)>(s: Scheduler<C, D>, g: UniqueId.Generator, callback: C, data: D,
                                        startTime: int, interval: int, now: int, pid: int)
    requires WellFormed(s, g)
    ensures var added := AddTask(s, g, callback, data, startTime, interval, now, pid, true, true);
            var removed := RemoveTask(added.1, added.0);
            removed.0 == Success && multiset(removed.1.Items()) == multiset(s.Items())
  {
    var added := AddTask(s, g, callback, data, startTime, interval, now, pid, true, true);
    var t := Tasks.Task(added.0, startTime, interval, callback, data);
    assert t in added.1.Items() by { assert t in multiset(added.1.Items()); }
    var removed := RemoveTask(added.1, added.0);
    var u :| u in added.1.Items() && u.id == added.0 &&
             multiset(removed.1.Items()) == multiset(added.1.Items()) - multiset{u};
    RemoveOnlyMatch(multiset(s.Items()), t, u);
  }

  /** In a multiset with unique identifiers, the one element with `t`'s identifier is `t` itself. */
  lemma RemoveOnlyMatch<C, D>(m: multiset<Tasks.Task<C, D>>, t: Tasks.Task<C, D>, u: Tasks.Task<C, D>)
    requires UniqueIds(m + multiset{t}) && u in m + multiset{t} && u.id == t.id
    ensures (m + multiset{t}) - multiset{u} == m
  {
  }

  /** A callback that stops its scheduler ends SchedulerRun right after it, with STOP. */
  lemma StopEndsRun<C(!new), D(!new), E(!new)>(s: Scheduler<C, D>, clock: int, env: E,
                                         call: (C, D, E, int) -> Tasks.Dispatch<E>, fuel: nat)
    requires Valid(s) && !IsEmpty(s) && s.running
    ensures var r := Step(s, clock, env, call, false);
            var start := if r.dispatched.runTime > clock then r.dispatched.runTime else clock;
            Tasks.Run(r.dispatched, call, env, start).stopsScheduler ==>
              Loop(s, clock, env, call, fuel + 1) == Finished(Stopped, r.sched, r.clock, r.env)
  {
  }

  /**
   * With non-negative intervals, nothing left queued after an iteration is
   * due before the task it dispatched: the others were due no earlier, and
   * a rescheduled task is due `interval` after the clock at completion.
   */
  lemma StepLeavesLaterTasks<C(!new), D(!new), E>(s: Scheduler<C, D>, clock: int, env: E,
                                                  call: (C, D, E, int) -> Tasks.Dispatch<E>)
    requires Valid(s) && !IsEmpty(s)
    requires forall t :: t in s.Items() ==> t.interval >= 0
    ensures var r := Step(s, clock, env, call, false);
            forall t :: t in r.sched.Items() ==> r.dispatched.runTime <= t.runTime && t.interval >= 0
  {
    var r := Step(s, clock, env, call, false);
    LaterAfterReplace(s.Items(), r.sched.Items(), r.dispatched, r.clock, r.outcome == Tasks.Repeat);
  }

  /** The multiset half of StepLeavesLaterTasks. */
  lemma LaterAfterReplace<C, D>(a: seq<Tasks.Task<C, D>>, b: seq<Tasks.Task<C, D>>, d: Tasks.Task<C, D>,
                                finish: int, repeat: bool)
    requires forall t :: t in a ==> d.runTime <= t.runTime && t.interval >= 0
    requires d in a && finish >= d.runTime
    requires !repeat ==> multiset(b) == multiset(a) - multiset{d}
    requires repeat ==> multiset(b) == multiset(a) - multiset{d} + multiset{Tasks.UpdateRunTime(d, finish)}
    ensures forall t :: t in b ==> d.runTime <= t.runTime && t.interval >= 0
  {
    forall t | t in b
      ensures d.runTime <= t.runTime && t.interval >= 0
    {
      assert t in multiset(b);
      if t !in multiset(a) {
        assert t == Tasks.UpdateRunTime(d, finish);
      }
    }
  }

  /**
   * With non-negative intervals, consecutive iterations dispatch tasks in
   * order of due time.
   */
  lemma DispatchOrderNonDecreasing<C(!new), D(!new), E>(s: Scheduler<C, D>, clock: int, env: E,
                                                        call: (C, D, E, int) -> Tasks.Dispatch<E>)
    requires Valid(s) && !IsEmpty(s)
    requires forall t :: t in s.Items() ==> t.interval >= 0
    ensures var r1 := Step(s, clock, env, call, false);
            !IsEmpty(r1.sched) ==>
              r1.dispatched.runTime <= Step(r1.sched, r1.clock, r1.env, call, false).dispatched.runTime
  {
    StepLeavesLaterTasks(s, clock, env, call);
  }
}
