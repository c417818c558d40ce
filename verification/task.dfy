/**
 * Tasks (task.c): an identifier, a due time, a repeat interval and a callback
 * bound to caller-owned data.
 *
 * The callback's effect is given by an interpreter `call(callback, data, env, now)`
 * returning a Dispatch: the outcome, the new state of whatever the callback
 * touches, whether it stopped the scheduler running it, and how long it took.
 */
module Tasks {
  import opened Common
  import UniqueId

  datatype Outcome = Done | Repeat | Fail

  datatype Task<C, D> = Task(id: UniqueId.Uid, runTime: int, interval: int, callback: C, data: D)

  /** What one callback invocation did. */
  datatype Dispatch<E> = Dispatch(outcome: Outcome, env: E, stopsScheduler: bool, elapsed: nat)

  /**
   * TaskCreate: allocate the task (None when malloc fails, and then no
   * identifier is drawn), stamp a fresh UID, store the due time and interval.
   */
  function Create<C, D>(g: UniqueId.Generator, now: int, pid: int, callback: C, data: D,
                        startTime: int, interval: int, allocOk: bool)
    : (r: (Option<Task<C, D>>, UniqueId.Generator))
    ensures r.0.Some? <==> allocOk
    ensures r.0.None? ==> r.1 == g
    ensures r.0.Some? ==> r.0.value.runTime == startTime && r.0.value.interval == interval
    ensures r.0.Some? ==> r.0.value.callback == callback && r.0.value.data == data
    ensures r.0.Some? ==> r.0.value.id.counter == g.counter && r.1.counter == g.counter + 1
    ensures r.0.Some? && pid != 0 ==> !UniqueId.IsBad(r.0.value.id)
  {
    if !allocOk then (None, g)
    else
      var (id, g1) := UniqueId.Create(g, now, pid);
      (Some(Task(id, startTime, interval, callback, data)), g1)
  }

  /** TaskGetId */
  function GetId<C, D>(t: Task<C, D>): UniqueId.Uid {
    t.id
  }

  /** TaskGetRunTime */
  function GetRunTime<C, D>(t: Task<C, D>): int {
    t.runTime
  }

  /** TaskUpdateRunTime: the next due time is the current time plus the interval. */
  function UpdateRunTime<C, D>(t: Task<C, D>, now: int): (r: Task<C, D>)
    ensures r.runTime == now + t.interval
    ensures r.id == t.id && r.interval == t.interval && r.callback == t.callback && r.data == t.data
  {
    t.(runTime := now + t.interval)
  }

  /** Rescheduling ignores the old due time: it is anchored to the clock, not to the previous schedule. */
  lemma UpdateRunTimeIgnoresOldDueTime<C, D>(t: Task<C, D>, oldRunTime: int, now: int)
    ensures UpdateRunTime(t.(runTime := oldRunTime), now) == UpdateRunTime(t, now)
  {
  }

  /** TaskRun: invoke the callback on the task's own data. */
  function Run<C, D, E>(t: Task<C, D>, call: (C, D, E, int) -> Dispatch<E>, env: E, now: int): Dispatch<E> {
    call(t.callback, t.data, env, now)
  }
}
