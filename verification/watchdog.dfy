/**
 * The watchdog's heartbeat bookkeeping (wd_shared.c).
 *
 * Each side of the watchdog pair runs a scheduler loaded with three
 * recurring tasks: send a heartbeat to the peer every second, count the
 * seconds since the last heartbeat arrived, and every two seconds stop the
 * scheduler when that count has passed the limit. When the scheduler stops,
 * the main loop revives the peer and runs the scheduler again, for as long
 * as the keep-running flag holds.
 *
 * Signals, fork and exec are not modelled as such: a heartbeat arriving, a
 * stop request arriving and the outcome of fork are events of a process
 * state machine, and the targets of the heartbeats sent are recorded.
 */
module Watchdog {
  import opened Common
  import UniqueId
  import Tasks
  import TaskScheduler
  import DynamicVector
  import PriorityQueue

  /** Seconds between heartbeats sent to the peer. */
  const SendInterval: int := 1
  /** Seconds between staleness checks. */
  const CheckInterval: int := 2
  /** How many counted seconds without a heartbeat are tolerated. */
  const MaxSecondsWaiting: int := 3
  /** Seconds between increments of the staleness counter. */
  const CountOneSecInterval: int := 1

  /** The three task functions. */
  datatype Callback = SendSignal | CheckSignal | CounterAddOne

  /** What each task is bound to: the slot holding the peer's pid, the scheduler itself, or nothing. */
  datatype Data = PeerPidSlot | OwnScheduler | NoData

  type Sched = TaskScheduler.Scheduler<Callback, Data>

  /**
   * The process state the tasks and handlers touch: the seconds counted
   * since the last heartbeat, the keep-running flag, the peer's pid, and
   * the pids heartbeats were sent to so far.
   */
  datatype Env = Env(sinceLastSig: int, keepRun: bool, peerPid: int, signalled: seq<int>)

  /* ------------------------------ the tasks ------------------------------ */

  /** SendSignalTask: send a heartbeat to whatever pid the peer slot holds now; always REPEAT. */
  function SendSignalTask(env: Env): (r: (Tasks.Outcome, Env))
    ensures r.0 == Tasks.Repeat
    ensures r.1.signalled == env.signalled + [env.peerPid]
    ensures r.1.sinceLastSig == env.sinceLastSig && r.1.keepRun == env.keepRun && r.1.peerPid == env.peerPid
  {
    (Tasks.Repeat, env.(signalled := env.signalled + [env.peerPid]))
  }

  /** CounterAddOneTask: one more second without a heartbeat; always REPEAT. */
  function CounterAddOneTask(env: Env): (r: (Tasks.Outcome, Env))
    ensures r.0 == Tasks.Repeat
    ensures r.1.sinceLastSig == env.sinceLastSig + 1
    ensures r.1.keepRun == env.keepRun && r.1.peerPid == env.peerPid && r.1.signalled == env.signalled
  {
    (Tasks.Repeat, env.(sinceLastSig := env.sinceLastSig + 1))
  }

  /**
   * CheckSignalTask: past the limit, stop the scheduler and zero the
   * counter ahead of the revival; otherwise change nothing. Always REPEAT.
   * The third component says whether the scheduler was stopped.
   */
  function CheckSignalTask(env: Env): (r: (Tasks.Outcome, Env, bool))
    ensures r.0 == Tasks.Repeat
    ensures r.2 <==> env.sinceLastSig > MaxSecondsWaiting
    ensures r.2 ==> r.1 == env.(sinceLastSig := 0)
    ensures !r.2 ==> r.1 == env
  {
    if env.sinceLastSig > MaxSecondsWaiting then (Tasks.Repeat, env.(sinceLastSig := 0), true)
    else (Tasks.Repeat, env, false)
  }

  /** The callbacks as the scheduler runs them. They take no measurable time. */
  function Call(cb: Callback, d: Data, env: Env, now: int): (r: Tasks.Dispatch<Env>)
    ensures r.outcome == Tasks.Repeat && r.elapsed == 0
    ensures r.stopsScheduler <==> cb == CheckSignal && env.sinceLastSig > MaxSecondsWaiting
    ensures r.stopsScheduler ==> r.env.sinceLastSig == 0
    ensures r.env.keepRun == env.keepRun && r.env.peerPid == env.peerPid
    ensures r.env.signalled == env.signalled || r.env.signalled == env.signalled + [env.peerPid]
  {
    match cb
    case SendSignal =>
      var (o, e) := SendSignalTask(env);
      Tasks.Dispatch(o, e, false, 0)
    case CounterAddOne =>
      var (o, e) := CounterAddOneTask(env);
      Tasks.Dispatch(o, e, false, 0)
    case CheckSignal =>
      var (o, e, stop) := CheckSignalTask(env);
      Tasks.Dispatch(o, e, stop, 0)
  }

  /** Every watchdog task asks to be repeated, so a scheduler running them never drains and only ever ends stopped. */
  lemma RunOnlyStops(s: Sched, clock: int, env: Env, fuel: nat)
    requires TaskScheduler.Valid(s) && !TaskScheduler.IsEmpty(s)
    ensures var r := TaskScheduler.Run(s, clock, env, Call, fuel);
            !TaskScheduler.IsEmpty(r.sched) && (r.Finished? ==> r.status == TaskScheduler.Stopped)
  {
    forall c, d, e, n
      ensures Call(c, d, e, n).outcome == Tasks.Repeat
    {
    }
  }

  /* ---------------------------- the handlers ---------------------------- */

  /** SigHandZeroCounter: a heartbeat arrived; only the counter changes. */
  function SigHandZeroCounter(env: Env): (r: Env)
    ensures r.sinceLastSig == 0
    ensures r.keepRun == env.keepRun && r.peerPid == env.peerPid && r.signalled == env.signalled
  {
    env.(sinceLastSig := 0)
  }

  /* ---------------------------- initialisation ---------------------------- */

  /** The three tasks InitScheduler queues, with the identifiers drawn for them. */
  function Expected(u1: UniqueId.Uid, u2: UniqueId.Uid, u3: UniqueId.Uid, now: int)
    : multiset<Tasks.Task<Callback, Data>>
  {
    multiset{Tasks.Task(u1, now, SendInterval, SendSignal, PeerPidSlot),
             Tasks.Task(u2, now, CheckInterval, CheckSignal, OwnScheduler),
             Tasks.Task(u3, now, CountOneSecInterval, CounterAddOne, NoData)}
  }

  datatype InitResult = InitResult(status: Status, sched: Option<Sched>, uids: seq<UniqueId.Uid>, gen: UniqueId.Generator)

  /** How many of the three task allocations succeeded. */
  function Count(ok1: bool, ok2: bool, ok3: bool): nat {
    (if ok1 then 1 else 0) + (if ok2 then 1 else 0) + (if ok3 then 1 else 0)
  }

  /** One SchedulerAddTask of InitScheduler, on a scheduler with a free slot: it never needs to grow the queue. */
  function AddOne(s: Sched, g: UniqueId.Generator, cb: Callback, d: Data, interval: int, now: int, pid: int, ok: bool)
    : (r: (UniqueId.Uid, Sched, UniqueId.Generator))
    requires TaskScheduler.WellFormed(s, g) && !s.running
    requires |s.Items()| < DynamicVector.Capacity(s.queue.heap.dv)
    ensures TaskScheduler.WellFormed(r.1, r.2) && !r.1.running
    ensures DynamicVector.Capacity(r.1.queue.heap.dv) >= DynamicVector.Capacity(s.queue.heap.dv)
    ensures multiset(r.1.Items()) ==
              multiset(s.Items()) + if ok then multiset{Tasks.Task(r.0, now, interval, cb, d)} else multiset{}
    ensures |r.1.Items()| == |s.Items()| + if ok then 1 else 0
    ensures pid != 0 ==> (UniqueId.IsBad(r.0) <==> !ok)
  {
    TaskScheduler.AddTask(s, g, cb, d, now, interval, now, pid, ok, false)
  }

  /** The three SchedulerAddTask calls of InitScheduler on a new scheduler, which has room for ten tasks. */
  function LoadTasks(s0: Sched, g: UniqueId.Generator, now: int, pid: int, ok1: bool, ok2: bool, ok3: bool)
    : (r: (seq<UniqueId.Uid>, Sched, UniqueId.Generator))
    requires TaskScheduler.WellFormed(s0, g) && s0.Items() == [] && !s0.running
    requires DynamicVector.Capacity(s0.queue.heap.dv) == PriorityQueue.HeapCapacity
    ensures |r.0| == 3
    ensures TaskScheduler.WellFormed(r.1, r.2) && !r.1.running
    ensures |r.1.Items()| == Count(ok1, ok2, ok3)
  {
    var r1 := AddOne(s0, g, SendSignal, PeerPidSlot, SendInterval, now, pid, ok1);
    assert |r1.1.Items()| <= 1;
    var r2 := AddOne(r1.1, r1.2, CheckSignal, OwnScheduler, CheckInterval, now, pid, ok2);
    assert |r2.1.Items()| <= 2;
    var r3 := AddOne(r2.1, r2.2, CounterAddOne, NoData, CountOneSecInterval, now, pid, ok3);
    ([r1.0, r2.0, r3.0], r3.1, r3.2)
  }

  /** With every allocation succeeding, the scheduler holds exactly the three watchdog tasks, all due now. */
  lemma LoadTasksContents(s0: Sched, g: UniqueId.Generator, now: int, pid: int, ok1: bool, ok2: bool, ok3: bool)
    requires TaskScheduler.WellFormed(s0, g) && s0.Items() == [] && !s0.running
    requires DynamicVector.Capacity(s0.queue.heap.dv) == PriorityQueue.HeapCapacity
    ensures var r := LoadTasks(s0, g, now, pid, ok1, ok2, ok3);
            ok1 && ok2 && ok3 ==> multiset(r.1.Items()) == Expected(r.0[0], r.0[1], r.0[2], now)
  {
  }

  /** Each slot of the result holds the bad UID exactly when that task's allocation failed. */
  lemma LoadTasksUids(s0: Sched, g: UniqueId.Generator, now: int, pid: int, ok1: bool, ok2: bool, ok3: bool)
    requires TaskScheduler.WellFormed(s0, g) && s0.Items() == [] && !s0.running
    requires DynamicVector.Capacity(s0.queue.heap.dv) == PriorityQueue.HeapCapacity
    ensures var r := LoadTasks(s0, g, now, pid, ok1, ok2, ok3);
            pid != 0 ==>
            && (UniqueId.IsBad(r.0[0]) <==> !ok1)
            && (UniqueId.IsBad(r.0[1]) <==> !ok2)
            && (UniqueId.IsBad(r.0[2]) <==> !ok3)
  {
  }

  /**
   * InitScheduler: create the scheduler, then add the send, check and count
   * tasks, all due now. SUCCESS depends on the scheduler's creation only: a
   * task that could not be added leaves the bad UID in its slot and the
   * status untouched.
   */
  function InitScheduler(g: UniqueId.Generator, now: int, pid: int, schedAllocOk: bool, queueAllocOk: bool,
                         ok1: bool, ok2: bool, ok3: bool)
    : (r: InitResult)
    ensures r.status == Success <==> schedAllocOk && queueAllocOk
    ensures r.sched.Some? <==> r.status == Success
    ensures r.sched.Some? ==> TaskScheduler.WellFormed(r.sched.value, r.gen) && !r.sched.value.running
    ensures r.sched.Some? ==> |r.uids| == 3 && |r.sched.value.Items()| == Count(ok1, ok2, ok3)
    ensures r.sched.Some? && ok1 && ok2 && ok3 ==>
              multiset(r.sched.value.Items()) == Expected(r.uids[0], r.uids[1], r.uids[2], now)
    ensures r.sched.Some? && pid != 0 ==>
              && (UniqueId.IsBad(r.uids[0]) <==> !ok1)
              && (UniqueId.IsBad(r.uids[1]) <==> !ok2)
              && (UniqueId.IsBad(r.uids[2]) <==> !ok3)
  {
    match TaskScheduler.Create<Callback, Data>(schedAllocOk, queueAllocOk)
    case None => InitResult(Failure, None, [], g)
    case Some(s0) =>
      var (uids, s3, g3) := LoadTasks(s0, g, now, pid, ok1, ok2, ok3);
      LoadTasksContents(s0, g, now, pid, ok1, ok2, ok3);
      LoadTasksUids(s0, g, now, pid, ok1, ok2, ok3);
      InitResult(Success, Some(s3), uids, g3)
  }

  /* ------------------------- revival of the peer ------------------------- */

  type Pid = x: int | x > 0 witness 1

  /** What fork returned: a child pid in the parent, zero in the child, or failure. */
  datatype ForkOutcome = Parent(child: Pid) | Child | ForkFailed

  /**
   * Revive as written: with the keep-running flag set, the result of fork
   * is stored straight into the peer pid slot, -1 included.
   */
  function ReviveAsWritten(env: Env, fork: ForkOutcome): (r: Env)
    ensures !env.keepRun ==> r == env
    ensures env.keepRun ==> r.peerPid == match fork case Parent(c) => c case Child => 0 case ForkFailed => -1
  {
    if !env.keepRun then env
    else
      match fork
      case Parent(c) => env.(peerPid := c)
      case Child => env.(peerPid := 0)
      case ForkFailed => env.(peerPid := -1)
  }

  /**
   * After a failed fork, the next heartbeat goes to pid -1, which kill
   * takes as "every process the caller may signal".
   */
  lemma FailedForkBroadcasts(env: Env)
    requires env.keepRun && env.peerPid > 0
    ensures SendSignalTask(ReviveAsWritten(env, ForkFailed)).1.signalled == env.signalled + [-1]
  {
  }

  /** Revive: as written, except that a failed fork leaves the peer pid as it was. */
  function Revive(env: Env, fork: ForkOutcome): (r: Env)
    ensures !env.keepRun ==> r == env
    ensures fork != ForkFailed ==> r == ReviveAsWritten(env, fork)
    ensures fork == ForkFailed ==> r == env
    ensures r.sinceLastSig == env.sinceLastSig && r.keepRun == env.keepRun && r.signalled == env.signalled
  {
    if !env.keepRun then env
    else
      match fork
      case Parent(c) => env.(peerPid := c)
      case Child => env.(peerPid := 0)
      case ForkFailed => env
  }

  /** In the parent, a positive peer pid stays positive across revivals, so heartbeats always go to one process. */
  lemma ReviveKeepsPeerPid(env: Env, fork: ForkOutcome)
    requires env.peerPid > 0 && !fork.Child?
    ensures Revive(env, fork).peerPid > 0
  {
  }

  /* ---------------------------- the main loop ---------------------------- */

  /**
   * Where the main loop is: inside SchedulerRun, back from it, past the
   * test of the keep-running flag but not yet inside SchedulerRun, or out of
   * the loop.
   */
  datatype Phase = Running | BetweenRuns | Entering | Exited

  datatype Process = Process(sched: Sched, env: Env, clock: int, phase: Phase)

  /** What can happen next. */
  datatype Event =
    | TaskDue                       // the scheduler dispatches its earliest task
    | Heartbeat                     // the peer's heartbeat signal arrives
    | StopSignal                    // the stop signal arrives
    | RunReturns(fork: ForkOutcome) // SchedulerRun returned; Revive runs with this fork outcome
    | LoopCheck                     // the main loop tests the keep-running flag
    | RunStarts                     // SchedulerRun sets the running flag

  /** StopMainLoop: clear the keep-running flag and stop the scheduler. */
  function StopMainLoop(p: Process): (r: Process)
    ensures !r.env.keepRun && !r.sched.running
    ensures r.sched.queue == p.sched.queue && r.phase == p.phase && r.clock == p.clock
    ensures r.env == p.env.(keepRun := false)
  {
    Process(TaskScheduler.Stop(p.sched), p.env.(keepRun := false), p.clock, p.phase)
  }

  /** The process as MainLoop begins: the scheduler loaded, the flag set, the counter at zero. */
  function Start(s: Sched, peer: Pid, now: int): (p: Process)
    ensures p.env.keepRun && p.env.sinceLastSig == 0 && p.env.peerPid == peer && p.phase == BetweenRuns
    ensures p.sched == s && p.env.signalled == []
  {
    Process(s, Env(0, true, peer, []), now, BetweenRuns)
  }

  /** A running scheduler dispatches its earliest task; the process stays inside SchedulerRun. */
  function DispatchNext(p: Process): (r: Process)
    requires TaskScheduler.Valid(p.sched) && !TaskScheduler.IsEmpty(p.sched) && p.phase == Running
    ensures TaskScheduler.Valid(r.sched) && |r.sched.Items()| == |p.sched.Items()|
    ensures r.phase == Running && r.env.keepRun == p.env.keepRun && r.env.peerPid == p.env.peerPid
    ensures r.sched.running ==> p.sched.running
    ensures p.sched.running && !r.sched.running ==>
              p.env.sinceLastSig > MaxSecondsWaiting && r.env.sinceLastSig == 0
    ensures r.env.signalled == p.env.signalled || r.env.signalled == p.env.signalled + [p.env.peerPid]
  {
    var r := TaskScheduler.Step(p.sched, p.clock, p.env, Call, false);
    Process(r.sched, r.env, r.clock, Running)
  }

  /** The revival step of the main loop: the source's when `asWritten`, otherwise the corrected one. */
  function ReviveIn(asWritten: bool, env: Env, fork: ForkOutcome): (r: Env)
    ensures !env.keepRun ==> r == env
    ensures r.sinceLastSig == env.sinceLastSig && r.keepRun == env.keepRun && r.signalled == env.signalled
    ensures env.keepRun && fork.Parent? ==> r.peerPid == fork.child
    ensures env.keepRun && fork.Child? ==> r.peerPid == 0
    ensures env.keepRun && fork == ForkFailed ==> r.peerPid == (if asWritten then -1 else env.peerPid)
  {
    if asWritten then ReviveAsWritten(env, fork) else Revive(env, fork)
  }

  /**
   * One transition of the process. With `asWritten` set this is the main
   * loop as the source has it. Otherwise it is the corrected loop: Revive
   * keeps the peer pid after a failed fork, and a run does not start once
   * the stop signal has lowered the keep-running flag.
   */
  function Next(p: Process, ev: Event, asWritten: bool): (r: Process)
    requires TaskScheduler.Valid(p.sched)
    ensures TaskScheduler.Valid(r.sched)
    ensures |r.sched.Items()| == |p.sched.Items()|
    ensures r.env.keepRun == (p.env.keepRun && !ev.StopSignal?)
    ensures ev.Heartbeat? ==> r == p.(env := SigHandZeroCounter(p.env))
    ensures ev.TaskDue? && p.sched.running && !r.sched.running ==>
              p.env.sinceLastSig > MaxSecondsWaiting && r.env.sinceLastSig == 0
    ensures p.phase == BetweenRuns && ev.LoopCheck? ==> (r.phase == Entering <==> p.env.keepRun)
  {
    match ev
    case TaskDue =>
      if p.phase == Running && p.sched.running && !TaskScheduler.IsEmpty(p.sched) then
        DispatchNext(p)
      else p
    case Heartbeat => p.(env := SigHandZeroCounter(p.env))
    case StopSignal => StopMainLoop(p)
    case RunReturns(fork) =>
      if p.phase == Running && (!p.sched.running || TaskScheduler.IsEmpty(p.sched)) then
        p.(env := ReviveIn(asWritten, p.env, fork), phase := BetweenRuns)
      else p
    case LoopCheck =>
      if p.phase == BetweenRuns then
        if p.env.keepRun then p.(phase := Entering) else p.(phase := Exited)
      else p
    case RunStarts =>
      if p.phase != Entering then p
      else if asWritten || p.env.keepRun then p.(sched := p.sched.(running := true), phase := Running)
      else p.(phase := BetweenRuns)
  }

  /** The loop is left only once the flag is down, and never re-entered. */
  lemma NextKeepsExit(p: Process, ev: Event, asWritten: bool)
    requires TaskScheduler.Valid(p.sched)
    ensures var r := Next(p, ev, asWritten);
            && ((p.phase == Exited ==> !p.env.keepRun) ==> (r.phase == Exited ==> !r.env.keepRun))
            && (p.phase == Exited ==> r.phase == Exited)
  {
  }

  /** Only a revival changes the peer pid, and at most one heartbeat, to the current peer, is sent per event. */
  lemma NextSignalsPeer(p: Process, ev: Event, asWritten: bool)
    requires TaskScheduler.Valid(p.sched)
    ensures var r := Next(p, ev, asWritten);
            && (r.env.peerPid != p.env.peerPid ==> ev.RunReturns? && r.env.peerPid == ReviveIn(asWritten, p.env, ev.fork).peerPid)
            && (r.env.signalled == p.env.signalled || r.env.signalled == p.env.signalled + [p.env.peerPid])
  {
  }

  /** The process after a sequence of events. */
  function Trace(p: Process, evs: seq<Event>, asWritten: bool): (r: Process)
    requires TaskScheduler.Valid(p.sched)
    ensures TaskScheduler.Valid(r.sched) && |r.sched.Items()| == |p.sched.Items()|
    decreases |evs|
  {
    if evs == [] then p else Trace(Next(p, evs[0], asWritten), evs[1..], asWritten)
  }

  /** What every reachable state keeps: a valid, never-empty scheduler, and an exit only once the flag is down. */
  ghost predicate Inv(p: Process) {
    && TaskScheduler.Valid(p.sched)
    && |p.sched.Items()| > 0
    && (p.phase == Exited ==> !p.env.keepRun)
  }

  /** Starting from InitScheduler's scheduler with all three tasks, the invariant holds. */
  lemma StartInv(s: Sched, peer: Pid, now: int)
    requires TaskScheduler.Valid(s) && |s.Items()| == 3
    ensures Inv(Start(s, peer, now))
  {
  }

  /** Every event sequence keeps the invariant, in the loop as written and in the corrected one. */
  lemma {:induction false} TraceKeepsInv(p: Process, evs: seq<Event>, asWritten: bool)
    requires Inv(p)
    ensures Inv(Trace(p, evs, asWritten))
    decreases |evs|
  {
    if evs != [] {
      NextKeepsExit(p, evs[0], asWritten);
      TraceKeepsInv(Next(p, evs[0], asWritten), evs[1..], asWritten);
    }
  }

  /** Once the stop signal has lowered the keep-running flag, nothing raises it again. */
  lemma {:induction false} StopIsFinal(p: Process, evs: seq<Event>, asWritten: bool)
    requires TaskScheduler.Valid(p.sched) && !p.env.keepRun
    ensures !Trace(p, evs, asWritten).env.keepRun
    decreases |evs|
  {
    if evs != [] {
      StopIsFinal(Next(p, evs[0], asWritten), evs[1..], asWritten);
    }
  }

  /**
   * In the corrected loop, unless the process is a forked child whose exec
   * failed, every heartbeat goes to a single positive pid: the peer's, or the
   * one revived in its place.
   */
  lemma {:induction false} HeartbeatsGoToOneProcess(p: Process, evs: seq<Event>)
    requires TaskScheduler.Valid(p.sched) && p.env.peerPid > 0
    requires forall i :: 0 <= i < |evs| ==> evs[i] != RunReturns(Child)
    ensures var r := Trace(p, evs, false);
            && r.env.peerPid > 0
            && |p.env.signalled| <= |r.env.signalled|
            && r.env.signalled[..|p.env.signalled|] == p.env.signalled
            && forall i :: |p.env.signalled| <= i < |r.env.signalled| ==> r.env.signalled[i] > 0
    decreases |evs|
  {
    if evs != [] {
      var q := Next(p, evs[0], false);
      NextHeartbeatTarget(p, evs[0]);
      HeartbeatsGoToOneProcess(q, evs[1..]);
      ExtendedLog(p.env.signalled, q.env.signalled, Trace(q, evs[1..], false).env.signalled, p.env.peerPid);
    }
  }

  /** A log extended by at most one positive entry, then by positive entries only, has only positive entries past the first. */
  lemma ExtendedLog(ps: seq<int>, qs: seq<int>, rs: seq<int>, x: int)
    requires x > 0 && (qs == ps || qs == ps + [x])
    requires |qs| <= |rs| && rs[..|qs|] == qs
    requires forall i :: |qs| <= i < |rs| ==> rs[i] > 0
    ensures |ps| <= |rs| && rs[..|ps|] == ps
    ensures forall i :: |ps| <= i < |rs| ==> rs[i] > 0
  {
    assert rs[..|ps|] == rs[..|qs|][..|ps|];
    forall i | |ps| <= i < |rs|
      ensures rs[i] > 0
    {
      if i < |qs| {
        assert rs[i] == rs[..|qs|][i] == qs[i] == x;
      }
    }
  }

  /** One event of the corrected loop: the peer pid stays positive and at most one heartbeat, to it, is added. */
  lemma NextHeartbeatTarget(p: Process, ev: Event)
    requires TaskScheduler.Valid(p.sched) && p.env.peerPid > 0 && ev != RunReturns(Child)
    ensures var q := Next(p, ev, false);
            && q.env.peerPid > 0
            && (q.env.signalled == p.env.signalled || q.env.signalled == p.env.signalled + [p.env.peerPid])
  {
    var q := Next(p, ev, false);
    NextSignalsPeer(p, ev, false);
    if q.env.peerPid != p.env.peerPid {
      ReviveKeepsPeerPid(p.env, ev.fork);
    }
  }

  /**
   * The main loop as written, back from a stopped run with a failed fork:
   * the peer pid becomes -1. The corrected loop keeps the old peer.
   */
  lemma MainLoopFailedFork(p: Process)
    requires TaskScheduler.Valid(p.sched) && p.phase == Running && !p.sched.running
    requires p.env.keepRun && p.env.peerPid > 0
    ensures Next(p, RunReturns(ForkFailed), true).env.peerPid == -1
    ensures Next(p, RunReturns(ForkFailed), false).env.peerPid == p.env.peerPid
  {
  }

  /**
   * The window between the main loop's test of the flag and SchedulerRun
   * setting the running flag: in the loop as written, a stop signal arriving
   * there is overridden, and the scheduler runs on with the keep-running
   * flag down.
   */
  lemma StopBeforeRunStartsIsOverridden(p: Process)
    requires TaskScheduler.Valid(p.sched) && p.phase == BetweenRuns && p.env.keepRun
    ensures var r := Trace(p, [LoopCheck, StopSignal, RunStarts], true);
            r.phase == Running && r.sched.running && !r.env.keepRun
  {
    var p1 := Next(p, LoopCheck, true);
    var p2 := Next(p1, StopSignal, true);
    assert Trace(p, [LoopCheck, StopSignal, RunStarts], true) == Trace(p1, [StopSignal, RunStarts], true) by {
      assert [LoopCheck, StopSignal, RunStarts][1..] == [StopSignal, RunStarts];
    }
    assert Trace(p1, [StopSignal, RunStarts], true) == Trace(p2, [RunStarts], true) by {
      assert [StopSignal, RunStarts][1..] == [RunStarts];
    }
  }

  /**
   * In the corrected loop the scheduler runs only while the keep-running flag
   * is up: a stop signal always ends the current run and prevents every later one.
   */
  lemma NextHonoursStop(p: Process, ev: Event)
    requires TaskScheduler.Valid(p.sched) && (p.sched.running ==> p.env.keepRun)
    ensures var r := Next(p, ev, false);
            r.sched.running ==> r.env.keepRun
  {
  }

  lemma {:induction false} StopIsHonoured(p: Process, evs: seq<Event>)
    requires TaskScheduler.Valid(p.sched) && (p.sched.running ==> p.env.keepRun)
    ensures var r := Trace(p, evs, false);
            r.sched.running ==> r.env.keepRun
    decreases |evs|
  {
    if evs != [] {
      NextHonoursStop(p, evs[0]);
      StopIsHonoured(Next(p, evs[0], false), evs[1..]);
    }
  }

  /** The same window in the corrected loop: the run does not start, and the next test of the flag leaves the loop. */
  lemma StopBeforeRunStartsExits(p: Process)
    requires TaskScheduler.Valid(p.sched) && p.phase == BetweenRuns && p.env.keepRun && !p.sched.running
    ensures var r := Trace(p, [LoopCheck, StopSignal, RunStarts, LoopCheck], false);
            r.phase == Exited && !r.sched.running && !r.env.keepRun
  {
    var evs := [LoopCheck, StopSignal, RunStarts, LoopCheck];
    var p1 := Next(p, LoopCheck, false);
    var p2 := Next(p1, StopSignal, false);
    var p3 := Next(p2, RunStarts, false);
    assert evs[1..] == [StopSignal, RunStarts, LoopCheck];
    assert evs[1..][1..] == [RunStarts, LoopCheck];
    assert evs[1..][1..][1..] == [LoopCheck];
    assert Trace(p, evs, false) == Trace(p3, [LoopCheck], false);
  }
}
