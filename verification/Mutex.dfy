/** The spin lock of mutex.h, run by tasks of the scheduler. */
module Mutex {
  import opened Words
  import opened Frames
  import opened Signals
  import opened Scheduler
  import opened SchedulerRuns
  import opened KernelCode

  /** Where a task stands in `mutex_wait_unlock; mutex_lock; critical section; mutex_unlock`. */
  datatype Place = Outside | Waiting | AtLock | Inside

  datatype LockState = LockState(s: State, lock: nat, place: seq<Place>)

  /** Test, Take and Release are the atomic actions of mutex.h on the lock word; Enter starts a
      contender's round; Kernel is any step of the kernel. */
  datatype Act = Kernel(step: Step) | Enter | Test | Take | Release

  ghost predicate Shaped(x: LockState) {
    |x.place| == TASKS_CAP && Inv(x.s)
  }

  function Here(x: LockState): Place
    requires |x.place| == TASKS_CAP
  {
    x.place[x.s.cur]
  }

  /** What the current task may do next. In the midst of mutex.h it only executes mutex.h, and is
      interrupted; elsewhere it is free. */
  predicate Enabled(x: LockState, a: Act)
    requires |x.place| == TASKS_CAP
  {
    match a
    case Kernel(e) => Here(x).Outside? || Here(x).Inside? || e.Tick? || e.Trap?
    case Enter => Here(x).Outside?
    case Test => Here(x).Waiting?
    case Take => Here(x).AtLock?
    case Release => Here(x).Inside?
  }

  datatype LockMachine = Running(x: LockState) | Panicked

  function KernelAct(x: LockState, e: Step): LockMachine
    requires |x.place| == TASKS_CAP
  {
    match StepUp(x.s, e)
    case Halted => Panicked
    case Up(s') =>
      var f := FreeSlot(x.s.tasks, 0);
      Running(x.(s := s', place := if e.Spawn? && f < TASKS_CAP then x.place[f := Outside] else x.place))
  }

  /** The lock word after `mutex_lock` and after `mutex_unlock`. */
  function LockedBy(lock: nat, cur: pid): nat {
    if lock == 0 then cur else lock
  }

  function UnlockedBy(lock: nat, cur: pid): nat {
    if lock == cur then 0 else lock
  }

  /** mutex.h. A yielding task gives the CPU away while the lock word is not 0; others spin. */
  function ActOn(x: LockState, a: Act): LockMachine
    requires |x.place| == TASKS_CAP && Enabled(x, a)
  {
    match a
    case Kernel(e) => KernelAct(x, e)
    case Enter => Running(x.(place := x.place[x.s.cur := Waiting]))
    case Test =>
      if x.lock == 0 then Running(x.(place := x.place[x.s.cur := AtLock]))
      else if x.s.tasks[x.s.cur].yieldOnly then KernelAct(x.(s := SetEax(x.s, 4)), Call(0))
      else Running(x)
    case Take =>
      Running(x.(lock := LockedBy(x.lock, x.s.cur), place := x.place[x.s.cur := Inside]))
    case Release =>
      Running(x.(lock := UnlockedBy(x.lock, x.s.cur), place := x.place[x.s.cur := Outside]))
  }

  /** The users' side of the bargain: contenders are yield-only tasks other than init, and do not
      fault between the test and the taking of the lock. */
  predicate Disciplined(x: LockState, a: Act)
    requires |x.place| == TASKS_CAP
  {
    && (a.Enter? ==> x.s.cur != 0 && x.s.tasks[x.s.cur].yieldOnly)
    && (a.Kernel? && a.step.Trap? ==> !Here(x).AtLock?)
  }

  /** The task in a slot takes part in the lock protocol. */
  predicate In(x: LockState, t: pid, p: Place)
    requires |x.place| == TASKS_CAP
  {
    Live(x.s.tasks[t]) && x.place[t] == p
  }

  /** A task in the protocol is a yield-only task other than init. Past the test it is current and
      the lock is free; inside, its slot number is in the lock. */
  ghost predicate LockInv(x: LockState) {
    && Shaped(x)
    && forall t: pid | Live(x.s.tasks[t]) && x.place[t] != Outside ::
         && t != 0 && x.s.tasks[t].yieldOnly
         && (x.place[t] == AtLock ==> x.s.cur == t && x.lock == 0)
         && (x.place[t] == Inside ==> x.lock == t)
  }

  /** A step of the kernel neither revives a task nor changes how it is scheduled, and takes the CPU
      from a yield-only task only if that task yields, exits or faults. */
  lemma KernelStepFrame(s: State, e: Step, t: pid)
    requires Inv(s) && StepUp(s, e).Up? && !SpawnsInto(s, e, t) && Live(StepUp(s, e).s.tasks[t])
    ensures Live(s.tasks[t]) && StepUp(s, e).s.tasks[t].yieldOnly == s.tasks[t].yieldOnly
  {
    hide StepUp;
    var s' := StepUp(s, e).s;
    if Reschedules(s, e) {
      var f := WithFrame(Handed(s, e), Save(s.regs));
      assert if t == s.cur then s'.tasks[t] == Passed(f, t)
             else s'.tasks[t] == s.tasks[t] || s'.tasks[t] == Passed(s.tasks[t], t) by {
        RescheduledSlots(s, e);
      }
      PassedLives(f, t);
      PassedLives(s.tasks[t], t);
    } else {
      QuietShape(s, e);
    }
  }

  lemma PassedLives(t: Slot, slot: pid)
    ensures Live(Passed(t, slot)) ==> Live(t)
    ensures Passed(t, slot).yieldOnly == t.yieldOnly
  {
    if Live(t) { DrainIsFold(t, slot); }
  }

  lemma KernelActKeeps(x: LockState, e: Step)
    requires LockInv(x) && KernelAct(x, e).Running?
    requires Reschedules(x.s, e) ==> !Here(x).AtLock?
    ensures LockInv(KernelAct(x, e).x)
  {
    hide StepUp;
    var y := KernelAct(x, e).x;
    InvStep(x.s, e);
    forall t: pid | Live(y.s.tasks[t]) && !y.place[t].Outside?
      ensures Live(x.s.tasks[t]) && x.place[t] == y.place[t] && y.s.tasks[t].yieldOnly == x.s.tasks[t].yieldOnly
    {
      KernelStepFrame(x.s, e, t);
    }
    if !Reschedules(x.s, e) { QuietShape(x.s, e); }
  }

  lemma ActKeeps(x: LockState, a: Act)
    requires LockInv(x) && Enabled(x, a) && Disciplined(x, a) && ActOn(x, a).Running?
    ensures LockInv(ActOn(x, a).x)
  {
    match a
    case Kernel(e) => KernelActKeeps(x, e);
    case Test =>
      if x.lock != 0 && x.s.tasks[x.s.cur].yieldOnly {
        var y := x.(s := SetEax(x.s, 4));
        assert LockInv(y);
        KernelActKeeps(y, Call(0));
      }
    case _ =>
  }

  // ---- Runs ----

  function RunActs(m: LockMachine, acts: seq<Act>): LockMachine
    decreases |acts|
  {
    if acts == [] || m.Panicked? then m
    else if |m.x.place| == TASKS_CAP && Enabled(m.x, acts[0]) then RunActs(ActOn(m.x, acts[0]), acts[1..])
    else m
  }

  /** Every act of the run is disciplined where it happens. */
  ghost predicate DisciplinedRun(m: LockMachine, acts: seq<Act>)
    decreases |acts|
  {
    acts != [] && m.Running? && |m.x.place| == TASKS_CAP && Enabled(m.x, acts[0]) ==>
      Disciplined(m.x, acts[0]) && DisciplinedRun(ActOn(m.x, acts[0]), acts[1..])
  }

  lemma {:induction false} LockInvRun(x: LockState, acts: seq<Act>)
    requires LockInv(x) && DisciplinedRun(Running(x), acts) && RunActs(Running(x), acts).Running?
    ensures LockInv(RunActs(Running(x), acts).x)
    decreases |acts|
  {
    if acts != [] && Enabled(x, acts[0]) && ActOn(x, acts[0]).Running? {
      ActKeeps(x, acts[0]);
      LockInvRun(ActOn(x, acts[0]).x, acts[1..]);
    }
  }

  /** Nobody has started a round and the lock word is 0. */
  ghost predicate Idle(x: LockState) {
    Shaped(x) && x.lock == 0 && forall t: pid :: x.place[t] == Outside
  }

  /** Mutual exclusion: under every interleaving of ticks, yields, exits, kills, faults and slot
      reuse, two live tasks are never both in their critical sections, and the lock word is the slot
      of the one that is. */
  lemma MutualExclusion(x: LockState, acts: seq<Act>, t: pid, u: pid)
    requires Idle(x) && DisciplinedRun(Running(x), acts) && RunActs(Running(x), acts).Running?
    requires var y := RunActs(Running(x), acts).x; |y.place| == TASKS_CAP && In(y, t, Inside)
    ensures var y := RunActs(Running(x), acts).x; y.lock == t && (In(y, u, Inside) ==> t == u)
  {
    LockInvRun(x, acts);
  }

  // ---- The code ----

  /** The protocol stands at x, and the kernel and the lock word are as x says. */
  ghost predicate Mirrors(x: LockState, k: Kernel, holder: nat)
    requires k.Valid() && !k.halted
    reads k, k.tasks
  {
    LockInv(x) && x.s == k.Abs() && x.lock == holder
  }

  /** A lock word in memory, used by the tasks of a kernel. */
  class LockWord {
    var holder: nat

    constructor ()
      ensures holder == 0
    {
      holder := 0;
    }

    /** `mutex_lock`. For a contender at the lock, whatever the protocol's state x is: it comes to be
        inside, alone, and the word names it. A word that is not 0 is left alone. */
    method Lock(k: Kernel, ghost x: LockState)
      requires k.Valid() && !k.halted
      modifies this
      ensures holder == LockedBy(old(holder), k.currentTask)
      ensures old(holder) != 0 ==> holder == old(holder)
      ensures Mirrors(x, k, old(holder)) && Here(x).AtLock? ==>
                && Mirrors(ActOn(x, Take).x, k, holder)
                && holder == k.currentTask
                && forall t: pid :: In(ActOn(x, Take).x, t, Inside) <==> t == k.currentTask
    {
      if Mirrors(x, k, holder) && Here(x).AtLock? {
        ActKeeps(x, Take);
      }
      if holder == 0 {
        holder := k.currentTask;
      }
    }

    /** `mutex_unlock`. For a contender inside, the lock is free afterwards and nobody is inside. A word that
        names another task is left alone. */
    method Unlock(k: Kernel, ghost x: LockState)
      requires k.Valid() && !k.halted
      modifies this
      ensures holder == UnlockedBy(old(holder), k.currentTask)
      ensures old(holder) != k.currentTask ==> holder == old(holder)
      ensures Mirrors(x, k, old(holder)) && Here(x).Inside? ==>
                && Mirrors(ActOn(x, Release).x, k, holder)
                && holder == 0
                && forall t: pid :: !In(ActOn(x, Release).x, t, Inside)
    {
      if Mirrors(x, k, holder) && Here(x).Inside? {
        ActKeeps(x, Release);
      }
      if holder == k.currentTask {
        holder := 0;
      }
    }

    /** One turn of the loop of `mutex_wait_unlock`: the test, and the yield of a yield-only task. */
    method WaitTurn(k: Kernel) returns (free: bool)
      requires k.Valid() && !k.halted
      modifies k`currentTask, k`regs, k`tasking, k`halted, k.tasks
      ensures k.Valid() && free == (holder == 0)
      ensures k.Now() == if holder != 0 && old(k.tasks[k.currentTask].yieldOnly)
                         then Scheduler.Syscall(SetEax(old(k.Abs()), 4), 0) else Up(old(k.Abs()))
    {
      free := holder == 0;
      if !free && k.tasks[k.currentTask].yieldOnly {
        k.regs := k.regs.(eax := 4);
        k.Syscall(0);
      }
    }
  }
}
