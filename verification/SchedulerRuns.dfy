/** What every run of the scheduler keeps, and what every run reaches. */
module SchedulerRuns {
  import opened Words
  import opened Frames
  import opened Signals
  import opened Scheduler

  // ---- Walking the ring of slots ----

  /** How many turns of the scan lead from cur to slot t: 1 to 255, and 256 back to cur itself. */
  function Dist(cur: pid, t: pid): (d: nat)
    ensures 1 <= d <= TASKS_CAP
    ensures d == TASKS_CAP <==> t == cur
  {
    if t > cur then t - cur else t - cur + TASKS_CAP
  }

  /** A slot after the scan has gone past it. */
  function Passed(t: Slot, slot: pid): Slot {
    match Drain(t, slot)
    case Kept(u) => u
    case Panic => t
  }

  /** The scan stops at the first runnable slot after cur, having drained exactly those before it. */
  ghost predicate IsWalk(tasks: Table, cur: pid, tries: nat, after: Table, c: pid) {
    && Dist(cur, c) <= tries
    && Runnable(tasks[c])
    && (forall t: pid :: Dist(cur, t) < Dist(cur, c) ==>
          !Runnable(tasks[t]) && Drain(tasks[t], t) == Kept(after[t]))
    && (forall t: pid :: Dist(cur, t) >= Dist(cur, c) ==> after[t] == tasks[t])
  }

  lemma DistNext(cur: pid, c: pid)
    requires c == (cur + 1) % TASKS_CAP
    ensures forall t: pid :: Dist(cur, t) == if t == c then 1 else Dist(c, t) + 1
    ensures Dist(c, c) == TASKS_CAP
  {}

  /** The walk from the next slot on, when it is not runnable, is one from here. */
  lemma WalkLonger(tasks: Table, u: Slot, cur: pid, c: pid, tries: nat, after: Table, d: pid)
    requires c == (cur + 1) % TASKS_CAP && 0 < tries <= TASKS_CAP
    requires !Runnable(tasks[c]) && Drain(tasks[c], c) == Kept(u) && IsWalk(tasks[c := u], c, tries - 1, after, d)
    ensures IsWalk(tasks, cur, tries, after, d)
  {
    hide Drain, Dist, Runnable;
    DistNext(cur, c);
  }

  lemma {:induction false} ScanWalks(tasks: Table, cur: pid, tries: nat)
    requires tries <= TASKS_CAP
    ensures match Scan(tasks, cur, tries)
            case Stuck => true
            case Chose(after, c) => IsWalk(tasks, cur, tries, after, c)
    decreases tries
  {
    if tries > 0 {
      var c: pid := (cur + 1) % TASKS_CAP;
      DeadKept(tasks[c], c);
      hide Drain, IsWalk;
      if Runnable(tasks[c]) {
        WalkHere(tasks, cur, c, tries);
      } else if Drain(tasks[c], c).Kept? {
        var u := Drain(tasks[c], c).task;
        var w := Scan(tasks[c := u], c, tries - 1);
        assert !Live(tasks[c]) ==> tasks[c := u] == tasks;
        assert Scan(tasks, cur, tries) == w;
        ScanWalks(tasks[c := u], c, tries - 1);
        if w.Chose? { WalkLonger(tasks, u, cur, c, tries, w.tasks, w.slot); }
      }
    }
  }

  lemma DeadKept(t: Slot, cur: nat)
    ensures !Live(t) ==> Drain(t, cur) == Kept(t)
  {}

  lemma WalkHere(tasks: Table, cur: pid, c: pid, tries: nat)
    requires c == (cur + 1) % TASKS_CAP && tries > 0 && Runnable(tasks[c])
    ensures IsWalk(tasks, cur, tries, tasks, c)
  {
    hide Drain, Runnable;
  }

  /** Init is paused with a fatal signal pending: the scan panics when it comes to slot 0. */
  predicate InitDoomed(tasks: Table) {
    Live(tasks[0]) && tasks[0].paused && Drain(tasks[0], 0).Panic?
  }

  /** Exactly when the scan fails: every runnable slot is out of reach or lies beyond a doomed init. */
  lemma {:induction false} ScanStuck(tasks: Table, cur: pid, tries: nat)
    requires tries <= TASKS_CAP
    ensures Scan(tasks, cur, tries).Stuck? <==>
            forall t: pid | Runnable(tasks[t]) ::
              Dist(cur, t) > tries || (InitDoomed(tasks) && Dist(cur, 0) < Dist(cur, t))
    decreases tries
  {
    if tries > 0 {
      var c: pid := (cur + 1) % TASKS_CAP;
      forall t: pid ensures Dist(cur, t) == if t == c then 1 else Dist(c, t) + 1 {}
      if !Live(tasks[c]) {
        ScanStuck(tasks, c, tries - 1);
      } else if tasks[c].paused {
        if c != 0 { OnlyInitPanics(tasks[c], c); }
        if Drain(tasks[c], c).Kept? {
          ScanStuck(tasks[c := Passed(tasks[c], c)], c, tries - 1);
        }
      }
    }
  }

  lemma OnlyInitPanics(t: Slot, cur: nat)
    requires cur != 0
    ensures Drain(t, cur).Kept?
  {
    if Live(t) { DrainIsFold(t, cur); }
  }

  /** `sched_next_task` panics exactly when init is current and has a fatal signal pending, or no
      slot is runnable once the current one is drained, or a doomed init comes before all that are. */
  lemma NextTaskPanics(s: State)
    ensures var t := WithFrame(s.tasks[s.cur], Save(s.regs));
            NextTask(s).Halted? <==>
              || Drain(t, s.cur).Panic?
              || var tasks := s.tasks[s.cur := LeftBehind(s)];
                 forall t: pid | Runnable(tasks[t]) :: InitDoomed(tasks) && Dist(s.cur, 0) < Dist(s.cur, t)
  {
    ScanStuck(s.tasks[s.cur := LeftBehind(s)], s.cur, TASKS_CAP);
  }

  /** The current slot as `sched_next_task` leaves it, when draining does not panic. */
  function LeftBehind(s: State): Slot {
    Passed(WithFrame(s.tasks[s.cur], Save(s.regs)), s.cur)
  }

  /** Which slots one call of `sched_next_task` drains: the current one, then the ones it passes. */
  predicate Visits(s: State, s': State, t: pid) {
    t == s.cur || Dist(s.cur, t) < Dist(s.cur, s'.cur)
  }

  /** A call of `sched_next_task` that returns: whom it chooses and what it does to every slot. */
  lemma NextTaskShape(s: State)
    requires NextTask(s).Up?
    ensures var s' := NextTask(s).s;
            && Runnable(s'.tasks[s'.cur])
            && s'.regs == Restore(s'.tasks[s'.cur].regs)
            && s'.tasking == s.tasking
            && s'.tasks[s.cur] == LeftBehind(s)
            && Drain(WithFrame(s.tasks[s.cur], Save(s.regs)), s.cur).Kept?
            && (forall t: pid | t != s.cur ::
                  s'.tasks[t] == if Visits(s, s', t) then Passed(s.tasks[t], t) else s.tasks[t])
            && (forall t: pid | t != s.cur && Visits(s, s', t) ::
                  !Runnable(s.tasks[t]) && Drain(s.tasks[t], t).Kept?)
  {
    var u := LeftBehind(s);
    ScanWalks(s.tasks[s.cur := u], s.cur, TASKS_CAP);
  }

  // ---- One step ----

  /** Does the step call `sched_next_task`? */
  predicate Reschedules(s: State, e: Step) {
    && s.tasking
    && match e
       case Tick => !s.tasks[s.cur].yieldOnly
       case Call(_) => s.regs.eax == 0 || (s.regs.eax == 1 && s.cur != 0) || s.regs.eax == 4
       case Trap(x) => !TrapPanics(x)
       case _ => false
  }

  /** The current slot as the step hands it to `sched_next_task`. */
  function Handed(s: State, e: Step): Slot {
    var t := s.tasks[s.cur];
    match e
    case Call(_) =>
      if s.regs.eax == 0 then Post(t, SIGSYS)
      else if s.regs.eax == 1 then WithStatus(t, Dead) else t
    case Trap(x) => Post(t, TrapSignal(x))
    case _ => t
  }

  predicate SpawnsInto(s: State, e: Step, t: pid) {
    e.Spawn? && FreeSlot(s.tasks, 0) == t
  }

  lemma RescheduleShape(s: State, e: Step)
    requires Reschedules(s, e)
    ensures StepUp(s, e) == NextTask(UpdateCurrent(s, Handed(s, e)))
    ensures var h := Handed(s, e); var t := s.tasks[s.cur];
            h.regs == t.regs && h.paused == t.paused && h.yieldOnly == t.yieldOnly
  {
    assert s.tasks[s.cur := s.tasks[s.cur]] == s.tasks;
    assert UpdateCurrent(s, s.tasks[s.cur]) == s;
  }

  /** A step that does not reschedule leaves every slot it does not spawn into as live and as
      paused as it was, with the same saved frame and scheduling mode. */
  lemma QuietShape(s: State, e: Step)
    requires s.tasking && !Reschedules(s, e) && StepUp(s, e).Up?
    ensures var s' := StepUp(s, e).s;
            && s'.cur == s.cur && s'.tasking
            && (forall t: pid | !SpawnsInto(s, e, t) ::
                  && s'.tasks[t].status == s.tasks[t].status && s'.tasks[t].paused == s.tasks[t].paused
                  && s'.tasks[t].regs == s.tasks[t].regs && s'.tasks[t].yieldOnly == s.tasks[t].yieldOnly)
            && (forall t: pid | SpawnsInto(s, e, t) ::
                  !Live(s.tasks[t]) && s'.tasks[t] == NewTask(e.program, t))
  {}

  // ---- Runs ----

  function Next(m: Machine, e: Step): Machine {
    if m.Halted? then Halted else StepUp(m.s, e)
  }

  function Exec(m: Machine, steps: seq<Step>): Machine
    decreases |steps|
  {
    if steps == [] then m else Exec(Next(m, steps[0]), steps[1..])
  }

  lemma {:induction false} HaltedStays(steps: seq<Step>)
    ensures Exec(Halted, steps) == Halted
    decreases |steps|
  {
    if steps != [] { HaltedStays(steps[1..]); }
  }

  /** Once tasking has started: init is live, and the current task is live and not paused. */
  predicate Inv(s: State) {
    s.tasking && Live(s.tasks[0]) && Runnable(s.tasks[s.cur])
  }

  lemma InitSurvives(t: Slot)
    requires Live(t)
    ensures Live(Passed(t, 0))
  {
    DrainIsFold(t, 0);
  }

  lemma NextTaskInv(s: State)
    requires s.tasking && Live(s.tasks[0]) && NextTask(s).Up?
    ensures Inv(NextTask(s).s)
  {
    NextTaskShape(s);
    InitSurvives(s.tasks[0]);
    InitSurvives(WithFrame(s.tasks[0], Save(s.regs)));
  }

  lemma InvStep(s: State, e: Step)
    requires Inv(s) && StepUp(s, e).Up?
    ensures Inv(StepUp(s, e).s)
  {
    if Reschedules(s, e) {
      RescheduleShape(s, e);
      NextTaskInv(UpdateCurrent(s, Handed(s, e)));
    } else {
      QuietShape(s, e);
    }
  }

  /** Every state a run reaches without halting has init live and a runnable current task. */
  lemma {:induction false} InvRun(s: State, steps: seq<Step>)
    requires Inv(s) && Exec(Up(s), steps).Up?
    ensures Inv(Exec(Up(s), steps).s)
    decreases |steps|
  {
    if steps != [] {
      if StepUp(s, steps[0]).Up? {
        InvStep(s, steps[0]);
        InvRun(StepUp(s, steps[0]).s, steps[1..]);
      } else {
        HaltedStays(steps[1..]);
      }
    }
  }

  /** A rescheduling step, slot by slot. */
  lemma RescheduledSlots(s: State, e: Step)
    requires Reschedules(s, e) && StepUp(s, e).Up?
    ensures var s' := StepUp(s, e).s;
            && Runnable(s'.tasks[s'.cur])
            && s'.regs == Restore(s'.tasks[s'.cur].regs)
            && s'.tasks[s.cur] == Passed(WithFrame(Handed(s, e), Save(s.regs)), s.cur)
            && Drain(WithFrame(Handed(s, e), Save(s.regs)), s.cur).Kept?
            && (forall t: pid | t != s.cur ::
                  s'.tasks[t] == if Visits(s, s', t) then Passed(s.tasks[t], t) else s.tasks[t])
            && (forall t: pid | t != s.cur && Visits(s, s', t) ::
                  !Runnable(s.tasks[t]) && Drain(s.tasks[t], t).Kept?)
  {
    RescheduleShape(s, e);
    NextTaskShape(UpdateCurrent(s, Handed(s, e)));
  }

  // ---- New tasks ----

  /** Making a task: it takes the first dead slot, ready to run with nothing pending, and no live task
      is touched; when every slot is live nothing changes. */
  lemma MakeTaskFresh(s: State, p: Program, t: pid)
    ensures Live(s.tasks[t]) ==> MakeTask(s, p).tasks[t] == s.tasks[t]
    ensures (forall i: pid :: Live(s.tasks[i])) ==> MakeTask(s, p) == s
    ensures !Live(s.tasks[t]) && (forall i: pid | i < t :: Live(s.tasks[i])) ==>
              var n := MakeTask(s, p).tasks[t];
              && Runnable(n) && Pending(n) == [] && n.uid == 0 && n.gid == 0
              && n.regs.eip == p.eip && n.yieldOnly == p.yieldOnly && n.tty == p.tty
  {
    assert FreeSlot(s.tasks, 0) < TASKS_CAP ==> !Live(s.tasks[FreeSlot(s.tasks, 0)]);
  }

  /** The stacks of two slots do not overlap, and all of them lie inside the address space. */
  lemma StacksApart(p: Program, q: Program, t: pid, u: pid)
    requires t < u
    ensures var low, high: int := NewTask(p, t).regs.esp, NewTask(q, u).regs.esp;
            0 <= low - TASK_STACK_CAP && low <= high - TASK_STACK_CAP && high < TWO_32
  {}

  // ---- Bounded waiting ----

  /** How many times a run calls `sched_next_task`. */
  function CallCount(m: Machine, steps: seq<Step>): nat
    decreases |steps|
  {
    if steps == [] || m.Halted? then 0
    else (if Reschedules(m.s, steps[0]) then 1 else 0) + CallCount(Next(m, steps[0]), steps[1..])
  }

  /** The run neither halts nor makes t the current task, at any of its states. */
  ghost predicate NeverChosen(m: Machine, steps: seq<Step>, t: pid)
    decreases |steps|
  {
    m.Up? && m.s.cur != t && (steps != [] ==> NeverChosen(Next(m, steps[0]), steps[1..], t))
  }

  lemma Approach(cur: pid, next: pid, t: pid)
    requires next != t && t != cur && Dist(cur, next) <= Dist(cur, t)
    ensures Dist(next, t) < Dist(cur, t)
  {}

  lemma WaitStep(s: State, e: Step, t: pid)
    requires Inv(s) && t != s.cur && Runnable(s.tasks[t])
    requires StepUp(s, e).Up? && StepUp(s, e).s.cur != t
    ensures var s' := StepUp(s, e).s;
            && Runnable(s'.tasks[t])
            && Dist(s'.cur, t) + (if Reschedules(s, e) then 1 else 0) <= Dist(s.cur, t)
  {
    var s' := StepUp(s, e).s;
    if Reschedules(s, e) {
      assert !Visits(s, s', t) && s'.tasks[t] == s.tasks[t] by { RescheduledSlots(s, e); }
      Approach(s.cur, s'.cur, t);
    } else {
      QuietShape(s, e);
    }
  }

  /** Bounded waiting. While a live, unpaused task waits it stays live and unpaused, and a run that
      neither halts nor chooses it makes fewer scheduler calls than its distance from the current
      task, which is at most 255. */
  lemma {:induction false} BoundedWaiting(s: State, steps: seq<Step>, t: pid)
    requires Inv(s) && Runnable(s.tasks[t]) && NeverChosen(Up(s), steps, t)
    ensures Exec(Up(s), steps).Up? && Runnable(Exec(Up(s), steps).s.tasks[t])
    ensures CallCount(Up(s), steps) < Dist(s.cur, t) < TASKS_CAP
    decreases |steps|
  {
    if steps != [] {
      InvStep(s, steps[0]);
      WaitStep(s, steps[0], t);
      BoundedWaiting(StepUp(s, steps[0]).s, steps[1..], t);
    }
  }

  // ---- Continue really resumes ----

  /** The queue of a paused task that wakes it up: no signal in it kills, and the last one among 5,
      SIGCONT, and 14, SIGSTOP, is 5. */
  ghost predicate Wakes(t: Slot) {
    !AnyDeadly(Pending(t)) && LastIs(Pending(t), 5)
  }

  /** The step drains slot t while t is paused. */
  predicate DrainsPaused(s: State, e: Step, t: pid) {
    s.tasks[t].paused && Reschedules(s, e) && StepUp(s, e).Up? && Visits(s, StepUp(s, e).s, t)
  }

  /** Whenever the run drains t while t is paused, the queue it finds wakes t. What stands in the queue
      at other times does not matter. */
  ghost predicate WakesWhenDrained(m: Machine, steps: seq<Step>, t: pid)
    decreases |steps|
  {
    steps != [] && m.Up? ==>
      && (DrainsPaused(m.s, steps[0], t) ==> Wakes(m.s.tasks[t]))
      && WakesWhenDrained(Next(m, steps[0]), steps[1..], t)
  }

  lemma NotBoth(q: seq<byte>)
    ensures !(LastIs(q, 5) && LastIs(q, 14))
  {}

  lemma PausedStep(s: State, e: Step, t: pid)
    requires Inv(s) && t != s.cur && Live(s.tasks[t]) && s.tasks[t].paused
    requires StepUp(s, e).Up? && StepUp(s, e).s.cur != t
    requires DrainsPaused(s, e, t) ==> Wakes(s.tasks[t])
    ensures var s' := StepUp(s, e).s;
            && Live(s'.tasks[t])
            && (s'.tasks[t].paused ==>
                  Dist(s'.cur, t) + (if Reschedules(s, e) then 1 else 0) <= Dist(s.cur, t))
  {
    var s' := StepUp(s, e).s;
    if Reschedules(s, e) {
      assert s'.tasks[t] == if Visits(s, s', t) then Passed(s.tasks[t], t) else s.tasks[t] by {
        RescheduledSlots(s, e);
      }
      if Visits(s, s', t) {
        DrainByNumber(s.tasks[t], t);
        NotBoth(Pending(s.tasks[t]));
      } else {
        Approach(s.cur, s'.cur, t);
      }
    } else {
      QuietShape(s, e);
    }
  }

  /** SIGCONT really resumes. A paused task whose queue, when it is next drained, wakes it is unpaused
      by the scan that passes it, and is chosen within 255 + 255 scheduler calls, or the kernel halts. */
  lemma {:induction false} ContinueResumes(s: State, steps: seq<Step>, t: pid)
    requires Inv(s) && Live(s.tasks[t]) && WakesWhenDrained(Up(s), steps, t)
    requires NeverChosen(Up(s), steps, t)
    ensures Exec(Up(s), steps).Up? && Live(Exec(Up(s), steps).s.tasks[t])
    ensures Exec(Up(s), steps).s.tasks[t].paused ==> CallCount(Up(s), steps) < Dist(s.cur, t)
    ensures CallCount(Up(s), steps) < Dist(s.cur, t) + 255
    decreases |steps|
  {
    if !s.tasks[t].paused {
      BoundedWaiting(s, steps, t);
    } else if steps != [] {
      InvStep(s, steps[0]);
      PausedStep(s, steps[0], t);
      ContinueResumes(StepUp(s, steps[0]).s, steps[1..], t);
      if !StepUp(s, steps[0]).s.tasks[t].paused {
        BoundedWaiting(StepUp(s, steps[0]).s, steps[1..], t);
      }
    }
  }

  // ---- Context preservation ----

  /** The register frame task t computes with: the CPU's while it runs, its slot's while it waits. */
  function Context(s: State, t: pid): IntRegs {
    if t == s.cur then s.regs else Restore(s.tasks[t].regs)
  }

  /** The machine the scheduler pretends to be: one private register frame per slot. Only the task
      that computes, the return value of a call that does not reschedule, and the making of a task
      change a frame, and each of them changes just the one. */
  function PrivateStep(frames: seq<IntRegs>, s: State, e: Step): (f: seq<IntRegs>)
    requires |frames| == TASKS_CAP && StepUp(s, e).Up?
    ensures |f| == TASKS_CAP
  {
    match e
    case Run(r) => frames[s.cur := r]
    case Call(_) =>
      if Reschedules(s, e) then frames
      else frames[s.cur := frames[s.cur].(eax := StepUp(s, e).s.regs.eax)]
    case Spawn(p) =>
      var f := FreeSlot(s.tasks, 0);
      if f < TASKS_CAP then frames[f := Restore(NewTask(p, f).regs)] else frames
    case _ => frames
  }

  function PrivateExec(frames: seq<IntRegs>, m: Machine, steps: seq<Step>): (f: seq<IntRegs>)
    requires |frames| == TASKS_CAP
    ensures |f| == TASKS_CAP
    decreases |steps|
  {
    if steps == [] || m.Halted? || Next(m, steps[0]).Halted? then frames
    else PrivateExec(PrivateStep(frames, m.s, steps[0]), Next(m, steps[0]), steps[1..])
  }

  lemma DrainKeepsFrame(t: Slot, cur: nat)
    requires Drain(t, cur).Kept?
    ensures Drain(t, cur).task.regs == t.regs
  {
    if Live(t) { DrainIsFold(t, cur); }
  }

  lemma PassedKeepsFrame(t: Slot, slot: pid)
    ensures Passed(t, slot).regs == t.regs
  {
    if Live(t) { DrainIsFold(t, slot); }
  }

  lemma RescheduleKeepsContexts(s: State, e: Step, t: pid)
    requires Reschedules(s, e) && StepUp(s, e).Up?
    ensures Context(StepUp(s, e).s, t) == Context(s, t)
  {
    var s' := StepUp(s, e).s;
    assert s'.regs == Restore(s'.tasks[s'.cur].regs) by { RescheduledSlots(s, e); }
    assert s'.tasks[t].regs == if t == s.cur then Save(s.regs) else s.tasks[t].regs by {
      RescheduledSlots(s, e);
      PassedKeepsFrame(WithFrame(Handed(s, e), Save(s.regs)), s.cur);
      PassedKeepsFrame(s.tasks[t], t);
    }
  }

  lemma QuietContexts(s: State, e: Step, frames: seq<IntRegs>, t: pid)
    requires s.tasking && !Reschedules(s, e) && StepUp(s, e).Up? && Live(s.tasks[s.cur])
    requires |frames| == TASKS_CAP && frames[t] == Context(s, t)
    ensures PrivateStep(frames, s, e)[t] == Context(StepUp(s, e).s, t)
  {
    QuietShape(s, e);
  }

  /** Context preservation. Whatever the interleaving, sharing one CPU refines a machine with a
      private frame per task: at every moment each task's 16 registers, in the CPU or in its slot,
      are what its own steps alone have made of them. */
  lemma {:induction false} ContextsArePrivate(s: State, steps: seq<Step>, frames: seq<IntRegs>, t: pid)
    requires Inv(s) && Exec(Up(s), steps).Up?
    requires |frames| == TASKS_CAP && forall i: pid :: frames[i] == Context(s, i)
    ensures PrivateExec(frames, Up(s), steps)[t] == Context(Exec(Up(s), steps).s, t)
    decreases |steps|
  {
    if steps != [] {
      if StepUp(s, steps[0]).Halted? { HaltedStays(steps[1..]); }
      var s' := StepUp(s, steps[0]).s;
      InvStep(s, steps[0]);
      forall i: pid ensures PrivateStep(frames, s, steps[0])[i] == Context(s', i) {
        if Reschedules(s, steps[0]) {
          RescheduleKeepsContexts(s, steps[0], i);
        } else {
          QuietContexts(s, steps[0], frames, i);
        }
      }
      ContextsArePrivate(s', steps[1..], PrivateStep(frames, s, steps[0]), t);
    }
  }

  /** No step of the run computes on t's behalf: t neither runs nor returns from a call, and no new
      task takes its slot. */
  ghost predicate OthersOnly(m: Machine, steps: seq<Step>, t: pid)
    decreases |steps|
  {
    steps != [] ==>
      && m.Up?
      && (m.s.cur == t ==> !steps[0].Run? && (steps[0].Call? ==> Reschedules(m.s, steps[0])))
      && !SpawnsInto(m.s, steps[0], t)
      && OthersOnly(Next(m, steps[0]), steps[1..], t)
  }

  /** A task that is switched out and later resumed finds all 16 registers as it left them. */
  lemma {:induction false} ResumedAsLeft(s: State, steps: seq<Step>, t: pid)
    requires Inv(s) && s.cur == t && OthersOnly(Up(s), steps, t)
    requires Exec(Up(s), steps).Up? && Exec(Up(s), steps).s.cur == t
    ensures Exec(Up(s), steps).s.regs == s.regs
  {
    OthersKeepContext(s, steps, t);
  }

  lemma {:induction false} OthersKeepContext(s: State, steps: seq<Step>, t: pid)
    requires Inv(s) && OthersOnly(Up(s), steps, t) && Exec(Up(s), steps).Up?
    ensures Context(Exec(Up(s), steps).s, t) == Context(s, t)
    decreases |steps|
  {
    if steps != [] {
      if StepUp(s, steps[0]).Halted? { HaltedStays(steps[1..]); }
      InvStep(s, steps[0]);
      if Reschedules(s, steps[0]) {
        RescheduleKeepsContexts(s, steps[0], t);
      } else {
        QuietContexts(s, steps[0], seq(TASKS_CAP, i requires 0 <= i < TASKS_CAP => Context(s, i)), t);
      }
      OthersKeepContext(StepUp(s, steps[0]).s, steps[1..], t);
    }
  }
}
