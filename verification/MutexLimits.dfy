/** Which pairs of tasks the spin lock of mutex.h keeps apart, and which it does not. */
module MutexLimits {
  import opened Words
  import opened Frames
  import opened Signals
  import opened Scheduler
  import opened SchedulerRuns
  import opened Mutex

  // ---- Runs of two contenders ----

  /** Nothing faults, only the tasks in slots t and u start rounds, and neither slot is given away. */
  ghost predicate Allowed(x: LockState, a: Act, t: pid, u: pid) {
    && (a.Enter? ==> x.s.cur == t || x.s.cur == u)
    && (a.Kernel? ==> !a.step.Trap? && !SpawnsInto(x.s, a.step, t) && !SpawnsInto(x.s, a.step, u))
  }

  ghost predicate AllowedRun(m: LockMachine, acts: seq<Act>, t: pid, u: pid)
    decreases |acts|
  {
    acts != [] && m.Running? && |m.x.place| == TASKS_CAP && Enabled(m.x, acts[0]) ==>
      Allowed(m.x, acts[0], t, u) && AllowedRun(ActOn(m.x, acts[0]), acts[1..], t, u)
  }

  /** A lock nobody uses yet, and two live tasks, yield-only or not. */
  ghost predicate Start(x: LockState, t: pid, u: pid, yieldT: bool, yieldU: bool) {
    && Idle(x) && Live(x.s.tasks[t]) && Live(x.s.tasks[u])
    && x.s.tasks[t].yieldOnly == yieldT && x.s.tasks[u].yieldOnly == yieldU
  }

  ghost predicate BothInside(m: LockMachine, t: pid, u: pid) {
    m.Running? && |m.x.place| == TASKS_CAP && In(m.x, t, Inside) && In(m.x, u, Inside)
  }

  /** No run of such tasks puts both into their critical sections. */
  ghost predicate Exclusive(t: pid, u: pid, yieldT: bool, yieldU: bool) {
    forall x: LockState, acts: seq<Act> |
      Start(x, t, u, yieldT, yieldU) && AllowedRun(Running(x), acts, t, u) ::
      !BothInside(RunActs(Running(x), acts), t, u)
  }

  // ---- Yield-only tasks other than init are kept apart ----

  predicate Yields(x: LockState, t: pid) {
    t != 0 && (Live(x.s.tasks[t]) ==> x.s.tasks[t].yieldOnly)
  }

  lemma YieldsKept(x: LockState, a: Act, t: pid, u: pid)
    requires Shaped(x) && Enabled(x, a) && ActOn(x, a).Running? && Allowed(x, a, t, u) && Yields(x, t)
    ensures Yields(ActOn(x, a).x, t)
  {
    hide StepUp;
    var y := ActOn(x, a).x;
    if a.Kernel? && Live(y.s.tasks[t]) {
      KernelStepFrame(x.s, a.step, t);
    } else if a.Test? && x.lock != 0 && x.s.tasks[x.s.cur].yieldOnly && Live(y.s.tasks[t]) {
      KernelStepFrame(SetEax(x.s, 4), Call(0), t);
    }
  }

  lemma {:induction false} AllowedIsDisciplined(x: LockState, acts: seq<Act>, t: pid, u: pid)
    requires LockInv(x) && Yields(x, t) && Yields(x, u) && AllowedRun(Running(x), acts, t, u)
    ensures DisciplinedRun(Running(x), acts)
    decreases |acts|
  {
    hide ActOn;
    if acts != [] && Enabled(x, acts[0]) {
      assert Disciplined(x, acts[0]);
      var m := ActOn(x, acts[0]);
      if m.Running? {
        ActKeeps(x, acts[0]);
        YieldsKept(x, acts[0], t, u);
        YieldsKept(x, acts[0], u, t);
        AllowedIsDisciplined(m.x, acts[1..], t, u);
      }
    }
  }

  // ---- Building runs ----

  /** An allowed run that leads from x to y, each of its acts being enabled where it happens. */
  ghost predicate Leads(x: LockState, acts: seq<Act>, y: LockState, t: pid, u: pid)
    decreases |acts|
  {
    if acts == [] then x == y
    else
      && |x.place| == TASKS_CAP && Enabled(x, acts[0]) && Allowed(x, acts[0], t, u)
      && ActOn(x, acts[0]).Running? && Leads(ActOn(x, acts[0]).x, acts[1..], y, t, u)
  }

  lemma {:induction false} LeadsThere(x: LockState, acts: seq<Act>, y: LockState, t: pid, u: pid)
    requires Leads(x, acts, y, t, u)
    ensures AllowedRun(Running(x), acts, t, u) && RunActs(Running(x), acts) == Running(y)
    decreases |acts|
  {
    hide ActOn, Enabled, Allowed;
    if acts != [] { LeadsThere(ActOn(x, acts[0]).x, acts[1..], y, t, u); }
  }

  /** The run goes on with one more act. */
  lemma {:induction false} LeadsOn(x: LockState, acts: seq<Act>, y: LockState, b: Act, t: pid, u: pid)
    requires Leads(x, acts, y, t, u)
    requires |y.place| == TASKS_CAP && Enabled(y, b) && Allowed(y, b, t, u) && ActOn(y, b).Running?
    ensures Leads(x, acts + [b], ActOn(y, b).x, t, u)
    decreases |acts|
  {
    hide ActOn, Enabled, Allowed;
    if acts == [] {
      assert [] + [b] == [b] && [b][1..] == [];
      assert Leads(ActOn(y, b).x, [], ActOn(y, b).x, t, u);
    } else {
      assert (acts + [b])[1..] == acts[1..] + [b];
      LeadsOn(ActOn(x, acts[0]).x, acts[1..], y, b, t, u);
    }
  }

  // ---- Handing the CPU over ----

  /** Two tasks, t running, that alone can run and have no signals to come. */
  predicate Rivals(s: State, t: pid, u: pid) {
    && Inv(s) && s.cur == t && u != t
    && (forall i: pid :: s.tasks[i].sigSize == 0 && (Runnable(s.tasks[i]) <==> i == t || i == u))
  }

  /** With no signal pending anywhere, a call of the scheduler changes nothing but the current task,
      which becomes the first runnable one after it. */
  lemma Hands(s: State, t: pid)
    requires forall i: pid :: s.tasks[i].sigSize == 0
    requires t != s.cur && Runnable(s.tasks[t])
    requires forall i: pid | Dist(s.cur, i) < Dist(s.cur, t) :: !Runnable(s.tasks[i])
    ensures var saved := s.tasks[s.cur := WithFrame(s.tasks[s.cur], Save(s.regs))];
            NextTask(s) == Up(State(saved, t, Restore(s.tasks[t].regs), s.tasking))
  {
    var tasks := s.tasks[s.cur := WithFrame(s.tasks[s.cur], Save(s.regs))];
    assert tasks[t] == s.tasks[t];
    ScanStuck(tasks, s.cur, TASKS_CAP);
    ScanWalks(tasks, s.cur, TASKS_CAP);
    var w := Scan(tasks, s.cur, TASKS_CAP);
    assert forall i: pid :: Runnable(tasks[i]) == Runnable(s.tasks[i]);
    assert w.slot == t;
    assert w.tasks == tasks;
  }

  /** The other task has the CPU, and nothing else but frames has changed. */
  predicate HandedOver(s: State, s': State, t: pid, u: pid) {
    Rivals(s', u, t) && forall i: pid :: s'.tasks[i].yieldOnly == s.tasks[i].yieldOnly
  }

  lemma NextHandsOver(s: State, t: pid, u: pid)
    requires Rivals(s, t, u)
    ensures NextTask(s).Up? && HandedOver(s, NextTask(s).s, t, u)
  {
    Hands(s, u);
  }

  lemma TickHandsOver(s: State, t: pid, u: pid)
    requires Rivals(s, t, u) && !s.tasks[t].yieldOnly
    ensures StepUp(s, Tick).Up? && HandedOver(s, StepUp(s, Tick).s, t, u)
  {
    hide NextTask;
    NextHandsOver(s, t, u);
  }

  /** A task outside mutex.h may yield: it puts 4 into EAX and traps. */
  lemma YieldHandsOver(s: State, t: pid, u: pid)
    requires Rivals(s, t, u)
    ensures var r := StepUp(s, Run(s.regs.(eax := 4)));
            r.Up? && StepUp(r.s, Call(0)).Up? && HandedOver(s, StepUp(r.s, Call(0)).s, t, u)
  {
    hide NextTask;
    NextHandsOver(s.(regs := s.regs.(eax := 4)), t, u);
  }

  // ---- The runs that fail ----

  /** Where a breaking run stands: the CPU is with c, the other contender is d, and the lock is as
      free as it looks. */
  ghost predicate Stands(y: LockState, c: pid, d: pid, placeC: Place, placeD: Place) {
    |y.place| == TASKS_CAP && Rivals(y.s, c, d) && y.place[c] == placeC && y.place[d] == placeD
  }

  /** c finds the lock free and is about to take it. */
  lemma ComesToLock(x: LockState, acts: seq<Act>, y: LockState, c: pid, d: pid, placeD: Place, t: pid, u: pid)
    returns (more: seq<Act>, z: LockState)
    requires Leads(x, acts, y, t, u) && Stands(y, c, d, Outside, placeD) && y.lock == 0 && (c == t || c == u)
    ensures Leads(x, more, z, t, u) && Stands(z, c, d, AtLock, placeD) && z.lock == 0 && z.s == y.s
  {
    hide Leads, Rivals;
    CurrentIs(y.s, c, d);
    LeadsOn(x, acts, y, Enter, t, u);
    var w := ActOn(y, Enter).x;
    LeadsOn(x, acts + [Enter], w, Test, t, u);
    more, z := acts + [Enter] + [Test], ActOn(w, Test).x;
    assert z == y.(place := y.place[c := Waiting][c := AtLock]);
  }

  lemma CurrentIs(s: State, c: pid, d: pid)
    requires Rivals(s, c, d)
    ensures s.cur == c && d != c
  {}

  /** c takes the lock, or passes it when it is not free. */
  lemma GoesInside(x: LockState, acts: seq<Act>, y: LockState, c: pid, d: pid, placeD: Place, t: pid, u: pid)
    returns (more: seq<Act>, z: LockState)
    requires Leads(x, acts, y, t, u) && Stands(y, c, d, AtLock, placeD)
    ensures Leads(x, more, z, t, u) && Stands(z, c, d, Inside, placeD) && z.s == y.s
    ensures z.lock == if y.lock == 0 then c else y.lock
  {
    hide Leads, Rivals;
    CurrentIs(y.s, c, d);
    LeadsOn(x, acts, y, Take, t, u);
    more, z := acts + [Take], ActOn(y, Take).x;
  }

  /** A tick takes the CPU from c, wherever in mutex.h it is. */
  lemma IsPreempted(x: LockState, acts: seq<Act>, y: LockState, c: pid, d: pid, placeC: Place, placeD: Place,
                    t: pid, u: pid)
    returns (more: seq<Act>, z: LockState)
    requires Leads(x, acts, y, t, u) && Stands(y, c, d, placeC, placeD) && !y.s.tasks[c].yieldOnly
    ensures Leads(x, more, z, t, u) && Stands(z, d, c, placeD, placeC) && z.lock == y.lock
  {
    TickHandsOver(y.s, c, d);
    hide Leads, Rivals, StepUp;
    LeadsOn(x, acts, y, Kernel(Tick), t, u);
    more, z := acts + [Kernel(Tick)], ActOn(y, Kernel(Tick)).x;
  }

  /** c gives the CPU away from inside its critical section. */
  lemma YieldsInside(x: LockState, acts: seq<Act>, y: LockState, c: pid, d: pid, placeD: Place, t: pid, u: pid)
    returns (more: seq<Act>, z: LockState)
    requires Leads(x, acts, y, t, u) && Stands(y, c, d, Inside, placeD)
    ensures Leads(x, more, z, t, u) && Stands(z, d, c, placeD, Inside) && z.lock == y.lock
  {
    var four := Run(y.s.regs.(eax := 4));
    YieldHandsOver(y.s, c, d);
    CurrentIs(y.s, c, d);
    var s1 := y.s.(regs := y.s.regs.(eax := 4));
    assert StepUp(y.s, four) == Up(s1) && s1.cur == c;
    hide Leads, Rivals, StepUp;
    LeadsOn(x, acts, y, Kernel(four), t, u);
    var w := ActOn(y, Kernel(four)).x;
    assert w == y.(s := s1);
    LeadsOn(x, acts + [Kernel(four)], w, Kernel(Call(0)), t, u);
    more, z := acts + [Kernel(four)] + [Kernel(Call(0))], ActOn(w, Kernel(Call(0))).x;
  }

  lemma LeadsNowhere(x: LockState, t: pid, u: pid)
    ensures Leads(x, [], x, t, u)
  {}

  lemma BothLive(y: LockState, c: pid, d: pid)
    requires Stands(y, c, d, Inside, Inside)
    ensures BothInside(Running(y), c, d) && BothInside(Running(y), d, c)
  {}

  /** One preemptible contender is enough: a tick between its test and its taking of the lock lets the
      other one in first. */
  lemma PreemptionBreaksExclusion(x: LockState, c: pid, d: pid, t: pid, u: pid) returns (acts: seq<Act>)
    requires Idle(x) && Rivals(x.s, c, d) && !x.s.tasks[c].yieldOnly && {c, d} == {t, u}
    ensures AllowedRun(Running(x), acts, t, u) && BothInside(RunActs(Running(x), acts), c, d)
  {
    hide Leads, Rivals, AllowedRun, RunActs;
    var y;
    LeadsNowhere(x, t, u);
    acts, y := ComesToLock(x, [], x, c, d, Outside, t, u);
    acts, y := IsPreempted(x, acts, y, c, d, AtLock, Outside, t, u);
    acts, y := ComesToLock(x, acts, y, d, c, AtLock, t, u);
    acts, y := GoesInside(x, acts, y, d, c, AtLock, t, u);
    acts, y := YieldsInside(x, acts, y, d, c, AtLock, t, u);
    acts, y := GoesInside(x, acts, y, c, d, Inside, t, u);
    LeadsThere(x, acts, y, t, u);
    BothLive(y, c, d);
  }

  /** Init writes slot number 0 into the lock word, which is how a free lock looks: the lock never
      keeps anyone away from it. */
  lemma InitBreaksExclusion(x: LockState, d: pid, t: pid, u: pid) returns (acts: seq<Act>)
    requires Idle(x) && Rivals(x.s, 0, d) && {0, d} == {t, u}
    ensures AllowedRun(Running(x), acts, t, u) && BothInside(RunActs(Running(x), acts), 0, d)
  {
    hide Leads, Rivals, AllowedRun, RunActs;
    var y;
    LeadsNowhere(x, t, u);
    acts, y := ComesToLock(x, [], x, 0, d, Outside, t, u);
    acts, y := GoesInside(x, acts, y, 0, d, Outside, t, u);
    acts, y := YieldsInside(x, acts, y, 0, d, Outside, t, u);
    acts, y := ComesToLock(x, acts, y, d, 0, Inside, t, u);
    acts, y := GoesInside(x, acts, y, d, 0, Inside, t, u);
    LeadsThere(x, acts, y, t, u);
    BothLive(y, d, 0);
  }

  /** Every pair of tasks can come to be the only ones that can run, with the CPU at either of them. */
  lemma RivalsExist(c: pid, d: pid, yieldC: bool, yieldD: bool) returns (x: LockState)
    requires c != d
    ensures Start(x, c, d, yieldC, yieldD) && Rivals(x.s, c, d)
  {
    var a := EmptySlot().(status := New);
    var tasks := seq(TASKS_CAP, i => if i == c then a.(yieldOnly := yieldC)
                                     else if i == d then a.(yieldOnly := yieldD)
                                     else if i == 0 then a.(paused := true)
                                     else EmptySlot());
    x := LockState(State(tasks, c, Restore(ZERO_REGS), true), 0, seq(TASKS_CAP, _ => Outside));
  }

  /** Main result: the lock keeps two tasks apart in every fault-free run if and only if both are
      yield-only and neither is init. */
  lemma ExclusionExactly(t: pid, u: pid, yieldT: bool, yieldU: bool)
    requires t != u
    ensures Exclusive(t, u, yieldT, yieldU) <==> yieldT && yieldU && t != 0 && u != 0
  {
    if yieldT && yieldU && t != 0 && u != 0 {
      forall x: LockState, acts: seq<Act> |
        Start(x, t, u, yieldT, yieldU) && AllowedRun(Running(x), acts, t, u)
        ensures !BothInside(RunActs(Running(x), acts), t, u)
      {
        KeptApart(x, acts, t, u);
      }
    } else {
      var x, acts := Breaks(t, u, yieldT, yieldU);
      hide Start, AllowedRun, BothInside, RunActs;
      assert !Exclusive(t, u, yieldT, yieldU);
    }
  }

  lemma KeptApart(x: LockState, acts: seq<Act>, t: pid, u: pid)
    requires t != u && t != 0 && u != 0
    requires Start(x, t, u, true, true) && AllowedRun(Running(x), acts, t, u)
    ensures !BothInside(RunActs(Running(x), acts), t, u)
  {
    AllowedIsDisciplined(x, acts, t, u);
    hide RunActs, DisciplinedRun, AllowedRun;
    if BothInside(RunActs(Running(x), acts), t, u) {
      MutualExclusion(x, acts, t, u);
      assert false;
    }
  }

  lemma Breaks(t: pid, u: pid, yieldT: bool, yieldU: bool) returns (x: LockState, acts: seq<Act>)
    requires t != u && !(yieldT && yieldU && t != 0 && u != 0)
    ensures Start(x, t, u, yieldT, yieldU) && AllowedRun(Running(x), acts, t, u)
    ensures BothInside(RunActs(Running(x), acts), t, u)
  {
    hide Rivals, AllowedRun, RunActs;
    if t == 0 || !yieldT {
      x := RivalsExist(t, u, yieldT, yieldU);
      if t == 0 { acts := InitBreaksExclusion(x, u, t, u); } else { acts := PreemptionBreaksExclusion(x, t, u, t, u); }
    } else {
      x := RivalsExist(u, t, yieldU, yieldT);
      if u == 0 { acts := InitBreaksExclusion(x, t, t, u); } else { acts := PreemptionBreaksExclusion(x, u, t, t, u); }
    }
  }
}
