/** Signals over whole runs: conservation, faults, death, and the boot state. */
module SignalRuns {
  import opened Words
  import opened Frames
  import opened Signals
  import opened Scheduler
  import opened SchedulerRuns
  import opened Seqs
  import Rings

  // ---- Conservation ----

  /** Would system call 12 post its signal to slot t? */
  predicate Kills(s: State, t: pid) {
    && s.regs.ebx == t + 1
    && Live(s.tasks[t])
    && 1 <= s.regs.ecx < SIG_COUNT
    && (s.tasks[s.cur].uid == 0 || s.tasks[s.cur].uid == s.tasks[t].uid)
  }

  /** The signal a step sends to slot t, if it sends one. */
  function Sent(s: State, e: Step, t: pid): (q: seq<byte>)
    ensures |q| <= 1
  {
    match e
    case Trap(x) => if t == s.cur && !TrapPanics(x) then [TrapSignal(x)] else []
    case Call(_) =>
      if s.regs.eax == 0 && t == s.cur then [SIGSYS]
      else if s.regs.eax == 12 && Kills(s, t) then [s.regs.ecx] else []
    case _ => []
  }

  /** What of it the ring takes: nothing when 63 are pending. */
  ghost function Accepted(s: State, e: Step, t: pid): seq<byte> {
    if |Pending(s.tasks[t])| < 63 then Sent(s, e, t) else []
  }

  /** Does the step drain slot t? */
  predicate Drains(s: State, e: Step, t: pid)
    requires StepUp(s, e).Up?
  {
    && Reschedules(s, e)
    && Visits(s, StepUp(s, e).s, t)
    && Live(UpdateCurrent(s, Handed(s, e)).tasks[t])
  }

  /** The signals of slot t that the step uses up by draining. */
  ghost function Consumed(s: State, e: Step, t: pid): seq<byte>
    requires StepUp(s, e).Up?
  {
    var q := Pending(s.tasks[t]) + Accepted(s, e, t);
    if Drains(s, e, t) then q[..|q| - |FoldOf(q, s.tasks[t].paused).rest|] else []
  }

  /** The signals of a dead slot that are wiped when a new task takes it. */
  ghost function Wiped(s: State, e: Step, t: pid): seq<byte> {
    if SpawnsInto(s, e, t) then Pending(s.tasks[t]) else []
  }

  lemma RestIsSuffix(q: seq<byte>, paused: bool)
    ensures var rest := FoldOf(q, paused).rest;
            |rest| <= |q| && q == q[..|q| - |rest|] + rest
  {}

  lemma PassedPending(t: Slot, slot: pid)
    requires Drain(t, slot).Kept?
    ensures Pending(Passed(t, slot)) == if Live(t) then FoldOf(Pending(t), t.paused).rest else Pending(t)
  {
    if Live(t) { DrainIsFold(t, slot); }
  }

  lemma HandedPending(s: State, e: Step)
    requires Reschedules(s, e)
    ensures Pending(Handed(s, e)) == Pending(s.tasks[s.cur]) + Accepted(s, e, s.cur)
  {
    match e
    case Trap(x) => PostIsEnqueue(s.tasks[s.cur], TrapSignal(x));
    case Call(_) => PostIsEnqueue(s.tasks[s.cur], SIGSYS);
    case _ =>
  }

  lemma CurrentConserves(s: State, e: Step)
    requires Reschedules(s, e) && StepUp(s, e).Up?
    ensures Pending(s.tasks[s.cur]) + Accepted(s, e, s.cur)
         == Consumed(s, e, s.cur) + Pending(StepUp(s, e).s.tasks[s.cur])
  {
    hide Rings.View, StepUp, Drain, FoldOf;
    var h := Handed(s, e);
    var f := WithFrame(h, Save(s.regs));
    HandedPending(s, e);
    assert Pending(f) == Pending(h);
    assert StepUp(s, e).s.tasks[s.cur] == Passed(f, s.cur) && Drain(f, s.cur).Kept? by {
      RescheduledSlots(s, e);
    }
    PassedPending(f, s.cur);
    RestIsSuffix(Pending(h), h.paused);
  }

  lemma OtherConserves(s: State, e: Step, t: pid)
    requires Reschedules(s, e) && StepUp(s, e).Up? && t != s.cur
    ensures Pending(s.tasks[t]) == Consumed(s, e, t) + Pending(StepUp(s, e).s.tasks[t])
    ensures Accepted(s, e, t) == []
  {
    hide Pending, StepUp, Drain, FoldOf;
    var s' := StepUp(s, e).s;
    assert if Visits(s, s', t) then s'.tasks[t] == Passed(s.tasks[t], t) && Drain(s.tasks[t], t).Kept?
           else s'.tasks[t] == s.tasks[t] by {
      RescheduledSlots(s, e);
    }
    assert Pending(s.tasks[t]) + Accepted(s, e, t) == Pending(s.tasks[t]);
    if Visits(s, s', t) {
      PassedPending(s.tasks[t], t);
      RestIsSuffix(Pending(s.tasks[t]), s.tasks[t].paused);
    }
  }

  predicate SameRing(t: Slot, u: Slot) {
    u.signals == t.signals && u.readHead == t.readHead && u.sigSize == t.sigSize
  }

  lemma QuietRing(s: State, e: Step, t: pid)
    requires Inv(s) && !Reschedules(s, e) && StepUp(s, e).Up?
    ensures var u := StepUp(s, e).s.tasks[t];
            if SpawnsInto(s, e, t) then u.sigSize == 0
            else if Sent(s, e, t) != [] then u == Post(s.tasks[t], Sent(s, e, t)[0])
            else SameRing(s.tasks[t], u)
  {
    hide NextTask, Post;
  }

  lemma QuietConserves(s: State, e: Step, t: pid)
    requires Inv(s) && !Reschedules(s, e) && StepUp(s, e).Up?
    ensures Pending(s.tasks[t]) + Accepted(s, e, t) == Wiped(s, e, t) + Pending(StepUp(s, e).s.tasks[t])
  {
    hide StepUp, Rings.View, Sent;
    QuietRing(s, e, t);
    if SpawnsInto(s, e, t) {
      assert Sent(s, e, t) == [] by { NoSpawnSends(s, e, t); }
      assert Pending(StepUp(s, e).s.tasks[t]) == [];
    } else if Sent(s, e, t) != [] {
      PostIsEnqueue(s.tasks[t], Sent(s, e, t)[0]);
    }
  }

  lemma NoSpawnSends(s: State, e: Step, t: pid)
    requires e.Spawn?
    ensures Sent(s, e, t) == []
  {}

  lemma StepConserves(s: State, e: Step, t: pid)
    requires Inv(s) && StepUp(s, e).Up?
    ensures Pending(s.tasks[t]) + Accepted(s, e, t)
         == Consumed(s, e, t) + Wiped(s, e, t) + Pending(StepUp(s, e).s.tasks[t])
  {
    hide Pending, StepUp, FoldOf;
    if !Reschedules(s, e) { QuietConserves(s, e, t); }
    else if t == s.cur { CurrentConserves(s, e); }
    else { OtherConserves(s, e, t); }
  }

  /** All signals a run has the rings of slot t accept and give up, each in order. */
  datatype Ledger = Ledger(accepted: seq<byte>, removed: seq<byte>, consumed: nat, wiped: nat)

  ghost function LedgerOf(m: Machine, steps: seq<Step>, t: pid): Ledger
    decreases |steps|
  {
    if steps == [] || m.Halted? || Next(m, steps[0]).Halted? then Ledger([], [], 0, 0)
    else
      var l := LedgerOf(Next(m, steps[0]), steps[1..], t);
      var c, w := Consumed(m.s, steps[0], t), Wiped(m.s, steps[0], t);
      Ledger(Accepted(m.s, steps[0], t) + l.accepted, c + w + l.removed, |c| + l.consumed, |w| + l.wiped)
  }

  /** No signal is lost, made up or reordered: what was pending and what the ring accepted is, in
      order, what was consumed or wiped followed by what is still pending. */
  lemma {:induction false} SignalsConserved(s: State, steps: seq<Step>, t: pid)
    requires Inv(s) && Exec(Up(s), steps).Up?
    ensures var l := LedgerOf(Up(s), steps, t); var left := Pending(Exec(Up(s), steps).s.tasks[t]);
            && Pending(s.tasks[t]) + l.accepted == l.removed + left
            && |Pending(s.tasks[t])| + |l.accepted| == l.consumed + l.wiped + |left|
    decreases |steps|
  {
    if steps != [] {
      var e := steps[0];
      if StepUp(s, e).Halted? { HaltedStays(steps[1..]); }
      var s' := StepUp(s, e).s;
      InvStep(s, e);
      StepConserves(s, e, t);
      SignalsConserved(s', steps[1..], t);
      var l := LedgerOf(Up(s'), steps[1..], t);
      Joined(Pending(s.tasks[t]), Accepted(s, e, t), Consumed(s, e, t) + Wiped(s, e, t),
            Pending(s'.tasks[t]), l.accepted, l.removed, Pending(Exec(Up(s'), steps[1..]).s.tasks[t]));
    }
  }

  // ---- Faults and death ----

  /** The faulting task has to die: its ring has room for the signal, or already holds a fatal one. */
  ghost predicate Doomed(q: seq<byte>) {
    |q| < 63 || AnyDeadly(q)
  }

  /** The table a fault leaves to the scan of the slots. */
  function AfterFault(s: State, x: Exception): Table {
    s.tasks[s.cur := LeftBehind(UpdateCurrent(s, Handed(s, Trap(x))))]
  }

  /** What a fault does, exactly. It halts the kernel if and only if the faulting task is init and
      doomed, or the scan that follows finds no runnable slot before a doomed init; otherwise the
      faulting task is dead if and only if it was doomed. */
  lemma TrapOutcome(s: State, x: Exception)
    requires Inv(s) && !TrapPanics(x)
    ensures var doomed := Doomed(Pending(s.tasks[s.cur])); var tasks := AfterFault(s, x);
            var m := StepUp(s, Trap(x));
            && (m.Halted? <==>
                  || (s.cur == 0 && doomed)
                  || forall t: pid | Runnable(tasks[t]) :: InitDoomed(tasks) && Dist(s.cur, 0) < Dist(s.cur, t))
            && (m.Up? ==> (Live(m.s.tasks[s.cur]) <==> !doomed))
  {
    hide StepUp, Drain, Save, InitDoomed, Runnable;
    var s1 := UpdateCurrent(s, Handed(s, Trap(x)));
    FaultDrained(s, x);
    RescheduleShape(s, Trap(x));
    NextTaskPanics(s1);
    assert s1.tasks[s.cur := LeftBehind(s1)] == AfterFault(s, x);
    if StepUp(s, Trap(x)).Up? {
      NextTaskShape(s1);
    }
  }

  /** The draining of the faulting task. */
  lemma FaultDrained(s: State, x: Exception)
    requires Inv(s) && !TrapPanics(x)
    ensures var f := WithFrame(Handed(s, Trap(x)), Save(s.regs)); var doomed := Doomed(Pending(s.tasks[s.cur]));
            && (Drain(f, s.cur).Panic? <==> s.cur == 0 && doomed)
            && (Drain(f, s.cur).Kept? ==> (Live(Passed(f, s.cur)) <==> !doomed))
  {
    hide Rings.View, Drain, FirstFatal, Save;
    var h := Handed(s, Trap(x));
    var f := WithFrame(h, Save(s.regs));
    var q := Pending(s.tasks[s.cur]);
    PostIsEnqueue(s.tasks[s.cur], TrapSignal(x));
    assert Pending(f) == Pending(h);
    DrainIsFold(f, s.cur);
    DiesOfDeadly(Pending(f), f.paused);
    if |q| < 63 {
      assert Pending(f)[|q|] == TrapSignal(x);
    }
  }

  ghost predicate NotReused(m: Machine, steps: seq<Step>, t: pid)
    decreases |steps|
  {
    steps != [] && m.Up? ==> !SpawnsInto(m.s, steps[0], t) && NotReused(Next(m, steps[0]), steps[1..], t)
  }

  /** A dead task stays dead and never runs again, until its slot is reused. */
  lemma {:induction false} DeadNeverRuns(s: State, steps: seq<Step>, t: pid)
    requires Inv(s) && !Live(s.tasks[t]) && NotReused(Up(s), steps, t) && Exec(Up(s), steps).Up?
    ensures var s' := Exec(Up(s), steps).s; !Live(s'.tasks[t]) && s'.cur != t
    decreases |steps|
  {
    if steps != [] {
      var e := steps[0];
      if StepUp(s, e).Halted? { HaltedStays(steps[1..]); }
      InvStep(s, e);
      assert !Live(StepUp(s, e).s.tasks[t]) by {
        if Reschedules(s, e) { RescheduledSlots(s, e); } else { QuietShape(s, e); }
      }
      DeadNeverRuns(StepUp(s, e).s, steps[1..], t);
    }
  }

  /** A task other than init that faults with fewer than 63 signals pending is dead after the trap,
      and that incarnation is never the current task again. */
  lemma FaultIsFinal(s: State, x: Exception, rest: seq<Step>)
    requires Inv(s) && s.cur != 0 && !TrapPanics(x) && s.tasks[s.cur].sigSize < 63
    requires NotReused(Up(s), [Trap(x)] + rest, s.cur) && Exec(Up(s), [Trap(x)] + rest).Up?
    ensures var s' := Exec(Up(s), [Trap(x)] + rest).s; !Live(s'.tasks[s.cur]) && s'.cur != s.cur
  {
    assert ([Trap(x)] + rest)[1..] == rest;
    TrapOutcome(s, x);
    if StepUp(s, Trap(x)).Halted? { HaltedStays(rest); }
    InvStep(s, Trap(x));
    DeadNeverRuns(StepUp(s, Trap(x)).s, rest, s.cur);
  }

  // ---- Boot ----

  /** The state `kernel_start` hands to system call 0: five tasks, the first of them init. */
  function BootState(init: word, a: word, b: word, c: word, regs: IntRegs): State {
    var s0 := State(seq(TASKS_CAP, _ => EmptySlot()), 0, regs.(eax := 0), false);
    var s1 := MakeTask(s0, Program(init, 0, 0, 0, 0x08, 0x10, true));
    var s2 := MakeTask(s1, Program(a, 0, 0, 0, 0x08, 0x10, false));
    var s3 := MakeTask(s2, Program(b, 1, 0, 0, 0x08, 0x10, false));
    var s4 := MakeTask(s3, Program(a, 2, 0, 0, 0x08, 0x10, false));
    MakeTask(s4, Program(c, 3, 0, 0, 0x08, 0x10, false))
  }

  lemma MakeTaskKeepsInit(s: State, p: Program)
    requires Live(s.tasks[0]) && !s.tasks[0].paused
    ensures MakeTask(s, p).tasks[0] == s.tasks[0]
  {}

  lemma BootStarts(init: word, a: word, b: word, c: word, regs: IntRegs, io: word)
    ensures var m := StepUp(BootState(init, a, b, c, regs), Call(io));
            && m.Up? && Inv(m.s) && m.s.cur == 0
            && m.s.regs.eip == init && m.s.tasks[0].yieldOnly
  {
    var s0 := State(seq(TASKS_CAP, _ => EmptySlot()), 0, regs.(eax := 0), false);
    var s1 := MakeTask(s0, Program(init, 0, 0, 0, 0x08, 0x10, true));
    assert !Live(s0.tasks[0]);
    assert s1.tasks[0] == NewTask(Program(init, 0, 0, 0, 0x08, 0x10, true), 0);
    var s2 := MakeTask(s1, Program(a, 0, 0, 0, 0x08, 0x10, false));
    var s3 := MakeTask(s2, Program(b, 1, 0, 0, 0x08, 0x10, false));
    var s4 := MakeTask(s3, Program(a, 2, 0, 0, 0x08, 0x10, false));
    MakeTaskKeepsInit(s1, Program(a, 0, 0, 0, 0x08, 0x10, false));
    MakeTaskKeepsInit(s2, Program(b, 1, 0, 0, 0x08, 0x10, false));
    MakeTaskKeepsInit(s3, Program(a, 2, 0, 0, 0x08, 0x10, false));
    MakeTaskKeepsInit(s4, Program(c, 3, 0, 0, 0x08, 0x10, false));
  }

  /** From boot on, in every state of every run that has not halted, init is live and the current
      task is live and not paused. */
  lemma BootRuns(init: word, a: word, b: word, c: word, regs: IntRegs, io: word, steps: seq<Step>)
    requires Exec(Up(BootState(init, a, b, c, regs)), [Call(io)] + steps).Up?
    ensures Inv(Exec(Up(BootState(init, a, b, c, regs)), [Call(io)] + steps).s)
  {
    assert ([Call(io)] + steps)[1..] == steps;
    BootStarts(init, a, b, c, regs, io);
    InvRun(StepUp(BootState(init, a, b, c, regs), Call(io)).s, steps);
  }
}
