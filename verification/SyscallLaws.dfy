/** What the system calls answer, what signal each fault sends, and what a new task starts with: in numbers. */
module SyscallLaws {
  import opened Words
  import opened Frames
  import opened Signals
  import opened Scheduler
  import opened SchedulerRuns
  import opened SignalRuns
  import Rings

  // ---- System call 12 ----

  /** Slot n - 1 exists and holds a task that is not dead. */
  predicate IsTask(s: State, n: word) {
    1 <= n <= 256 && s.tasks[n - 1].status != Dead
  }

  /** The caller may send a signal to the task of slot n - 1. */
  predicate MayKill(s: State, n: word)
    requires IsTask(s, n)
  {
    s.tasks[s.cur].uid == 0 || s.tasks[s.cur].uid == s.tasks[n - 1].uid
  }

  /** What `kill` answers. A probe, signal 0, answers 0 exactly for a task that is not dead; -1 says that
      there is no such task, no such signal, or no right to send it; otherwise EAX is still 12. */
  lemma KillAnswers(s: State, io: word)
    requires s.regs.eax == 12
    ensures var m := StepUp(s, Call(io)); var n, sig := s.regs.ebx, s.regs.ecx;
            && m.Up?
            && (m.s.regs.eax == 0 <==> IsTask(s, n) && sig == 0)
            && (m.s.regs.eax == 0xFFFF_FFFF <==>
                  !IsTask(s, n) || sig >= 29 || (sig > 0 && !MayKill(s, n)))
            && (m.s.regs.eax in {0, 12, 0xFFFF_FFFF})
            && m.s.regs.(eax := 12) == s.regs
  {
    hide Post;
    TargetOf(s.regs.ebx);
  }

  lemma TargetOf(n: word)
    ensures Wrap(n - 1) < TASKS_CAP <==> 1 <= n <= 256
    ensures n > 0 ==> Wrap(n - 1) == n - 1
  {}

  /** What `kill` sends: exactly when it leaves EAX at 12 the signal is behind the others of its target, or
      dropped because 63 are pending; otherwise nothing is sent. Nothing else changes but EAX. */
  lemma KillSends(s: State, io: word, t: pid)
    requires s.regs.eax == 12
    ensures var m := StepUp(s, Call(io)); var q := Pending(s.tasks[t]);
            && m.Up?
            && m.s.(tasks := s.tasks, regs := s.regs) == s
            && (if m.s.regs.eax == 12 && s.regs.ebx == t + 1 then
                  && s.regs.ecx < 256
                  && Pending(m.s.tasks[t]) == (if |q| == 63 then q else q + [s.regs.ecx])
                  && m.s.tasks[t].(signals := s.tasks[t].signals, writeHead := s.tasks[t].writeHead,
                                   sigSize := s.tasks[t].sigSize) == s.tasks[t]
                else m.s.tasks[t] == s.tasks[t])
  {
    hide Rings.View;
    KillAnswers(s, io);
    TargetOf(s.regs.ebx);
    if s.regs.ecx < 256 {
      PostIsEnqueue(s.tasks[t], s.regs.ecx);
    }
    hide Post, Pending;
  }

  // ---- The other calls, and faults ----

  /** The slot after a signal: sig is behind its pending signals, or dropped because 63 are pending. */
  ghost predicate Sends(before: Slot, after: Slot, sig: byte) {
    && Pending(after) == (if |Pending(before)| == 63 then Pending(before) else Pending(before) + [sig])
    && after.(signals := before.signals, writeHead := before.writeHead, sigSize := before.sigSize) == before
  }

  /** A call that answers v in EAX and changes nothing else. */
  ghost predicate Answers(s: State, m: Machine, v: word) {
    m.Up? && m.s.regs.eax == v && m.s.regs.(eax := s.regs.eax) == s.regs && m.s.(regs := s.regs) == s
  }

  /** The calls that answer at once: 2 and 3 what the tty answers, 5 the number 69420, 9, 10 and 11 the
      user, the group and the number of the task; 6 changes no register. The numbers from 13 on, and the
      exit of init, halt the kernel. */
  lemma CallAnswers(s: State, io: word)
    ensures var m, t, call := StepUp(s, Call(io)), s.tasks[s.cur], s.regs.eax;
            && (call in {2, 3} ==> Answers(s, m, io))
            && (call == 5 ==> Answers(s, m, 69420))
            && (call == 6 ==> Answers(s, m, 6))
            && (call == 9 ==> Answers(s, m, t.uid))
            && (call == 10 ==> Answers(s, m, t.gid))
            && (call == 11 ==> Answers(s, m, s.cur + 1))
            && (call >= 13 || (call == 1 && s.cur == 0) ==> m.Halted?)
  {
    hide Drain, Scan, Save, Restore;
  }

  /** Calls 7 and 8: only user 0 becomes another user or group; everyone else is answered -1 and stays who he is. */
  lemma IdentityCalls(s: State, io: word)
    requires s.regs.eax == 7 || s.regs.eax == 8
    ensures var m, t := StepUp(s, Call(io)), s.tasks[s.cur];
            && m.Up?
            && (if t.uid == 0 then
                  && m.s.regs.eax == 0
                  && m.s.tasks[s.cur].uid == (if s.regs.eax == 7 then s.regs.ebx else 0)
                  && m.s.tasks[s.cur].gid == (if s.regs.eax == 8 then s.regs.ebx else t.gid)
                  && m.s.tasks[s.cur].(uid := t.uid, gid := t.gid) == t
                  && (forall i: pid | i != s.cur :: m.s.tasks[i] == s.tasks[i])
                else m.s.regs.eax == 0xFFFF_FFFF && m.s.tasks == s.tasks)
            && m.s.regs.(eax := s.regs.eax) == s.regs
            && m.s.cur == s.cur && m.s.tasking == s.tasking
  {
    hide Drain, Scan, Save, Restore;
  }

  /** Call 4 does what a tick does to a task that is not yield-only; a tick of a yield-only task, or before
      tasking, does nothing. */
  lemma YieldIsTick(s: State, io: word)
    ensures s.regs.eax == 4 && s.tasking && !s.tasks[s.cur].yieldOnly ==> StepUp(s, Call(io)) == StepUp(s, Tick)
    ensures !s.tasking || s.tasks[s.cur].yieldOnly ==> StepUp(s, Tick) == Up(s)
  {}

  /** Call 0 a second time sends signal 23, and reschedules. */
  lemma SecondStart(s: State, io: word) returns (u: Slot)
    requires s.tasking && s.regs.eax == 0
    ensures Sends(s.tasks[s.cur], u, 23) && StepUp(s, Call(io)) == NextTask(UpdateCurrent(s, u))
  {
    u := PostedTo(s, 23);
    hide NextTask, Sends, KillTask;
  }

  /** Call 1 of a task other than init: the task is dead afterwards, unless the kernel halts. */
  lemma ExitKills(s: State, io: word)
    requires s.tasking && s.regs.eax == 1 && s.cur != 0 && StepUp(s, Call(io)).Up?
    ensures StepUp(s, Call(io)).s.tasks[s.cur].status == Dead
  {
    RescheduledSlots(s, Call(io));
  }

  /** The interrupt number of an exception. */
  function Vector(x: Exception): nat {
    match x
    case DivideBy0 => 0
    case Nmi => 2
    case Overflow => 4
    case Bound => 5
    case InvalidOpcode => 6
    case NoDevice => 7
    case DoubleFault => 8
    case CoprocessorOverrun => 9
    case InvalidTss => 10
    case SegmentNotPresent => 11
    case StackFault => 12
    case GeneralProtection => 13
    case PageFault => 14
    case FpuError => 16
    case Alignment => 17
    case MachineCheck => 18
    case Simd => 19
  }

  /** What each exception does, by interrupt number: 2, 8, 10 and 19 halt the kernel, and so does every one
      before tasking; 0, 7, 9 and 16 send signal 6 to the current task, 6 sends 8, 18 sends 24, the others
      send 13, and the kernel reschedules. */
  lemma FaultByNumber(s: State, x: Exception) returns (u: Slot)
    ensures var v := Vector(x);
            if v in {2, 8, 10, 19} || !s.tasking then StepUp(s, Trap(x)).Halted?
            else
              && Sends(s.tasks[s.cur], u,
                       if v in {0, 7, 9, 16} then 6 else if v == 6 then 8 else if v == 18 then 24 else 13)
              && StepUp(s, Trap(x)) == NextTask(UpdateCurrent(s, u))
  {
    hide NextTask, Sends, KillTask, Vector, TrapSignal, TrapPanics;
    VectorTable(x);
    u := PostedTo(s, TrapSignal(x));
  }

  lemma VectorTable(x: Exception)
    ensures var v := Vector(x);
            && (TrapPanics(x) <==> v in {2, 8, 10, 19})
            && (!TrapPanics(x) ==>
                  TrapSignal(x) == if v in {0, 7, 9, 16} then 6 else if v == 6 then 8 else if v == 18 then 24 else 13)
  {}

  lemma PostedTo(s: State, sig: byte) returns (u: Slot)
    ensures Sends(s.tasks[s.cur], u, sig) && KillTask(s, s.cur, sig) == UpdateCurrent(s, u)
  {
    hide Pending;
    u := Post(s.tasks[s.cur], sig);
    PostIsEnqueue(s.tasks[s.cur], sig);
  }

  // ---- The first run of a task ----

  /** However others run in between, a new task in slot t first runs with interrupts on (0x206), the flat
      segments of its program, a stack of 8192 bytes of its own, and nothing in the other registers. */
  lemma FirstRun(s: State, p: Program, t: pid, others: seq<Step>)
    requires Inv(s) && !Live(s.tasks[t]) && forall i: pid | i < t :: Live(s.tasks[i])
    requires OthersOnly(StepUp(s, Spawn(p)), others, t) && Exec(StepUp(s, Spawn(p)), others).Up?
    ensures var s' := Exec(StepUp(s, Spawn(p)), others).s; var top := 0x4000_0000 + 8192 * t;
            s'.cur == t ==>
              && s'.regs.eip == p.eip && s'.regs.eflags == 0x206 && s'.regs.cs == p.cs
              && s'.regs.ds == s'.regs.es == s'.regs.ss == p.segment
              && s'.regs.fs == p.fs && s'.regs.gs == p.gs
              && s'.regs.esp == s'.regs.ebp == top
              && s'.regs.eax == s'.regs.ebx == s'.regs.ecx == s'.regs.edx == s'.regs.esi == s'.regs.edi == 0
  {
    hide Exec, OthersOnly;
    var s1 := StepUp(s, Spawn(p)).s;
    assert FreeSlot(s.tasks, 0) == t;
    InvStep(s, Spawn(p));
    OthersKeepContext(s1, others, t);
  }

  /** What boot leaves: five tasks, init alone yield-only, one on each tty but two on tty 0. */
  lemma BootTable(init: word, a: word, b: word, c: word, regs: IntRegs, t: pid)
    ensures var u := BootState(init, a, b, c, regs).tasks[t]; var r := Restore(u.regs);
            if t >= 5 then u.status == Dead
            else
              && Runnable(u) && Pending(u) == [] && u.uid == 0 && u.gid == 0
              && (u.yieldOnly <==> t == 0)
              && u.tty == (if t == 0 then 0 else t - 1)
              && r.eip == (if t == 0 then init else if t == 2 then b else if t == 4 then c else a)
              && r.cs == 8 && r.ds == r.es == r.ss == 16 && r.fs == r.gs == 0
              && r.eflags == 0x206 && r.esp == 0x4000_0000 + 8192 * t
  {
    var s0 := State(seq(TASKS_CAP, _ => EmptySlot()), 0, regs.(eax := 0), false);
    var p0, p1 := Program(init, 0, 0, 0, 0x08, 0x10, true), Program(a, 0, 0, 0, 0x08, 0x10, false);
    var p2, p3 := Program(b, 1, 0, 0, 0x08, 0x10, false), Program(a, 2, 0, 0, 0x08, 0x10, false);
    var p4 := Program(c, 3, 0, 0, 0x08, 0x10, false);
    hide MakeTask, NewTask;
    var s1 := MakesNext(s0, p0, 0);
    var s2 := MakesNext(s1, p1, 1);
    var s3 := MakesNext(s2, p2, 2);
    var s4 := MakesNext(s3, p3, 3);
    var s5 := MakesNext(s4, p4, 4);
    assert s5.tasks[t] == if t == 0 then NewTask(p0, 0) else if t == 1 then NewTask(p1, 1)
                          else if t == 2 then NewTask(p2, 2) else if t == 3 then NewTask(p3, 3)
                          else if t == 4 then NewTask(p4, 4) else EmptySlot();
    NewTaskIs(if t == 0 then p0 else if t == 1 then p1 else if t == 2 then p2 else if t == 3 then p3 else p4, t);
  }

  /** The first n slots are live and the others as `memset` leaves them. */
  predicate Filled(s: State, n: nat) {
    forall i: pid :: if i < n then Live(s.tasks[i]) else s.tasks[i] == EmptySlot()
  }

  lemma MakesNext(s: State, p: Program, n: pid) returns (m: State)
    requires Filled(s, n)
    ensures m == MakeTask(s, p) && Filled(m, n + 1)
    ensures m.tasks[n] == NewTask(p, n) && forall i: pid | i != n :: m.tasks[i] == s.tasks[i]
  {
    m := MakeTask(s, p);
    assert !Live(s.tasks[n]) && forall i: pid | i < n :: Live(s.tasks[i]);
    assert FreeSlot(s.tasks, 0) == n;
  }

  lemma NewTaskIs(p: Program, t: pid)
    ensures var u := NewTask(p, t); var r := Restore(u.regs);
            && Runnable(u) && Pending(u) == [] && u.uid == 0 && u.gid == 0
            && u.yieldOnly == p.yieldOnly && u.tty == p.tty && r.eip == p.eip
            && r.cs == p.cs && r.ds == r.es == r.ss == p.segment && r.fs == p.fs && r.gs == p.gs
            && r.eflags == 0x206 && r.esp == 0x4000_0000 + 8192 * t
  {}
}
