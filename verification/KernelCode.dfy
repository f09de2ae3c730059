/** The scheduler and trap code as it runs: the task table, the CPU frame and the flags are updated
    in place, and every method is proved to take the step that module Scheduler describes. */
module KernelCode {
  import opened Words
  import opened Frames
  import opened Signals
  import opened Scheduler
  import SchedulerRuns
  import SignalRuns
  import Rings

  const ENO: word := 0
  const ENOBUFS: word := 42

  /** One turn of the scan. */
  lemma ScanTurn(tasks: Table, cur: pid, tries: nat)
    requires tries > 0
    ensures var c: pid := (cur + 1) % TASKS_CAP;
            && (Runnable(tasks[c]) ==> Scan(tasks, cur, tries) == Chose(tasks, c))
            && (!Live(tasks[c]) ==> Scan(tasks, cur, tries) == Scan(tasks, c, tries - 1))
            && (Live(tasks[c]) && tasks[c].paused ==>
                  Scan(tasks, cur, tries) == match Drain(tasks[c], c)
                                             case Panic => Stuck
                                             case Kept(t) => Scan(tasks[c := t], c, tries - 1))
  {
    hide Drain;
  }

  lemma ScanEnds(tasks: Table, cur: pid)
    ensures Scan(tasks, cur, 0) == Stuck
  {}

  class Kernel {
    const tasks: array<Task>
    var currentTask: nat
    var regs: IntRegs
    var tasking: bool
    var halted: bool
    var errno: word

    ghost predicate Valid()
      reads this, tasks
    {
      && tasks.Length == TASKS_CAP
      && currentTask < TASKS_CAP
      && (!halted ==> forall i :: 0 <= i < TASKS_CAP ==> RingOk(tasks[i]))
    }

    ghost function Abs(): State
      requires Valid() && !halted
      reads this, tasks
    {
      State(tasks[..], currentTask, regs, tasking)
    }

    ghost function Now(): Machine
      requires Valid()
      reads this, tasks
    {
      if halted then Halted else Up(Abs())
    }

    /** `kernel_start`, up to system call 0. */
    constructor (init: word, a: word, b: word, c: word, initial: IntRegs)
      ensures Valid() && fresh(tasks)
      ensures Now() == Up(SignalRuns.BootState(init, a, b, c, initial))
    {
      tasks := new Task[TASKS_CAP](_ => EmptySlot());
      currentTask, regs, tasking, halted, errno := 0, initial, false, false, ENO;
      new;
      hide Scheduler.MakeTask, FreeSlot;
      for slot := 0 to TASKS_CAP
        invariant Valid() && !tasking && !halted && currentTask == 0 && regs == initial
        invariant forall i :: 0 <= i < TASKS_CAP ==> tasks[i] == EmptySlot()
      {
        tasks[slot] := tasks[slot].(status := Dead);
      }
      regs := regs.(eax := 0);
      assert tasks[..] == seq(TASKS_CAP, _ => EmptySlot());
      MakeBootTasks(init, a, b, c);
    }

    /** The five calls of `sched_make_task` at boot, init first. */
    method MakeBootTasks(init: word, a: word, b: word, c: word)
      requires Valid() && !halted
      requires Abs() == State(seq(TASKS_CAP, _ => EmptySlot()), 0, regs.(eax := 0), false)
      modifies this`currentTask, this`errno, tasks
      ensures Valid() && Now() == Up(SignalRuns.BootState(init, a, b, c, old(regs)))
    {
      hide Scheduler.MakeTask, FreeSlot;
      var _ := MakeTask(Program(init, 0, 0, 0, 0x08, 0x10, true));
      var _ := MakeTask(Program(a, 0, 0, 0, 0x08, 0x10, false));
      var _ := MakeTask(Program(b, 1, 0, 0, 0x08, 0x10, false));
      var _ := MakeTask(Program(a, 2, 0, 0, 0x08, 0x10, false));
      var _ := MakeTask(Program(c, 3, 0, 0, 0x08, 0x10, false));
      currentTask := 0;
    }

    /** `sched_make_task`. */
    method MakeTask(p: Program) returns (slot: nat)
      requires Valid() && !halted
      modifies tasks, this`errno
      ensures Valid() && Abs() == Scheduler.MakeTask(old(Abs()), p)
      ensures var f := FreeSlot(old(Abs().tasks), 0);
              if f < TASKS_CAP then slot == f && errno == old(errno) else slot == 0 && errno == ENOBUFS
    {
      for pid := 0 to TASKS_CAP
        invariant Valid() && Abs() == old(Abs()) && errno == old(errno)
        invariant FreeSlot(Abs().tasks, 0) == FreeSlot(Abs().tasks, pid)
      {
        if tasks[pid].status == Dead {
          tasks[pid] := EmptySlot();
          var esp: word := TASKS_STACK_START + TASK_STACK_CAP * pid;
          tasks[pid] := tasks[pid].(regs := tasks[pid].regs.(
            eip := p.eip, eflags := 0x206, fs := p.fs, gs := p.gs, cs := p.cs,
            ds := p.segment, es := p.segment, ss := p.segment, esp := esp));
          tasks[pid] := tasks[pid].(regs := tasks[pid].regs.(ebp := tasks[pid].regs.esp));
          tasks[pid] := tasks[pid].(status := New, tty := p.tty, yieldOnly := p.yieldOnly);
          tasks[pid] := tasks[pid].(uid := 0, gid := 0);
          return pid;
        }
      }
      errno := ENOBUFS;
      slot := 0;
    }

    /** One turn of the loop of `__flush_signals`. */
    method TakeSignal(slot: nat)
      requires tasks.Length == TASKS_CAP && !halted && slot < TASKS_CAP
      requires RingOk(tasks[slot]) && tasks[slot].sigSize > 0
      modifies tasks, this`halted
      ensures var t: Slot := old(tasks[slot]);
              && (halted <==> currentTask == 0 && Fatal(t.signals[t.readHead]))
              && (!halted ==> tasks[slot] == Heeded(t))
      ensures forall i :: 0 <= i < TASKS_CAP && i != slot ==> tasks[i] == old(tasks[i])
    {
      ghost var t: Slot := tasks[slot];
      assert (t.readHead + 1) % TASK_SIG_CAP == Rings.Index(TASK_SIG_CAP, t.readHead, 1);
      tasks[slot] := tasks[slot].(sigSize := tasks[slot].sigSize - 1);
      match ActionOf(tasks[slot].signals[tasks[slot].readHead]) {
        case Die =>
          if currentTask == 0 {
            halted := true;
            return;
          }
          tasks[slot] := tasks[slot].(status := Dead);
        case Continue => tasks[slot] := tasks[slot].(paused := false);
        case Stop => tasks[slot] := tasks[slot].(paused := true);
        case Ignore =>
      }
      tasks[slot] := tasks[slot].(readHead := (tasks[slot].readHead + 1) % TASK_SIG_CAP);
    }

    /** `__flush_signals`: the draining loop on one slot. */
    method FlushSignals(slot: nat)
      requires Valid() && !halted && slot < TASKS_CAP
      modifies tasks, this`halted
      ensures Valid()
      ensures var r := Drain(old(tasks[slot]), currentTask);
              && (halted <==> r.Panic?)
              && (!halted ==> tasks[..] == old(tasks[..])[slot := r.task])
    {
      while tasks[slot].sigSize > 0 && tasks[slot].status != Dead
        invariant !halted && RingOk(tasks[slot])
        invariant Drain(tasks[slot], currentTask) == Drain(old(tasks[slot]), currentTask)
        invariant forall i :: 0 <= i < TASKS_CAP && i != slot ==> tasks[i] == old(tasks[i])
        decreases tasks[slot].sigSize
      {
        TakeSignal(slot);
        if halted { return; }
      }
      assert tasks[..] == old(tasks[..])[slot := tasks[slot]];
    }

    /** The arm of `sched_next_task` for a paused task: its frame is copied out and back. */
    method DrainSkipped(slot: nat)
      requires Valid() && !halted && slot < TASKS_CAP
      modifies this`halted, tasks
      ensures Valid()
      ensures var r := Drain(old(tasks[slot]), currentTask);
              && (halted <==> r.Panic?)
              && (!halted ==> tasks[..] == old(tasks[..])[slot := r.task])
    {
      var vregs := Restore(tasks[slot].regs);
      FlushSignals(slot);
      if halted { return; }
      SchedulerRuns.DrainKeepsFrame(old(tasks[slot]), currentTask);
      SaveRestore(old(tasks[slot]).regs);
      tasks[slot] := tasks[slot].(regs := Save(vregs));
    }

    /** The loop of `sched_next_task` over the slots. */
    method ChooseNext()
      requires Valid() && !halted
      modifies this`currentTask, this`regs, this`halted, tasks
      ensures Valid()
      ensures Now() == Restored(old(Abs()), Scan(old(Abs()).tasks, old(currentTask), TASKS_CAP))
    {
      hide Drain, Scan;
      ghost var first: Table, cur := tasks[..], currentTask;
      for try := 0 to TASKS_CAP
        invariant Valid() && !halted && regs == old(regs)
        invariant Scan(tasks[..], currentTask, TASKS_CAP - try) == Scan(first, cur, TASKS_CAP)
      {
        ghost var now: Table := tasks[..];
        ScanTurn(now, currentTask, TASKS_CAP - try);
        currentTask := (currentTask + 1) % TASKS_CAP;
        assert now[currentTask] == tasks[currentTask];
        if tasks[currentTask].status != Dead && !tasks[currentTask].paused {
          regs := Restore(tasks[currentTask].regs);
          return;
        }
        if tasks[currentTask].status != Dead {
          DrainSkipped(currentTask);
          if halted { return; }
          assert tasks[..] == now[currentTask := Drain(now[currentTask], currentTask).task];
        }
      }
      ScanEnds(tasks[..], currentTask);
      halted := true;
    }

    /** `sched_next_task`. */
    method NextTask()
      requires Valid() && !halted
      modifies this`currentTask, this`regs, this`halted, tasks
      ensures Valid() && Now() == Scheduler.NextTask(old(Abs()))
    {
      hide Drain, Scan;
      ghost var s := Abs();
      ghost var saved := WithFrame(s.tasks[s.cur], Save(regs));
      tasks[currentTask] := tasks[currentTask].(regs := Save(regs));
      assert tasks[currentTask] == saved;
      FlushSignals(currentTask);
      if halted { return; }
      assert tasks[..] == s.tasks[s.cur := Drain(saved, s.cur).task];
      ChooseNext();
    }

    /** `sched_start_tasking`. */
    method StartTasking()
      requires Valid() && !halted
      modifies this`currentTask, this`regs, this`halted
      ensures Valid()
      ensures Now() == if Live(old(tasks[0])) then
                         Up(old(Abs()).(cur := 0, regs := Restore(old(tasks[0]).regs)))
                       else Halted
    {
      currentTask := 0;
      if tasks[currentTask].status != Dead {
        regs := Restore(tasks[currentTask].regs);
      } else {
        halted := true;
      }
    }

    /** `sched_kill_task`. */
    method KillTask(slot: nat, sig: byte)
      requires Valid() && !halted && slot < TASKS_CAP
      modifies tasks
      ensures Valid() && Abs() == Scheduler.KillTask(old(Abs()), slot, sig)
    {
      if tasks[slot].sigSize >= TASK_SIG_CAP - 1 {
        assert tasks[..] == old(tasks[..])[slot := tasks[slot]];
        return;
      }
      tasks[slot] := tasks[slot].(sigSize := tasks[slot].sigSize + 1);
      tasks[slot] := tasks[slot].(signals := tasks[slot].signals[tasks[slot].writeHead := sig]);
      tasks[slot] := tasks[slot].(writeHead := (tasks[slot].writeHead + 1) % TASK_SIG_CAP);
      assert tasks[slot] == Post(old(tasks[slot]), sig);
    }

    /** `x86_error_trap`; the loop it enters before tasking has started never ends. */
    method ErrorTrap(sig: byte)
      requires Valid() && !halted
      modifies this`currentTask, this`regs, this`halted, tasks
      ensures Valid() && Now() == Scheduler.ErrorTrap(old(Abs()), sig)
    {
      if tasking {
        KillTask(currentTask, sig);
        NextTask();
      } else {
        halted := true;
      }
    }

    /** `int_timer_impl`. */
    method Timer()
      requires Valid() && !halted
      modifies this`currentTask, this`regs, this`halted, tasks
      ensures Valid() && Now() == Scheduler.Timer(old(Abs()))
    {
      if tasking && !tasks[currentTask].yieldOnly {
        NextTask();
      }
    }

    /** `syscall_handler_impl`. */
    method Syscall(io: word)
      requires Valid() && !halted
      modifies this`currentTask, this`regs, this`tasking, this`halted, tasks
      ensures Valid() && Now() == Scheduler.Syscall(old(Abs()), io)
    {
      match regs.eax {
        case 0 =>
          if !tasking {
            tasking := true;
            StartTasking();
          } else {
            KillTask(currentTask, SIGSYS);
            NextTask();
          }
        case 1 =>
          if currentTask == 0 { halted := true; return; }
          tasks[currentTask] := tasks[currentTask].(status := Dead);
          assert Abs() == UpdateCurrent(old(Abs()), WithStatus(old(tasks[currentTask]), Dead));
          NextTask();
        case 2 => regs := regs.(eax := io);
        case 3 => regs := regs.(eax := io);
        case 4 => NextTask();
        case 5 => regs := regs.(eax := 69420);
        case 6 =>
        case 7 => SetId(true);
        case 8 => SetId(false);
        case 9 => regs := regs.(eax := tasks[currentTask].uid);
        case 10 => regs := regs.(eax := tasks[currentTask].gid);
        case 11 => regs := regs.(eax := currentTask + 1);
        case 12 => KillCall();
        case _ => halted := true;
      }
    }

    /** System calls 7 (user) and 8 (group): only user 0 may change an identity. */
    method SetId(user: bool)
      requires Valid() && !halted && regs.eax == (if user then 7 else 8)
      modifies this`regs, tasks
      ensures Valid() && Now() == Scheduler.Syscall(old(Abs()), 0)
    {
      if tasks[currentTask].uid == 0 {
        tasks[currentTask] := if user then tasks[currentTask].(uid := regs.ebx)
                              else tasks[currentTask].(gid := regs.ebx);
        regs := regs.(eax := 0);
      } else {
        regs := regs.(eax := MINUS_ONE);
      }
    }

    /** System call 12. */
    method KillCall()
      requires Valid() && !halted
      modifies this`regs, tasks
      ensures Valid() && Abs() == Scheduler.KillCall(old(Abs()))
    {
      var target := Wrap(regs.ebx - 1);
      if target >= TASKS_CAP { regs := regs.(eax := MINUS_ONE); return; }
      if tasks[target].status == Dead { regs := regs.(eax := MINUS_ONE); return; }
      if regs.ecx >= SIG_COUNT { regs := regs.(eax := MINUS_ONE); return; }
      if regs.ecx == 0 { regs := regs.(eax := 0); return; }
      if tasks[currentTask].uid == 0 || tasks[currentTask].uid == tasks[target].uid {
        KillTask(target, regs.ecx);
      } else {
        regs := regs.(eax := MINUS_ONE);
      }
    }
  }
}
