/** The scheduler, system calls and traps of the kernel as a step machine over values. */
module Scheduler {
  import opened Words
  import opened Frames
  import opened Signals

  const TASKS_CAP := 256
  const TASK_STACK_CAP := 8192
  const TASKS_STACK_START: int := 0x4000_0000

  type pid = x: int | 0 <= x < TASKS_CAP

  type Table = t: seq<Slot> | |t| == TASKS_CAP witness seq(TASKS_CAP, _ => EmptySlot())

  datatype State = State(tasks: Table, cur: pid, regs: IntRegs, tasking: bool)

  /** A kernel is up, or has called `panic` (or spins before tasking), which never returns. */
  datatype Machine = Up(s: State) | Halted

  // ---- Making tasks ----

  /** The first dead slot at or after p; TASKS_CAP when there is none. */
  function FreeSlot(tasks: seq<Slot>, p: nat): (f: nat)
    requires p <= |tasks|
    ensures p <= f <= |tasks|
    ensures forall i :: p <= i < f ==> Live(tasks[i])
    ensures f < |tasks| ==> !Live(tasks[f])
    decreases |tasks| - p
  {
    if p == |tasks| || !Live(tasks[p]) then p else FreeSlot(tasks, p + 1)
  }

  datatype Program = Program(
    eip: word, tty: word, fs: word, gs: word, cs: word, segment: word, yieldOnly: bool)

  /** The slot `sched_make_task` leaves: zeroed, with an initial frame and its own stack. */
  function NewTask(p: Program, slot: pid): Slot {
    var esp := TASKS_STACK_START + TASK_STACK_CAP * slot;
    EmptySlot().(
      regs := ZERO_REGS.(eip := p.eip, eflags := 0x206, fs := p.fs, gs := p.gs, cs := p.cs,
                         ds := p.segment, es := p.segment, ss := p.segment,
                         esp := esp, ebp := esp),
      status := New, tty := p.tty, yieldOnly := p.yieldOnly)
  }

  function MakeTask(s: State, p: Program): State
  {
    var f := FreeSlot(s.tasks, 0);
    if f < TASKS_CAP then s.(tasks := s.tasks[f := NewTask(p, f)]) else s
  }

  // ---- Choosing the next task ----

  /** The outcome of walking the ring of slots. */
  datatype Walk = Stuck | Chose(tasks: Table, slot: pid)

  /** The loop of `sched_next_task` with `tries` turns left: the paused tasks it passes are drained. */
  function Scan(tasks: Table, cur: pid, tries: nat): Walk
    decreases tries
  {
    if tries == 0 then Stuck
    else
      var c: pid := (cur + 1) % TASKS_CAP;
      if Runnable(tasks[c]) then Chose(tasks, c)
      else if Live(tasks[c]) then
        match Drain(tasks[c], c)
        case Panic => Stuck
        case Kept(t) => Scan(tasks[c := t], c, tries - 1)
      else Scan(tasks, c, tries - 1)
  }

  /** The state after a walk: the chosen task's frame is in the CPU; a walk that is stuck panics. */
  function Restored(s: State, w: Walk): Machine {
    match w
    case Stuck => Halted
    case Chose(tasks, c) => Up(s.(tasks := tasks, cur := c, regs := Restore(tasks[c].regs)))
  }

  /** `sched_next_task`: save the frame, drain the current task, walk the slots, restore a frame. */
  function NextTask(s: State): Machine
  {
    var t := WithFrame(s.tasks[s.cur], Save(s.regs));
    match Drain(t, s.cur)
    case Panic => Halted
    case Kept(u) =>
      Restored(s, Scan(s.tasks[s.cur := u], s.cur, TASKS_CAP))
  }

  // ---- The entry points ----

  function KillTask(s: State, target: pid, sig: byte): State
  {
    s.(tasks := s.tasks[target := Post(s.tasks[target], sig)])
  }

  /** The signal of each exception vector; the other vectors panic. */
  datatype Exception =
    | DivideBy0 | Overflow | Bound | InvalidOpcode | NoDevice | CoprocessorOverrun
    | SegmentNotPresent | StackFault | GeneralProtection | PageFault | FpuError | Alignment
    | MachineCheck | Nmi | DoubleFault | InvalidTss | Simd

  function TrapSignal(x: Exception): byte {
    match x
    case DivideBy0 | NoDevice | CoprocessorOverrun | FpuError => SIGFPE
    case InvalidOpcode => SIGILL
    case MachineCheck => SIGTRAP
    case _ => SIGSEGV
  }

  predicate TrapPanics(x: Exception) {
    x.Nmi? || x.DoubleFault? || x.InvalidTss? || x.Simd?
  }

  /** `x86_error_trap`: post the signal to the current task and reschedule; before tasking it spins. */
  function ErrorTrap(s: State, sig: byte): Machine
  {
    if s.tasking then NextTask(KillTask(s, s.cur, sig)) else Halted
  }

  function Timer(s: State): Machine
  {
    if s.tasking && !s.tasks[s.cur].yieldOnly then NextTask(s) else Up(s)
  }

  function StartTasking(s: State): Machine
  {
    if Live(s.tasks[0]) then Up(s.(cur := 0, regs := Restore(s.tasks[0].regs), tasking := true))
    else Halted
  }

  function SetEax(s: State, v: word): State {
    s.(regs := s.regs.(eax := v))
  }

  /** System call 12. A signal that is posted, or dropped by a full ring, leaves EAX alone. */
  function KillCall(s: State): State
  {
    var target := Wrap(s.regs.ebx - 1);
    if target >= TASKS_CAP || !Live(s.tasks[target]) || s.regs.ecx >= SIG_COUNT then
      SetEax(s, MINUS_ONE)
    else if s.regs.ecx == 0 then SetEax(s, 0)
    else if s.tasks[s.cur].uid == 0 || s.tasks[s.cur].uid == s.tasks[target].uid then
      KillTask(s, target, s.regs.ecx)
    else SetEax(s, MINUS_ONE)
  }

  function UpdateCurrent(s: State, t: Slot): State
  {
    s.(tasks := s.tasks[s.cur := t])
  }

  /** `syscall_handler_impl`, switching on EAX. io is what a tty call (2, 3) returns. */
  function Syscall(s: State, io: word): Machine
  {
    var t := s.tasks[s.cur];
    match s.regs.eax
    case 0 => if !s.tasking then StartTasking(s) else NextTask(KillTask(s, s.cur, SIGSYS))
    case 1 => if s.cur == 0 then Halted else NextTask(UpdateCurrent(s, WithStatus(t, Dead)))
    case 2 => Up(SetEax(s, io))
    case 3 => Up(SetEax(s, io))
    case 4 => NextTask(s)
    case 5 => Up(SetEax(s, 69420))
    case 6 => Up(s)
    case 7 => Up(if t.uid == 0 then SetEax(UpdateCurrent(s, t.(uid := s.regs.ebx)), 0) else SetEax(s, MINUS_ONE))
    case 8 => Up(if t.uid == 0 then SetEax(UpdateCurrent(s, t.(gid := s.regs.ebx)), 0) else SetEax(s, MINUS_ONE))
    case 9 => Up(SetEax(s, t.uid))
    case 10 => Up(SetEax(s, t.gid))
    case 11 => Up(SetEax(s, s.cur + 1))
    case 12 => Up(KillCall(s))
    case _ => Halted
  }

  // ---- Runs ----

  /** What can happen next. Run is the current task computing: it may set its registers at will. */
  datatype Step =
    | Tick
    | Call(io: word)
    | Trap(exception: Exception)
    | Spawn(program: Program)
    | Run(regs: IntRegs)

  function StepUp(s: State, e: Step): Machine
  {
    match e
    case Tick => Timer(s)
    case Call(io) => Syscall(s, io)
    case Trap(x) => if TrapPanics(x) then Halted else ErrorTrap(s, TrapSignal(x))
    case Spawn(p) => Up(MakeTask(s, p))
    case Run(r) => Up(s.(regs := r))
  }
}
