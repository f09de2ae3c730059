/** Task slots, their 64-entry signal rings, and the draining of pending signals. */
module Signals {
  import opened Words
  import opened Frames
  import Rings

  const TASK_SIG_CAP := 64

  const SIGCONT: byte := 5
  const SIGFPE: byte := 6
  const SIGILL: byte := 8
  const SIGSEGV: byte := 13
  const SIGSTOP: byte := 14
  const SIGSYS: byte := 23
  const SIGTRAP: byte := 24
  const SIG_COUNT := 29

  datatype Status = Dead | New | Active

  datatype Task = Task(
    regs: TaskRegs, status: Status, tty: word,
    signals: seq<byte>, writeHead: nat, readHead: nat, sigSize: nat,
    paused: bool, yieldOnly: bool, uid: word, gid: word)

  function ZeroRing(): (z: seq<byte>)
    ensures |z| == TASK_SIG_CAP
  {
    seq(TASK_SIG_CAP, _ => 0)
  }

  /** A slot after `memset` to zero; status 0 is `TASK_DEAD`. */
  function EmptySlot(): Task {
    Task(ZERO_REGS, Dead, 0, ZeroRing(), 0, 0, 0, false, false, 0, 0)
  }

  predicate Live(t: Task) {
    t.status != Dead
  }

  predicate Runnable(t: Task) {
    Live(t) && !t.paused
  }

  datatype Action = Die | Continue | Stop | Ignore

  /** The arm of the switch in `__flush_signals`: every known signal but STOP and CONT is fatal. */
  function ActionOf(sig: byte): Action {
    if sig == SIGCONT then Continue
    else if sig == SIGSTOP then Stop
    else if 1 <= sig < SIG_COUNT then Die
    else Ignore
  }

  predicate Fatal(sig: byte) {
    ActionOf(sig) == Die
  }

  /** What every ring keeps: 63 entries at most, and head + size = tail modulo 64. */
  predicate RingOk(t: Task) {
    && |t.signals| == TASK_SIG_CAP
    && t.readHead < TASK_SIG_CAP
    && t.writeHead < TASK_SIG_CAP
    && t.sigSize < TASK_SIG_CAP
    && t.writeHead == Rings.Index(TASK_SIG_CAP, t.readHead, t.sigSize)
  }

  /** A task slot, whose ring every operation below must keep in order. */
  type Slot = t: Task | RingOk(t) witness EmptySlot()

  /** The queue a slot's ring stands for. */
  ghost function Pending(t: Slot): seq<byte> {
    Rings.View(t.signals, t.readHead, t.sigSize)
  }

  function WithFrame(t: Slot, r: TaskRegs): Slot {
    t.(regs := r)
  }

  function WithStatus(t: Slot, status: Status): Slot {
    t.(status := status)
  }

  /** `sched_kill_task` on one slot: the write of a signal into the ring. */
  function Post(t: Slot, sig: byte): Slot {
    if t.sigSize >= TASK_SIG_CAP - 1 then t
    else t.(sigSize := t.sigSize + 1,
            signals := t.signals[t.writeHead := sig],
            writeHead := Rings.Index(TASK_SIG_CAP, t.writeHead, 1))
  }

  /** The ring is a FIFO of capacity 63: posting appends, or drops the signal when 63 are pending. */
  lemma PostIsEnqueue(t: Slot, sig: byte)
    ensures var u := Post(t, sig);
            && Pending(u) == (if |Pending(t)| == 63 then Pending(t) else Pending(t) + [sig])
            && u.(signals := t.signals, writeHead := t.writeHead, sigSize := t.sigSize) == t
  {
    if t.sigSize < 63 {
      Rings.Push(t.signals, t.readHead, t.sigSize, sig);
    }
  }

  /** One turn of the draining loop takes the oldest signal off the ring. */
  function Pop(t: Slot): Slot
    requires t.sigSize > 0
  {
    t.(sigSize := t.sigSize - 1, readHead := Rings.Index(TASK_SIG_CAP, t.readHead, 1))
  }

  lemma PopIsDequeue(t: Slot)
    requires t.sigSize > 0
    ensures Pending(t) == [t.signals[t.readHead]] + Pending(Pop(t))
  {
    Rings.Pop(t.signals, t.readHead, t.sigSize);
  }

  /** What draining does: the kernel panics, or the slot is left as `task`. */
  datatype Drained = Panic | Kept(task: Slot)

  /** The slot the draining loop goes on with after its oldest signal. */
  function Heeded(t: Slot): Slot
    requires t.sigSize > 0
  {
    match ActionOf(t.signals[t.readHead])
    case Die => Pop(t).(status := Dead)
    case Continue => Pop(t).(paused := false)
    case Stop => Pop(t).(paused := true)
    case Ignore => Pop(t)
  }

  /** `__flush_signals` on the slot numbered cur. A fatal signal to init (slot 0) panics. */
  function Drain(t: Slot, cur: nat): Drained
    decreases t.sigSize
  {
    if t.sigSize == 0 || t.status == Dead then Kept(t)
    else if cur == 0 && Fatal(t.signals[t.readHead]) then Panic
    else Drain(Heeded(t), cur)
  }

  /** The position of the first fatal signal of a queue, or its length when there is none. */
  function FirstFatal(q: seq<byte>): (k: nat)
    ensures k <= |q|
    ensures forall i :: 0 <= i < k ==> !Fatal(q[i])
    ensures k < |q| ==> Fatal(q[k])
  {
    if q == [] || Fatal(q[0]) then 0 else 1 + FirstFatal(q[1..])
  }

  /** The paused flag after a queue: decided by its last STOP or CONT, or left as it was. */
  function PausedAfter(q: seq<byte>, paused: bool): bool {
    if q == [] then paused
    else
      match ActionOf(q[|q| - 1])
      case Continue => false
      case Stop => true
      case _ => PausedAfter(q[..|q| - 1], paused)
  }

  lemma {:induction false} PausedAfterCons(sig: byte, q: seq<byte>, paused: bool)
    ensures PausedAfter([sig] + q, paused) == PausedAfter(q, PausedAfter([sig], paused))
    decreases |q|
  {
    var all := [sig] + q;
    assert [sig][..0] == [];
    if q == [] {
      assert all == [sig];
    } else {
      assert all[|all| - 1] == q[|q| - 1];
      assert all[..|all| - 1] == [sig] + q[..|q| - 1];
      PausedAfterCons(sig, q[..|q| - 1], paused);
    }
  }

  /** What a drain of a queue leaves: the rest of it, whether the task died, the paused flag. */
  datatype Fold = Fold(rest: seq<byte>, died: bool, paused: bool)

  /** Take the signals up to and including the first fatal one, and leave the others in order. */
  function FoldOf(q: seq<byte>, paused: bool): Fold {
    var k := FirstFatal(q);
    Fold(q[if k < |q| then k + 1 else k..], k < |q|, PausedAfter(q[..k], paused))
  }

  lemma FoldCons(sig: byte, q: seq<byte>, paused: bool)
    requires !Fatal(sig)
    ensures FoldOf([sig] + q, paused) == FoldOf(q, PausedAfter([sig], paused))
  {
    var k := FirstFatal(q);
    assert ([sig] + q)[1..] == q;
    assert ([sig] + q)[..k + 1] == [sig] + q[..k];
    PausedAfterCons(sig, q[..k], paused);
  }

  /** Nothing of a slot but its ring, status and paused flag is touched by draining it. */
  ghost predicate SameProcess(t: Slot, u: Slot) {
    && u.regs == t.regs && u.tty == t.tty && u.yieldOnly == t.yieldOnly
    && u.uid == t.uid && u.gid == t.gid && u.signals == t.signals
  }

  /** Draining is a fold over the queue: it takes the signals up to and including the first fatal
      one, leaves the others in order, kills exactly if a fatal one is pending, and pauses as the
      last STOP or CONT taken says. */
  lemma {:induction false} DrainIsFold(t: Slot, cur: nat)
    requires Live(t)
    ensures var f := FoldOf(Pending(t), t.paused); var r := Drain(t, cur);
            && (r.Panic? <==> cur == 0 && f.died)
            && (r.Kept? ==>
                  && SameProcess(t, r.task)
                  && Pending(r.task) == f.rest
                  && r.task.status == (if f.died then Dead else t.status)
                  && r.task.paused == f.paused)
    decreases t.sigSize
  {
    if t.sigSize == 0 {
      assert Pending(t) == [];
    } else {
      var sig, u := t.signals[t.readHead], Heeded(t);
      PopIsDequeue(t);
      assert Pending(u) == Pending(Pop(t));
      if Fatal(sig) {
        assert Pending(t)[..0] == [];
      } else {
        DrainIsFold(u, cur);
        FoldCons(sig, Pending(u), t.paused);
        assert [sig][..0] == [];
      }
    }
  }

  // ---- In signal numbers ----

  /** A signal that kills: every known one but 5, SIGCONT, and 14, SIGSTOP. */
  predicate Deadly(sig: byte) {
    1 <= sig <= 28 && sig != 5 && sig != 14
  }

  /** Some pending signal kills. */
  predicate AnyDeadly(q: seq<byte>) {
    exists i :: 0 <= i < |q| && Deadly(q[i])
  }

  /** The last signal among 5 and 14 is sig. */
  predicate LastIs(q: seq<byte>, sig: byte) {
    exists i :: 0 <= i < |q| && q[i] == sig && forall j :: i < j < |q| ==> q[j] != 5 && q[j] != 14
  }

  lemma {:induction false} PausedIsLast(q: seq<byte>, paused: bool)
    ensures PausedAfter(q, paused) <==> LastIs(q, 14) || (paused && !LastIs(q, 5))
    decreases |q|
  {
    if q != [] {
      var last, init := q[|q| - 1], q[..|q| - 1];
      if last == 5 || last == 14 {
        assert LastIs(q, last);
      } else {
        PausedIsLast(init, paused);
        LastInit(q, 5);
        LastInit(q, 14);
      }
    }
  }

  lemma LastInit(q: seq<byte>, sig: byte)
    requires q != [] && q[|q| - 1] != 5 && q[|q| - 1] != 14 && (sig == 5 || sig == 14)
    ensures LastIs(q, sig) <==> LastIs(q[..|q| - 1], sig)
  {
    var init := q[..|q| - 1];
    if LastIs(init, sig) {
      var i :| 0 <= i < |init| && init[i] == sig && forall j :: i < j < |init| ==> init[j] != 5 && init[j] != 14;
      assert q[i] == sig && forall j :: i < j < |q| ==> q[j] != 5 && q[j] != 14;
    }
    if LastIs(q, sig) {
      var i :| 0 <= i < |q| && q[i] == sig && forall j :: i < j < |q| ==> q[j] != 5 && q[j] != 14;
      assert init[i] == sig && forall j :: i < j < |init| ==> init[j] == q[j];
    }
  }

  lemma DiesOfDeadly(q: seq<byte>, paused: bool)
    ensures FoldOf(q, paused).died <==> AnyDeadly(q)
    ensures !AnyDeadly(q) ==> FoldOf(q, paused).rest == [] && FoldOf(q, paused).paused == PausedAfter(q, paused)
  {
    var k := FirstFatal(q);
    assert forall b: byte :: Fatal(b) <==> Deadly(b);
    if k < |q| {
      assert Deadly(q[k]);
    } else {
      assert q[..k] == q;
    }
  }

  /** Draining in signal numbers: a live task dies (in slot 0, the kernel panics) if and only if some
      pending signal is in 1 to 28 and neither 5 nor 14. Otherwise its queue is used up, and it is paused
      if and only if the last signal among 5 and 14 is 14, or there is none and it was paused. */
  lemma DrainByNumber(t: Slot, cur: nat)
    requires Live(t)
    ensures var q := Pending(t); var r := Drain(t, cur);
            && (r.Panic? <==> cur == 0 && AnyDeadly(q))
            && (r.Kept? ==> (r.task.status == Dead <==> AnyDeadly(q)))
            && (r.Kept? && !AnyDeadly(q) ==>
                  && Pending(r.task) == []
                  && (r.task.paused <==> LastIs(q, 14) || (t.paused && !LastIs(q, 5))))
  {
    DrainIsFold(t, cur);
    DiesOfDeadly(Pending(t), t.paused);
    PausedIsLast(Pending(t), t.paused);
    hide Drain, FoldOf, PausedAfter, LastIs, AnyDeadly;
  }
}
