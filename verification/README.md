# Klyx kernel verification

Klyx is a small 32-bit x86 kernel. This project models its four cores in Dafny and proves properties of
them. Every algorithm appears twice: as a function over values, about which the lemmas are proved, and as
imperative code of the same shape as the source (classes, arrays, loops), which is proved to compute that
function. `long`, `size_t` and `word_t` are 32 bits wide and wrap around; `char` is signed.

Run `dafny verify dfyconfig.toml` in this directory to check everything.

## What is modelled

1. **Scheduler, signals and traps.** `Signals`, `Scheduler`, `SchedulerRuns`, `SignalRuns`, `SyscallLaws`,
   `KernelCode`, `Mutex`, `MutexLimits`. The state is 256 task slots, the current slot, the CPU frame and the tasking flag;
   the steps are timer ticks, system calls, faults, task creation and the current task computing. A call of
   `panic` is an absorbing state without content; so is the endless loop a fault enters before tasking starts. Proved over
   all runs: init is live and the current task runnable, bounded waiting, the exact condition under which the
   scan of the slots fails, resumption by SIGCONT, private register frames, conservation of signals, the exact
   outcome of a fault, what every system call answers, and mutual exclusion, exactly: two contenders are kept apart if and only if both are
   yield-only and neither is init.
2. **Consoles and keyboard.** `Memory`, `Console`, `ConsoleText`, `ConsoleCode`, `Keyboard`, `KeyboardLaws`,
   `KeyboardCode`. The screen is
   byte memory scrolled by the overlapping ascending `memcpy`. Proved: the screen is the last 25 rows of
   endless paper, with the exact condition under which one character keeps it so; the reversed console is the
   mirror image; the hardware screen equals the shadow of the displayed tty in every run; and scan codes reach
   the line editor in order, none lost but those that find 1023 pending. What is written can be read in the bytes of
   the screen, a line that is typed is read, and what is shown of a line while it is edited is what is read.
3. **Integer printf and the hex reader.** `Printf`, `PrintfParse`, `PrintfRuns`, `PrintfLaws`, `PrintfLayout`,
   `PrintfHash`, `PrintfTexts`, `PrintfCode`.
   Proved: a conversion specification means what it says (written out and parsed, it comes back); `snprintf` is
   unbounded printing cut to the buffer; each conversion of a format prints its own argument; an integer without `-` and `#` is laid out as section 7.21.6.1 of ISO
   C11 says if and only if it fits the 32-byte conversion buffer, for every width and precision; the exact
   conditions for the `-` flag, and for the `#` flag of hexadecimal and octal numbers; and that `__read_hex` reads back what is printed.
4. **Smaller pieces.** `Crypt`, `CryptCode`: the `enc` password comparison, correct for all passwords of up
   to 511 bytes without 0xFF, and an if-and-only-if for the byte 0xFF after any uses of the command. `Calendar`:
   `mktime` against a day count by years and months, with the exact dates on which it is a day early. `Emulator`,
   `EmulatorLaws`, `EmulatorStack`, `EmulatorCode`: the instruction emulator over both frame layouts, their agreement, and the stack law.

`Words`, `Frames`, `Rings` and `Seqs` hold the machine integers, the two register layouts, the ring buffer that
the signal queues and the scan code queues share, and facts about sequences.

## Where the code departs from what it says

The model follows the code in all of these.

- Every signal from 1 to 28 but SIGSTOP and SIGCONT is fatal, SIGCHLD included (kernel/sched.c:88-191).
- The conversion buffer of printf has 32 places: where it is full, the sign is lost and zeros are cut
  (`PrintfLayout.IntegerLayoutExactly`). The `-` flag drops the precision (`PrintfLayout.LeftJustifiedExactly`). The
  `#` flag overwrites digits when they end exactly where the field does (`PrintfHash.HashExactly`), and gives an
  octal number a zero too many when its precision has already brought one (`PrintfHash.HashPrecisionExactly`).
- `strcpy` writes no NUL (include/string.h:67-75); the password comparison is right all the same
  (`Crypt.PasswordsCompared`).
- `mktime` is called with a `tm_yday` that counts from 1 and a month table of leap years. It subtracts two days
  for every date, which is right only from March to December of years that are not leap years
  (`Calendar.MktimeExactly`). `time_t` is commented as always 64 bits wide and is 32 bits wide
  (include/stddef.h:29).
- The operand fields of the emulator are a union, so its scaled operands use the register number as factor and
  displacement and read the same register twice, against the comment above the union
  (include/klyx/i386_emulator.h:98-123). Its 8-bit register writes take the wrong byte of the value
  (`Emulator.ReadBack`, `EmulatorLaws.PartsWritten`).
- The keys marked `NP -` and `NP +` in the table of special keys type 4 and 2, because the table of characters leaves
  them no place (kernel/console.c:50 and 129-133, `KeyboardLaws.OtherKeys`).
- `\b` in the first cell of the screen wraps the 16-bit cursor, which scrolls the screen
  (`Console.PaperStep`). A character above 127 is sign-extended over the attribute byte.

## Model

| member | source | states |
|---|---|---|
| Frames.Save | kernel/sched.c:194-234 | the copy of an interrupt frame into a task slot loses nothing: the copy back restores all 16 registers |
| Frames.SaveRestore | kernel/sched.c:238-271 | copying a slot's frame out and back in is the identity |
| Frames.SameNames | kernel/sched.c:194-271 | every register keeps its own name in both copies |
| Rings.Push | kernel/sched.c:301-307 | a write at the tail of a ring with room appends to the queue it stands for |
| Rings.Pop | kernel/sched.c:88-91 | advancing the head of a ring removes the oldest entry of the queue |
| Signals.FirstFatal | kernel/sched.c:88-191 | the position of the first fatal signal of a queue, all before it being harmless |
| Signals.PostIsEnqueue | kernel/sched.c:301-307 | posting a signal appends to a FIFO of capacity 63, or drops it when 63 are pending, and touches nothing else |
| Signals.PopIsDequeue | kernel/sched.c:88-91 | each turn of the draining loop takes the oldest signal |
| Signals.FoldCons | kernel/sched.c:88-191 | draining a queue whose first signal is not fatal is draining the rest with the paused flag that signal leaves |
| Signals.DrainIsFold | kernel/sched.c:88-191 | draining takes the signals up to and including the first fatal one, leaves the rest in order, dies iff there was one (panics iff in slot 0), and pauses as the last STOP or CONT taken says |
| Signals.PausedIsLast | kernel/sched.c:88-191 | the paused flag after a queue without a fatal signal: the last signal among 5 and 14 is 14, or there is none and it was set before |
| Signals.DrainByNumber | kernel/sched.c:88-191 | in signal numbers: a live task dies (in slot 0, the kernel panics) iff a pending signal is in 1 to 28 and neither 5 nor 14; otherwise the queue is used up, and the task is paused iff the last signal among 5 and 14 is 14, or there is none and it was paused |
| Scheduler.FreeSlot | kernel/sched.c:55-84 | the first dead slot: all slots before it are live |
| SchedulerRuns.ScanWalks | kernel/sched.c:215-274 | the scan chooses the first runnable slot after the current one and drains exactly the paused ones before it |
| SchedulerRuns.ScanStuck | kernel/sched.c:215-274 | the scan fails iff every runnable slot is out of its reach or lies behind a paused init with a fatal signal pending |
| SchedulerRuns.NextTaskPanics | kernel/sched.c:193-275 | the exact condition under which the scheduler panics |
| SchedulerRuns.NextTaskShape | kernel/sched.c:193-275 | a scheduler call that returns: the chosen slot is runnable, its frame is in the CPU, and every other slot is as drained or as it was |
| SchedulerRuns.RescheduleShape | kernel/traps.c:47-64 | every step that reschedules is one scheduler call on a state that differs only in the current slot |
| SchedulerRuns.QuietShape | kernel/traps.c:260-362 | a step that does not reschedule changes no slot's status, paused flag, frame or scheduling mode, except that of a new task in a dead slot |
| SchedulerRuns.RescheduledSlots | kernel/sched.c:193-275 | slot by slot, what a rescheduling step leaves |
| SchedulerRuns.MakeTaskFresh | kernel/sched.c:55-84 | the first dead slot becomes a runnable task of user 0 with nothing pending; live tasks are untouched; with no dead slot nothing changes |
| SchedulerRuns.StacksApart | kernel/sched.c:55-84 | the stacks given to two slots never overlap |
| SchedulerRuns.NextTaskInv | kernel/sched.c:193-275 | a scheduler call keeps init live and leaves a runnable current task |
| SchedulerRuns.InvStep | kernel/traps.c:47-64 | every step keeps init live and the current task live and unpaused |
| SchedulerRuns.InvRun | kernel/sched.c:178-181 | in every state a run reaches without halting, init is live and the current task is live and unpaused |
| SchedulerRuns.WaitStep | kernel/sched.c:193-275 | each scheduler call brings the current slot strictly nearer to a waiting task, which stays live and unpaused |
| SchedulerRuns.BoundedWaiting | kernel/sched.c:193-275 | a live, unpaused task stays so while it waits, and is chosen within 255 scheduler calls unless the kernel halts |
| SchedulerRuns.PausedStep | kernel/sched.c:215-274 | a paused task is unpaused by the scan that drains it if its queue then wakes it, and otherwise comes nearer |
| SchedulerRuns.ContinueResumes | kernel/sched.c:88-191 | a paused task whose queue, when next drained, has no fatal signal and whose last signal among 5 and 14 is 5 is unpaused within 255 scheduler calls and chosen within 255 more, unless the kernel halts |
| SchedulerRuns.DrainKeepsFrame | kernel/sched.c:237-272 | draining a slot leaves its saved frame alone |
| SchedulerRuns.RescheduleKeepsContexts | kernel/sched.c:193-275 | a rescheduling step changes no task's registers, in the CPU or in its slot |
| SchedulerRuns.ContextsArePrivate | kernel/sched.c:196-271 | over every run, sharing one CPU refines a machine with a private register frame per task |
| SchedulerRuns.ResumedAsLeft | kernel/sched.c:196-271 | a task that is switched out and later resumed finds all 16 registers as it left them |
| SchedulerRuns.OthersKeepContext | kernel/sched.c:196-271 | whatever other tasks do, a task's registers stay the same |
| SignalRuns.StepConserves | kernel/sched.c:88-191 | in one step, pending plus accepted signals are consumed plus wiped plus still pending signals, in order |
| SignalRuns.SignalsConserved | kernel/sched.c:58 | over every run no signal is lost, made up or reordered: accepted = consumed + pending + wiped by slot reuse |
| SignalRuns.TrapOutcome | kernel/traps.c:47-64 | a fault halts the kernel iff init is at fault and its ring has room or holds a fatal signal, or the scan then finds no runnable slot before a doomed init; else it kills the current task iff that task's ring has room or holds a fatal signal |
| SignalRuns.DeadNeverRuns | kernel/sched.c:215-237 | a dead task stays dead and is never current again until its slot is reused |
| SignalRuns.FaultIsFinal | kernel/traps.c:47-64 | a task other than init that faults with fewer than 63 signals pending is dead and never runs again |
| SignalRuns.BootStarts | kernel/main.c:179-192 | the first system call after boot starts init, and the run invariant holds |
| SignalRuns.BootRuns | kernel/main.c:102-195 | from boot on, every state of every run satisfies the run invariant |
| SyscallLaws.KillAnswers | kernel/traps.c:334-347 | system call 12 answers 0 iff the signal is 0 and the task exists and is not dead; -1 iff there is no such task, the signal is 29 or more, or it is above 0 and the caller is neither user 0 nor the target's user; else EAX stays 12 |
| SyscallLaws.KillSends | kernel/traps.c:334-347 | exactly when it leaves 12 in EAX the signal is appended to the target's queue, or dropped at 63 pending; no other slot and nothing else changes |
| SyscallLaws.CallAnswers | kernel/traps.c:260-362 | calls 2 and 3 answer what the tty does, 5 answers 69420, 9, 10 and 11 the user, the group and the task number, 6 changes no register, none changes anything else; numbers from 13 and the exit of init halt |
| SyscallLaws.IdentityCalls | kernel/traps.c:307-324 | user 0 gets the user or group asked for and 0, everyone else -1 and no change |
| SyscallLaws.YieldIsTick | kernel/traps.c:247-251 | a yield is a tick of a preemptible task; a tick of a yield-only task, or before tasking, does nothing |
| SyscallLaws.SecondStart | kernel/traps.c:264-273 | call 0 once tasking has started sends signal 23 to the caller and reschedules |
| SyscallLaws.ExitKills | kernel/traps.c:274-278 | a task other than init that exits is dead afterwards, unless the kernel halts |
| SyscallLaws.FaultByNumber | kernel/main.c:159-176 | by interrupt number: 2, 8, 10 and 19 halt the kernel, 0, 7, 9 and 16 send signal 6, 6 sends 8, 18 sends 24, the others 13; before tasking every one halts |
| SyscallLaws.FirstRun | kernel/sched.c:55-84 | however others run in between, a new task first runs with EFLAGS 0x206, its program's segments and entry, a stack at 0x40000000 + 8192 times its slot, and 0 in the other registers |
| SyscallLaws.BootTable | kernel/main.c:180-184 | boot leaves five live tasks, init alone yield-only, with their entries, ttys 0, 0, 1, 2, 3, flat segments and stacks |
| KernelCode.Kernel.constructor | kernel/main.c:102-195 | boot leaves all slots dead but the five tasks it makes |
| KernelCode.Kernel.MakeBootTasks | kernel/main.c:180-185 | the five tasks of boot, init first and yield-only |
| KernelCode.Kernel.MakeTask | kernel/sched.c:55-84 | the new task takes the first dead slot, or ENOBUFS and slot 0 when there is none |
| KernelCode.Kernel.TakeSignal | kernel/sched.c:88-191 | one turn of the draining loop, with the panic for init |
| KernelCode.Kernel.FlushSignals | kernel/sched.c:88-191 | the loop in place is the drain of the specification and touches only its slot |
| KernelCode.Kernel.DrainSkipped | kernel/sched.c:237-272 | a passed paused task is drained; copying its frame out and back changes nothing |
| KernelCode.Kernel.ChooseNext | kernel/sched.c:215-274 | the loop over the slots is the scan of the specification, or halts |
| KernelCode.Kernel.NextTask | kernel/sched.c:193-275 | saving, draining, scanning and restoring in place is the scheduler step of the specification |
| KernelCode.Kernel.StartTasking | kernel/sched.c:277-300 | init's frame is put in the CPU, or the kernel halts when init is dead |
| KernelCode.Kernel.KillTask | kernel/sched.c:301-307 | the ring writes in place are the post of the specification |
| KernelCode.Kernel.ErrorTrap | kernel/traps.c:47-64 | a fault posts its signal and reschedules |
| KernelCode.Kernel.Timer | kernel/traps.c:247-251 | a tick reschedules iff tasking has started and the task is not yield-only |
| KernelCode.Kernel.Syscall | kernel/traps.c:260-362 | each system call number takes the step of the specification; an unknown one halts |
| KernelCode.Kernel.SetId | kernel/traps.c:307-324 | only user 0 changes an identity |
| KernelCode.Kernel.KillCall | kernel/traps.c:334-347 | the tests of system call 12 in order, and the signal it posts |
| Mutex.KernelStepFrame | kernel/sched.c:193-275 | no kernel step revives a task or changes how it is scheduled |
| Mutex.ActKeeps | include/klyx/mutex.h:23-38 | every disciplined act keeps: past the test a contender is current and the lock free; inside, its slot is in the lock |
| Mutex.LockInvRun | include/klyx/mutex.h:23-38 | that invariant holds over every disciplined run |
| Mutex.MutualExclusion | include/klyx/mutex.h:23-38 | under every interleaving of ticks, yields, exits, kills, faults and slot reuse at most one contender is in its critical section, and its slot is in the lock |
| MutexLimits.ExclusionExactly | include/klyx/mutex.h:23-38 | for two contenders: no fault-free run from an idle lock puts both into their critical sections iff both are yield-only and neither is slot 0 |
| MutexLimits.PreemptionBreaksExclusion | include/klyx/mutex.h:23-38 | one preemptible contender is enough: a tick between its test and its taking of the lock lets both in |
| MutexLimits.InitBreaksExclusion | include/klyx/mutex.h:23-27 | slot 0 cannot hold the lock, so the other contender walks in while init is inside |
| MutexLimits.AllowedIsDisciplined | include/klyx/mutex.h:23-38 | fault-free runs of two yield-only contenders other than init keep the discipline of the lock |
| MutexLimits.Hands | kernel/sched.c:215-274 | without pending signals a scheduler call changes nothing but the current task |
| MutexLimits.RivalsExist | kernel/sched.c:215-274 | for any two slots and modes there is a state in which they alone can run |
| Mutex.LockWord.constructor | kernel/test.c:29 | a lock starts free |
| Mutex.LockWord.Lock | include/klyx/mutex.h:23-27 | a word that is taken is left alone; a contender at the lock comes to be inside, alone, with its slot in the word, and the lock invariant holds again |
| Mutex.LockWord.Unlock | include/klyx/mutex.h:28-32 | a word that names another task is left alone; after a contender inside leaves, the word is 0 and nobody is inside, and the lock invariant holds again |
| Mutex.LockWord.WaitTurn | include/klyx/mutex.h:33-38 | one turn of the wait: a yield-only task yields while the lock is held |
| Memory.CopyMoves | include/string.h:22-38 | the ascending copy moves the old contents when it copies down or the areas are disjoint |
| Memory.CopyRepeats | include/string.h:22-38 | copying up into its own source, it repeats the gap |
| Memory.HarmlessExactly | include/string.h:22-38 | it copies every content faithfully iff it moves down or the areas are disjoint |
| Memory.MoveCells | kernel/console.c:282 | copying whole 16-bit cells as bytes copies the cells |
| Memory.ClearCells | kernel/console.c:283 | clearing whole cells as bytes clears the cells |
| Memory.StoreCell | kernel/console.c:273-277 | a 16-bit store changes that one cell |
| Memory.Memcpy | include/string.h:22-38 | the loop of memcpy is the byte-by-byte ascending copy |
| Memory.Memset | include/string.h:51-65 | the loop of memset fills exactly its area with the value as a byte |
| Console.MirrorStep | kernel/main.c:62-99 | one character keeps the reversed screen the mirror image of the plain one |
| Console.MirrorSimulation | kernel/main.c:62-99 | for every byte string, control characters and the wrapping backspace included, the two consoles keep equal cursors and mirrored screens |
| Console.CursorFollows | kernel/console.c:254-291 | the cursor follows the print position of endless paper iff the character is paper-like |
| Console.AdvanceByRows | kernel/console.c:257-278 | the cursor after a character, in rows and columns: next row, start of the row, next multiple of eight, a row down, back with the wrap to 0xFFFF, or one on |
| Console.PaperStep | kernel/console.c:254-291 | a character keeps the screen equal to the paper in view iff it is neither a backspace at cell 0 nor a vertical tab inside the last row |
| Console.PaperRun | kernel/console.c:254-291 | a text of such characters keeps screen and paper equal |
| Console.ViewIsLast | kernel/console.c:254-291 | without backspaces the rows in view are the last 25 |
| Console.ScreenIsLastRows | kernel/console.c:254-291 | for every text without \v and \b, from blank, screen and cursor are the last 25 rows of endless paper |
| Console.TextLands | kernel/console.c:252-291 | in every run each tty's shadow and cursor are what its own characters alone, in order, make of them |
| Console.ShadowsAgree | kernel/console.c:252-291 | in every run the hardware screen is the shadow of the displayed tty |
| ConsoleText.OneCharacter | kernel/console.c:254-291 | in numbers: a character other than 8 to 11 and 13 is in the low byte of the cell under the cursor, 0x0F above it below 128 and 0xFF from there on; no other cell changes; past the screen every row moves up and the last is blank |
| ConsoleText.TextIsShown | kernel/console.c:273-277 | a text of such characters that fits can be read back from its cells, from the right on a reversed console; no other cell changes, and the cursor is behind it |
| ConsoleText.PaperPrints | kernel/console.c:254-291 | the paper that specifies the screen, in numbers: what is printed, where, and where the print position goes |
| ConsoleCode.ScrollScreen | kernel/console.c:280-288 | copy down by a row and clear the last row is a row shift of that screen and leaves the others alone |
| ConsoleCode.Consoles.constructor | kernel/console.c:240-252 | zeroed memory is four blank consoles that agree with the hardware |
| ConsoleCode.Consoles.Store | kernel/console.c:273-277 | a character cell is written on one screen |
| ConsoleCode.Consoles.Scroll | kernel/console.c:280-288 | the overlapping memcpy and the memset scroll one screen by a row |
| ConsoleCode.Consoles.Type | kernel/console.c:256-279 | the switch on one character: cursor, shadow and, if displayed, hardware |
| ConsoleCode.Consoles.PutChar | kernel/console.c:254-291 | one turn of the loop is one character of the specification on shadow and hardware |
| ConsoleCode.Consoles.Display | kernel/traps.c:374-390 | F1 to F4 copy the chosen shadow to the hardware screen |
| ConsoleCode.Consoles.TextReadsBack | kernel/console.c:254-291 | after a text that fits, byte 2k of its place on the shadow is character k and byte 2k + 1 is 15, or 255 from 128 on; the same on the hardware screen when the tty is displayed |
| ConsoleCode.Consoles.PutStr | kernel/console.c:254-291 | the whole loop is the run of its characters, and returns their number; a text of visible characters that fits can be read in the bytes of the shadow, and of the hardware screen if displayed |
| Keyboard.HandleRemembers | kernel/console.c:223-238 | key table and displayed tty are functions of the history of codes |
| Keyboard.HappenOne | kernel/tty.c:42-83 | one arrival or one turn of a reader, for one tty's queue and reader |
| Keyboard.KeyboardToLine | kernel/tty.c:42-83 | for every stream of codes, tty switches and turns: codes taken are, in order, the ordinary press edges while displayed minus those dropped at 1023 pending; the reader is the edit fold of their characters |
| Keyboard.OrdinaryTextIsKept | kernel/tty.c:74-79 | ordinary text is kept in order, cut at count |
| Keyboard.NewlineEnds | kernel/tty.c:58-64 | nothing after the first newline is read |
| Keyboard.BackspaceUndoes | kernel/tty.c:67-73 | a backspace undoes a character iff it found room (or there is no room at all) |
| KeyboardLaws.DigitKeys | kernel/console.c:24-51 | what each key of the row of digits types |
| KeyboardLaws.TopKeys | kernel/console.c:24-51 | the row from q |
| KeyboardLaws.MiddleKeys | kernel/console.c:24-51 | the row from a |
| KeyboardLaws.BottomKeys | kernel/console.c:24-51 | the row from the backslash |
| KeyboardLaws.OtherKeys | kernel/console.c:24-51 | backspace, tab, Enter, space and the star type 8, 9, 10, 32 and 42; modifiers, lock keys and codes above 82 nothing; the number pad's minus and plus 4 and 2 |
| KeyboardLaws.SpecialKeys | kernel/console.c:54-183 | exactly 1, 59 to 68, 71 to 73, 75 to 77 and 79 to 82 are special |
| KeyboardLaws.DoneExactly | kernel/tty.c:51-82 | a call returns iff a newline has come |
| KeyboardLaws.OthersAreIgnored | kernel/tty.c:55-66 | results of 0 and below can be left out: text, echo and return are the same |
| KeyboardLaws.PairsCancel | kernel/tty.c:67-79 | a character and the backspace behind it cancel out wherever they stand, while there is room |
| KeyboardLaws.BackspaceExactly | kernel/tty.c:67-72 | a backspace takes off the last character and echoes 8, 32, 8; at the start of a line it does nothing |
| KeyboardLaws.ShownIsRead | kernel/tty.c:56-81 | the echo leaves on the screen, from the prompt on, exactly the text that is returned, blanks where characters were rubbed out, and everything else as it was |
| KeyboardLaws.TypedLine | kernel/console.c:215-238 | pressing and letting go the keys of a text and Enter on the displayed tty has its reader return exactly their characters, as far as its buffer goes |
| KeyboardCode.Input.constructor | kernel/console.c:185-192 | no key is held and all queues are empty |
| KeyboardCode.Input.PopScancode | kernel/console.c:194-203 | takes the oldest code of the displayed tty, or EAGAIN |
| KeyboardCode.Input.PushScancode | kernel/console.c:205-213 | appends to the displayed tty's queue unless 1023 are pending |
| KeyboardCode.Input.KeyboardInterrupt | kernel/console.c:223-238 | the interrupt in place is the key handling of the specification |
| KeyboardCode.Input.ConRead | kernel/console.c:215-221 | a tty that is not displayed reads end of file; otherwise the next code's meaning |
| KeyboardCode.Input.ReadTurn | kernel/tty.c:53-81 | one turn of the loop edits the buffer as the fold says and leaves the rest of it |
| KeyboardCode.Input.TtyRead | kernel/tty.c:42-83 | for every schedule of arrivals, the call is the run of the specification, buffer and echo included |
| PrintfLaws.DigitsDecode | kernel/thirdparty/printf.c:283-303 | the digits printed stand for the number |
| PrintfLaws.FinishedReversed | kernel/thirdparty/printf.c:229-279 | the conversion buffer backwards is the sign if there is room for it, zeros, digits, in at most 32 places |
| PrintfLaws.NumeralUnique | kernel/thirdparty/printf.c:283-303 | only one string of digits without leading zeros stands for a number |
| PrintfLayout.NumberLayoutExactly | kernel/thirdparty/printf.c:201-303 | for every width and precision, a number without - and # is laid out as section 7.21.6.1 of ISO C11 says iff it fits: with zero padding a width of at most 32; else a precision of at most 31, or of 32 when there is no sign or it is a space with a space in front of it |
| PrintfLaws.NumeralOfDigits | kernel/thirdparty/printf.c:283-303 | the digits are those of the base, without leading zeros |
| PrintfLayout.IntegerLayoutExactly | kernel/thirdparty/printf.c:699-765 | the same for every d, i, u, x, X, o, b conversion without - and #: spaces, sign, zeros, digits, the digits being the canonical numeral of the absolute value, iff it fits |
| PrintfLayout.ProducedExactly | kernel/thirdparty/printf.c:201-279 | where what a buffer of 32 places can hold agrees with the layout of the standard |
| PrintfHash.HashExactly | kernel/thirdparty/printf.c:244-263 | with # and no precision, a hexadecimal or octal number other than 0 follows the standard iff its digits do not end exactly with the field or, with zero padding, zeros enough stand before them in a field of at most 32 places; otherwise digits or the prefix are lost |
| PrintfHash.HashPrecisionExactly | kernel/thirdparty/printf.c:244-263 | with # and a precision, a hexadecimal number other than 0 follows the standard iff the precision is at most 30, and an octal one iff the precision does not exceed its digits, or is 32 |
| PrintfLayout.LeftJustifiedExactly | kernel/thirdparty/printf.c:229-242 | with - the text is sign, digits, spaces, and follows ISO C11 iff the precision is no more than the number of digits |
| PrintfRuns.RestAlone | kernel/thirdparty/printf.c:596-858 | from any place on, a format prints what its rest alone prints with the arguments that are left |
| PrintfRuns.PieceThenRest | kernel/thirdparty/printf.c:596-858 | a conversion in front of a format prints its own arguments, one for each star and one for d, i, u, x, X, o, b, c, s and p; the rest of the format prints those behind them |
| PrintfRuns.EachPrintsItsOwn | kernel/thirdparty/printf.c:596-858 | a format of any pieces prints what the pieces print one by one, each with the arguments behind those of the pieces before |
| PrintfRuns.KthPrintsKth | kernel/thirdparty/printf.c:596-858 | the k-th conversion prints the k-th argument, whatever text stands between them |
| PrintfRuns.OthersPrintThemselves | kernel/thirdparty/printf.c:849-857 | %% and every other character after a percent sign print themselves and take no argument |
| PrintfTexts.DigitCharacters | kernel/thirdparty/printf.c:295-299 | the digits of a base are 0 to 9, then A to F or a to f |
| PrintfTexts.ReadHexStep | kernel/traps.c:74-90 | reading one more character: hexadecimal digits of both cases add their value, any other 0, and all shift by four bits |
| PrintfTexts.IntegerConversion | kernel/thirdparty/printf.c:699-765 | every written integer conversion without stars, - and #: the layout of ISO C11 for the argument cut to 8, 16 or 32 bits, signed for d and i, in base 16, 8, 2 or 10, iff it fits |
| PrintfTexts.LeftConversion | kernel/thirdparty/printf.c:699-765 | with -: the sign, the digits of the argument so cut, and blanks behind them up to the width |
| PrintfTexts.StarWidth | kernel/thirdparty/printf.c:628-638 | a star as the width is the number it takes, negative numbers asking for - as well |
| PrintfTexts.StarPrecision | kernel/thirdparty/printf.c:648-652 | a star as the precision is the number it takes, and 0 for a negative one |
| PrintfTexts.CharConversion | kernel/thirdparty/printf.c:785-803 | c prints the low byte of its argument in its field, on the left with -, else on the right |
| PrintfTexts.StringConversion | kernel/thirdparty/printf.c:805-829 | s prints its string, cut at the precision, in its field |
| PrintfTexts.PointerConversion | kernel/thirdparty/printf.c:831-847 | p prints the eight capital hexadecimal digits of its argument, whatever the width |
| PrintfTexts.RegisterShown | kernel/traps.c:48-58 | %016X prints sixteen capital hexadecimal digits that read back as the argument |
| PrintfTexts.DumpShowsEach | kernel/traps.c:47-58 | the dump of a trap shows every register: behind the k-th name stand sixteen digits that read back as the k-th argument |
| PrintfLaws.ReadHexDecodes | kernel/traps.c:74-90 | the reader computes the number modulo 2^32 |
| PrintfLaws.LeadingZerosIgnored | kernel/traps.c:74-90 | leading spaces and zeros never change what is read |
| PrintfLaws.HexRoundTrip | kernel/traps.c:74-90 | hexadecimal text of any width and precision reads back as the number |
| PrintfLaws.DumpReadsBack | kernel/traps.c:92-107 | for every 32-bit value, what %016X and %08X print reads back |
| Printf.DigitsFit | kernel/thirdparty/printf.c:283-303 | a 32-bit number has at most 32 digits in any base, so the digit loop never stops early |
| Printf.BareDigits | kernel/thirdparty/printf.c:283-303 | the digits fit the conversion buffer |
| Printf.Finished | kernel/thirdparty/printf.c:229-279 | for all flags the index into the conversion buffer never exceeds 32 |
| PrintfCode.EmitConcat | kernel/thirdparty/printf.c:134-139 | clipped writes compose |
| PrintfCode.OutBuffer | kernel/thirdparty/printf.c:134-139 | nothing is written at or past maxlen |
| PrintfCode.Pad | kernel/thirdparty/printf.c:205-224 | the padding loops print exactly the missing characters |
| PrintfCode.OutBackwards | kernel/thirdparty/printf.c:212-215 | the buffer is printed backwards |
| PrintfCode.OutRev | kernel/thirdparty/printf.c:201-225 | spaces, reversed buffer, spaces |
| PrintfCode.FillZeros | kernel/thirdparty/printf.c:236-241 | zeros up to a goal or the end of the buffer |
| PrintfCode.HashMark | kernel/thirdparty/printf.c:244-263 | the prefix of the # flag |
| PrintfCode.AppendSign | kernel/thirdparty/printf.c:266-276 | the sign, if there is room |
| PrintfCode.FinishBuffer | kernel/thirdparty/printf.c:229-279 | padding, prefix and sign in the 32-byte buffer, never past it |
| PrintfCode.TakeDigit | kernel/thirdparty/printf.c:295-299 | one digit and the value left |
| PrintfCode.PutDigits | kernel/thirdparty/printf.c:293-300 | the digit loop uses the value up before the buffer is full |
| PrintfCode.NtoaLong | kernel/thirdparty/printf.c:283-303 | the number's text, written clipped |
| PrintfCode.IntegerOut | kernel/thirdparty/printf.c:699-765 | an integer argument, cut to its length, as text |
| PrintfCode.CharOut | kernel/thirdparty/printf.c:785-803 | a padded character |
| PrintfCode.StrnlenS | kernel/thirdparty/printf.c:173-178 | the length of a string, limited |
| PrintfCode.OutString | kernel/thirdparty/printf.c:817-820 | the characters of a string, cut at the precision |
| PrintfCode.StringOut | kernel/thirdparty/printf.c:805-829 | a padded string |
| PrintfCode.Convert | kernel/thirdparty/printf.c:691-858 | the text of one conversion, written clipped |
| PrintfCode.Atoi | kernel/thirdparty/printf.c:190-197 | digits accumulate modulo 2^32 |
| PrintfCode.EvaluateFlags | kernel/thirdparty/printf.c:610-621 | all flag characters are taken |
| PrintfParse.WidthParsed | kernel/thirdparty/printf.c:623-638 | a width written as a decimal number is that number; a star takes the argument, and a negative one asks for left justification |
| PrintfParse.PrecisionParsed | kernel/thirdparty/printf.c:640-653 | a precision written as a decimal number is that number; a lone dot is 0; a star takes the argument, and a negative one is 0 |
| PrintfParse.LengthParsed | kernel/thirdparty/printf.c:655-689 | each length modifier sets exactly its flags, and parsing goes on behind it |
| PrintfParse.NumberParsed | kernel/thirdparty/printf.c:190-197 | a run of digits is read as the decimal number it stands for, modulo 2^32 |
| PrintfParse.FlagsParsed | kernel/thirdparty/printf.c:610-621 | flags count by membership, in any order and number |
| PrintfParse.ParsesBack | kernel/thirdparty/printf.c:610-689 | any conversion specification, written out and parsed, gives back exactly its meaning, and parsing stops at the conversion character |
| PrintfCode.Evaluate | kernel/thirdparty/printf.c:610-689 | the whole conversion specification |
| PrintfCode.Vsnprintf | kernel/thirdparty/printf.c:586-866 | the format loop prints the whole text, clipped, and a NUL |
| PrintfCode.ClippedText | kernel/thirdparty/printf.c:861-865 | clipped text and NUL are the first min(length, count - 1) characters, the NUL, and the old contents behind |
| PrintfCode.Snprintf | kernel/thirdparty/printf.c:892-899 | the result is the length of the full text whatever count is, with or without a buffer; the buffer holds as much as fits, then NUL; nothing else changes |
| PrintfCode.ReadHexLoop | kernel/traps.c:74-90 | the accumulating loop is the reader of the specification |
| Crypt.MixedIsComplement | kernel/test.c:37 | the mixing formula is the complement of the key byte, whatever the text byte |
| Crypt.CryptedAt | kernel/test.c:31-46 | byte i is the complement of key byte i modulo the key length |
| Crypt.StoredKey | kernel/test.c:216-220 | after strcpy and the stored NUL, encp holds the complement of the first password, and no other NUL up to the saver's end |
| Crypt.FlippedBack | kernel/test.c:225-227 | enciphering with the stored key gives the first password back |
| Crypt.PasswordsCompared | kernel/test.c:204-232 | for all passwords of at most 511 bytes other than NUL and 0xFF, whatever is left in encp: it answers iff the first has two bytes and the second one, and says the same iff they are equal |
| Crypt.NoOnesKept | kernel/test.c:204-232 | no use of the command brings a byte 0xFF into encp, whatever the passwords hold |
| Crypt.OnesNeverRecognized | kernel/test.c:204-232 | a password with a byte 0xFF is never recognized, whatever other leftovers encp holds |
| Crypt.RecognizedExactly | kernel/test.c:204-232 | after any uses of the command, a password typed twice is recognized iff no byte of it is 0xFF |
| CryptCode.Strlen | include/string.h:85-92 | the length up to the first NUL |
| CryptCode.Strcpy | include/string.h:67-75 | the characters are copied and no NUL behind them |
| CryptCode.Strcmp | include/string.h:77-83 | 0 iff the strings are equal |
| CryptCode.Encipher | kernel/test.c:31-46 | null for an empty text or a key shorter than 2, else the enciphered string |
| CryptCode.MixOne | kernel/test.c:37-42 | one byte is mixed, and the key pointer starts over at the end of the key |
| CryptCode.MixAll | kernel/test.c:34-44 | the loop with its two moving pointers is the cyclic cipher |
| CryptCode.Shell.constructor | kernel/test.c:205-214 | the static buffers start as zeros |
| CryptCode.Shell.ReadLine | kernel/test.c:210-212 | a cleared buffer holds the line typed in |
| CryptCode.Shell.Remember | kernel/test.c:210-220 | the first half of the command stores the key |
| CryptCode.Shell.Compare | kernel/test.c:221-231 | the second half answers from the stored key |
| CryptCode.Shell.Enc | kernel/test.c:204-232 | the command in place is the run of the specification |
| Calendar.DayNumberCounts | kernel/time.c:44-57 | the reference day count starts at 0 on 1 January 1970 and grows by one each day |
| Calendar.YearLength | kernel/time.c:44-57 | the month table is right for leap years, and one too many from March on in other years |
| Calendar.LeapDays | kernel/time.c:77-83 | the leap-day terms are the days that leap years add, for every year from 1970 |
| Calendar.MktimeExactly | kernel/time.c:61-83 | mktime is right from March to December of years that are not leap years and exactly 86400 less on all other dates |
| Calendar.ClockSteps | kernel/time.c:61-83 | what that does at midnight: 0, 1 or 2 days pass, and when |
| Calendar.NoOverflow | kernel/time.c:77-83 | for 2000 to 2099 the 32-bit computation does not overflow |
| Calendar.BcdRoundTrip | kernel/time.c:35-37 | decoding the two BCD digits of a number below 100 gives it back |
| Calendar.TimeRecord.GetTime | kernel/time.c:61-75 | on a chip that shows a date, the record holds it, and its day of the year counts from 1 and is one too many from March on in a year that is not a leap year |
| Calendar.Time | kernel/time.c:85-91 | on a chip that shows a moment of this century, the result is the seconds since the epoch, less a day outside March to December of years that are not leap years |
| Calendar.TimeExactly | kernel/time.c:85-91 | for every moment of this century, the seconds since the epoch, less a day outside March to December of years that are not leap years |
| Emulator.GetSet | kernel/i386_emulator.c:22-172 | a register write changes that register only, in both layouts |
| Emulator.ReadBack | kernel/i386_emulator.c:60-172 | a 16- or 32-bit register reads back what was written; an 8-bit one reads 0, which is right iff the low byte of the value is 0 |
| Emulator.LoadStore | kernel/i386_emulator.c:174-192 | a 32-bit store reads back |
| EmulatorLaws.RegisterNumbers | include/klyx/i386_emulator.h:40-79 | the numbers of the 16 whole registers |
| EmulatorLaws.InterruptReads | kernel/i386_emulator.c:22-58 | the field of an interrupt frame that each of these numbers reads |
| EmulatorLaws.InterruptWrites | kernel/i386_emulator.c:60-96 | the field it writes, and no other |
| EmulatorLaws.TaskReads | kernel/i386_emulator.c:98-134 | the same fields of a task frame |
| EmulatorLaws.TaskWrites | kernel/i386_emulator.c:136-172 | the field it writes, and no other |
| EmulatorLaws.PartsRead | kernel/i386_emulator.c:33-49 | 9 to 17 read the low halves of 0 to 8, 18 to 21 the first bytes of 0 to 3, 22 to 25 their second bytes |
| EmulatorLaws.PartsWritten | kernel/i386_emulator.c:71-87 | bit by bit what a write to a part leaves: a 16-bit write keeps the upper half; an 8-bit write clears its own byte and merges the other byte of the value into the other byte of the register |
| EmulatorLaws.StoreBytes | kernel/i386_emulator.c:174-192 | a store is little-endian, wraps around at 2^32 and touches four bytes |
| EmulatorLaws.LoadBytes | kernel/i386_emulator.c:194-212 | a load is v iff the four bytes are those of v, the lowest first |
| EmulatorLaws.Addresses | kernel/i386_emulator.c:174-212 | the addresses of the memory forms in terms of the one word of the operand and its register |
| Emulator.AssignFetch | kernel/i386_emulator.c:174-234 | an operand that is written reads back as far as it is wide, keeps its address, and nothing else changes |
| Emulator.SubUndoesAdd | kernel/i386_emulator.c:298-306 | subtracting an immediate undoes adding it iff the operand is not an 8-bit register, or one that holds 0 |
| Emulator.PopEffect | kernel/i386_emulator.c:318-321 | what a pop into any operand does, and that nothing else changes |
| Emulator.SavedStep | kernel/i386_emulator.c:298-321 | one instruction commutes with saving the frame |
| Emulator.SavedRun | kernel/i386_emulator.c:298-321 | so does every program |
| Emulator.EmulatorsAgree | kernel/i386_emulator.c:22-321 | saving an interrupt frame, running any program on the task frame and restoring equals running it directly, with the same memory |
| EmulatorStack.PushStep | kernel/i386_emulator.c:316 | a push of an immediate lowers ESP by 4 and stores below it |
| EmulatorStack.PopStep | kernel/i386_emulator.c:321 | a pop into a register loads from ESP and raises it by 4 |
| EmulatorStack.StackLaw | kernel/i386_emulator.c:313-321 | n immediate pushes and n pops into 32-bit registers other than ESP deliver the values in reverse, restore ESP and change no memory outside the n words, for every 4n up to 2^32 |
| EmulatorStack.PopsReverse | kernel/i386_emulator.c:313-321 | register by register: pop i brings value n - 1 - i, other registers keep theirs |
| EmulatorStack.FirstPopIntoEsp | kernel/i386_emulator.c:313-321 | among n pushes and pops, the first pop into ESP leaves its value plus 4, which is where another pop would leave it iff the value is the address it was popped from |
| EmulatorCode.Cpu.Leset | kernel/i386_emulator.c:174-192 | the operand reads back as far as it is wide, and no other register or byte changes |
| EmulatorCode.Cpu.Add | kernel/i386_emulator.c:299-301 | fetching the left operand again gives the sum modulo 2^32 as far as it is wide, and no other register or byte changes |
| EmulatorCode.Cpu.Sub | kernel/i386_emulator.c:304-306 | the same for the difference |
| EmulatorCode.Cpu.JmpFar | kernel/i386_emulator.c:309-311 | EIP is the operand, and no other register and no memory changes |
| EmulatorCode.Cpu.Push | kernel/i386_emulator.c:314-316 | the word at the new stack pointer is the operand as it is after ESP has moved; no other register and no other byte changes |
| EmulatorCode.Cpu.Pop | kernel/i386_emulator.c:319-321 | the word at ESP comes into the operand, ESP moves up by 4 from what it then is, and nothing else changes |

## Left out

- Inline assembly, interrupt entry and exit, PIC and PIT set-up, descriptor tables, the boot loader: no behaviour
  the model could state. Each `_impl` function is one step.
- Busy waiting is modelled turn by turn. `KeyboardCode.Input.TtyRead` runs over a given schedule of arrivals and
  may end with it still waiting; `Mutex.LockWord.WaitTurn` is one turn of its loop.
- Several readers of one tty at the same time: each tty has one reader.
- User memory: what a task computes is any change of its registers (`Scheduler.Step.Run`).
- `con_setcur`, and the demo shell's direct writes to the screen and to user ids.
- The reply of `uname`, the value system call 6 would store, the breakpoint trap and the debugger's and the shell's
  command dispatch, login.
- Signal handlers, `parent`, and the effective and saved ids: declared and not used by the scheduler.
- `long long` conversions of printf, and the floating-point ones, which the source switches off. A format must lead every percent sign to a conversion
  character with an argument of the right kind, and the text must be shorter than 2^31, the range of the result.
- PrintfHash.HashExactly: does not cover # together with the - flag, the number 0, which loses its prefix, and binary
  numbers, which are not in the standard; `PrintfCode` covers the code of all flags.
- PrintfCode.Vsnprintf: does not model `long long` arguments, because the 64-bit division of that path is a 32-bit stub.
- PrintfCode.Snprintf: does not model `long long` arguments either.
- PrintfTexts.PointerConversion: does not cover a precision and the flags other than 0 for p; `PrintfLayout` has the layout
  of all numbers.
- KeyboardLaws.ShownIsRead: does not cover tabs in the line, and prompts so low that the line would scroll the screen.
- KernelCode.Kernel.Syscall: models system calls 2 and 3 as one step with a value handed in, without the window in
  which the source lets interrupts in; `Keyboard` has the interrupts between the turns of the reader instead.
- EmulatorStack.FirstPopIntoEsp: does not say what the pops after a pop into ESP bring when it has moved elsewhere: that
  depends on memory outside the stack.
- Reading the clock chip's ports, and its update flag: the registers are an input.
- The shell's input of a password: the line is an input of `CryptCode.Shell.ReadLine`.
- Undefined behaviour of the emulator: register numbers of 33 and above in an operand are excluded. Memory accesses
  wrap around at 2^32.
- Both register layouts of the emulator share one text, as they do in the source's macro; the four register switches
  are `Emulator.GetInt`, `GetTask`, `SetInt` and `SetTask` with one table of register numbers.
