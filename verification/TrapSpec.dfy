/**
 What trap handling is meant to do, without trap frames: every process has a
 register context of its own and a stack of contexts that pending handlers will
 return to. Preemption only changes whose turn it is.
 */
module TrapSpec {
  import opened Machine

  /** The registers a trap saves: a0, the program counter and all others. */
  datatype Context = Context(a0: u64, pc: u64, rest: seq<u64>)

  datatype Code =
    | SoftwareInterrupt | TimerInterrupt | ExternalInterrupt
    | AccessMisaligned | AccessFault | InstructionInvalid | Breakpoint
    | Syscall | PageFault | DoubleTrap | SoftwareCheck | HardwareError

  datatype Mode = UserMode | SupervisorMode | MachineMode

  const BIT_63 := 0x8000_0000_0000_0000

  /** trapframe_parse: the code and the privilege read off scause. */
  function Parse(scause: u64): Outcome<(Code, Mode)> {
    var mode := if (scause / 256) % 2 == 1 then UserMode else SupervisorMode;
    if scause >= BIT_63 then ParseInterrupt(scause - BIT_63) else ParseException(scause, mode)
  }

  function ParseInterrupt(n: u64): Outcome<(Code, Mode)> {
    if n == 1 then Done((SoftwareInterrupt, SupervisorMode))
    else if n == 3 then Done((SoftwareInterrupt, MachineMode))
    else if n == 5 then Done((TimerInterrupt, SupervisorMode))
    else if n == 7 then Done((TimerInterrupt, MachineMode))
    else if n == 9 then Done((ExternalInterrupt, SupervisorMode))
    else if n == 11 then Done((ExternalInterrupt, MachineMode))
    else Halt
  }

  function ParseException(n: u64, mode: Mode): Outcome<(Code, Mode)> {
    if n == 0 || n == 4 || n == 6 then Done((AccessMisaligned, mode))
    else if n == 1 || n == 5 || n == 7 then Done((AccessFault, mode))
    else if n == 2 then Done((InstructionInvalid, mode))
    else if n == 3 then Done((Breakpoint, mode))
    else if n == 8 then Done((Syscall, UserMode))
    else if n == 9 then Done((Syscall, SupervisorMode))
    else if n == 11 then Done((Syscall, MachineMode))
    else if n == 12 || n == 13 || n == 15 then Done((PageFault, mode))
    else if n == 16 then Done((DoubleTrap, mode))
    else if n == 18 then Done((SoftwareCheck, mode))
    else if n == 19 then Done((HardwareError, mode))
    else Halt
  }

  /** The bit tested for user mode is not set in any exception cause that parses, so
      a trap is taken to come from user mode if and only if its cause is the
      environment call from user mode. */
  lemma UserModeIsSyscall(scause: u64)
    ensures Parse(scause).Done? && Parse(scause).value.1.UserMode? <==> scause == 8
  {
  }

  const UNHANDLED: u64 := 1

  // ---- processes ----

  datatype Pending = Pending(ctx: Context, code: Code)

  /** A process: the contexts its pending handlers return to, outermost first, its
      own context, and whether it is copying from or to user memory. */
  datatype Task = Task(stack: seq<Pending>, now: Context, reading: bool)

  datatype System = System(cur: nat, tasks: map<nat, Task>)

  datatype Event =
    /** the current process computes */
    | Run(ctx: Context)
    /** it starts or ends a copy from or to user memory */
    | Copying(on: bool)
    /** a trap; `answer` is syscall_sync_handler's, `next` the process the
        scheduler would choose */
    | Trap(scause: u64, answer: u64, next: nat)
    /** its innermost handler ends; `answer` is syscall_async_handler's, `loaded`
        says whether the missing page was loaded */
    | Leave(answer: u64, loaded: bool)

  /** What a finished handler asks for. */
  datatype Response = Response(send: bool, value: u64, skip: bool, kill: bool)

  /** interruptable_trap_syscall and interruptable_trap_page_fault */
  function Answer(code: Code, copying: bool, answer: u64, loaded: bool): Response {
    if code.Syscall? then Response(false, 0, true, answer == UNHANDLED)
    else if copying then Response(!loaded, if loaded then 0 else 1, !loaded, false)
    else Response(false, 0, false, !loaded)
  }

  /** The deliberate updates of a context that is returned to. */
  function Patched(ctx: Context, r: Response): Context {
    var sent := if r.send then ctx.(a0 := r.value) else ctx;
    if r.skip then sent.(pc := Add64(sent.pc, 4)) else sent
  }

  const NextInstruction := Response(false, 0, true, false)

  /** The kind of a trap, once parsed. */
  datatype Kind = Fatal | Swap | Handled | Deferred(code: Code)

  /** What handle_sync_trap makes of a trap. */
  function KindOf(scause: u64, answer: u64, inHandler: bool, reading: bool): (kind: Kind)
    ensures kind.Deferred? ==> kind.code.Syscall? || kind.code.PageFault?
  {
    match Parse(scause)
    case Halt => Fatal
    case Done((code, mode)) =>
      if code.TimerInterrupt? && mode.SupervisorMode? then Swap
      else if code.Syscall? then (if answer == UNHANDLED then Deferred(Syscall) else Handled)
      else if code.PageFault? && (!inHandler || reading) then Deferred(PageFault)
      else Fatal
  }

  // ---- which system calls are deferred ----

  const UART_PRINT: u64 := 1
  const U64_MAX: u64 := 0xffff_ffff_ffff_ffff

  /** syscall_sync_handler with syscall_uart: 0 for a character, U64_MAX for a
      string, which only the interruptible handler can print, 1 for the rest. */
  function SyncAnswer(arg0: u64, arg1: u64): u64 {
    if arg0 != UART_PRINT then UNHANDLED
    else if arg1 == 0 then 0
    else if arg1 == 1 then U64_MAX
    else UNHANDLED
  }

  predicate IsSyscall(scause: u64) {
    Parse(scause).Done? && Parse(scause).value.0.Syscall?
  }

  /** uninterruptible_trap_syscall defers a call exactly on the answer 1; every other
      answer counts as handled. */
  lemma SyscallDeferred(scause: u64, answer: u64, inHandler: bool, reading: bool)
    requires IsSyscall(scause)
    ensures var kind := KindOf(scause, answer, inHandler, reading);
            && (kind.Deferred? <==> answer == UNHANDLED)
            && (kind.Handled? <==> answer != UNHANDLED)
  {
  }

  /** So of all system calls exactly the two that print are never deferred: the one
      that prints a string as well, although its answer asks for it. */
  lemma PrintsNotDeferred(scause: u64, arg0: u64, arg1: u64, inHandler: bool, reading: bool)
    requires IsSyscall(scause)
    ensures KindOf(scause, SyncAnswer(arg0, arg1), inHandler, reading).Deferred? <==> !(arg0 == UART_PRINT && arg1 <= 1)
  {
    SyscallDeferred(scause, SyncAnswer(arg0, arg1), inHandler, reading);
  }

  /** A deferred trap nests at most twice: any trap of the process itself, then a
      page fault of a user copy. */
  predicate MayNest(task: Task, code: Code) {
    task.stack == [] || (|task.stack| == 1 && code.PageFault? && task.reading)
  }

  predicate Enabled(m: System, e: Event) {
    && m.cur in m.tasks
    && (e.Trap? ==> e.next in m.tasks)
    && (e.Leave? ==> m.tasks[m.cur].stack != [] && !LeaveResponse(m.tasks[m.cur], e).kill)
  }

  function LeaveResponse(task: Task, e: Event): Response
    requires e.Leave? && task.stack != []
  {
    Answer(task.stack[|task.stack| - 1].code, |task.stack| == 2, e.answer, e.loaded)
  }

  function WithTask(m: System, task: Task): System {
    m.(tasks := m.tasks[m.cur := task])
  }

  function TrapStep(m: System, e: Event): Outcome<System>
    requires Enabled(m, e) && e.Trap?
  {
    var task := m.tasks[m.cur];
    KindStep(m, e.next, KindOf(e.scause, e.answer, task.stack != [], task.reading))
  }

  function KindStep(m: System, next: nat, kind: Kind): Outcome<System>
    requires m.cur in m.tasks
  {
    var task := m.tasks[m.cur];
    match kind
    case Fatal => Halt
    case Swap => Done(m.(cur := next))
    case Handled => Done(WithTask(m, task.(now := Patched(task.now, NextInstruction))))
    case Deferred(code) =>
      if MayNest(task, code) then Done(WithTask(m, task.(stack := task.stack + [Pending(task.now, code)]))) else Halt
  }

  function Step(m: System, e: Event): Outcome<System>
    requires Enabled(m, e)
  {
    var task := m.tasks[m.cur];
    match e
    case Run(ctx) => Done(WithTask(m, task.(now := ctx)))
    case Copying(on) => Done(WithTask(m, task.(reading := on)))
    case Trap(_, _, _) => TrapStep(m, e)
    case Leave(_, _) =>
      var last := |task.stack| - 1;
      Done(WithTask(m, task.(stack := task.stack[..last], now := Patched(task.stack[last].ctx, LeaveResponse(task, e)))))
  }

  /** The call that prints a string: the process goes on after the call with its
      registers as they were, and no handler is entered. */
  lemma StringPrintDropped(m: System, next: nat)
    requires m.cur in m.tasks && next in m.tasks
    ensures var task := m.tasks[m.cur];
            && Enabled(m, Trap(8, SyncAnswer(UART_PRINT, 1), next))
            && Step(m, Trap(8, SyncAnswer(UART_PRINT, 1), next))
               == Done(m.(tasks := m.tasks[m.cur := task.(now := task.now.(pc := Add64(task.now.pc, 4)))]))
  {
    var task := m.tasks[m.cur];
    SyscallDeferred(8, U64_MAX, task.stack != [], task.reading);
  }

  /** A handler's end writes a0 exactly if it ends the page fault of a user copy whose
      page was not loaded. */
  lemma AnswerWrites(code: Code, copying: bool, answer: u64, loaded: bool)
    requires code.Syscall? || code.PageFault?
    ensures Answer(code, copying, answer, loaded).send <==> code.PageFault? && copying && !loaded
  {
  }

  // ---- runs ----

  ghost predicate Goes(m: System, e: Event, n: System) {
    Enabled(m, e) && Step(m, e) == Done(n)
  }

  ghost predicate IsRun(ms: seq<System>, es: seq<Event>) {
    |ms| == |es| + 1 && forall i :: 0 <= i < |es| ==> Goes(ms[i], es[i], ms[i + 1])
  }

  /** Processes neither appear nor vanish. */
  lemma {:induction false} RunKeepsTasks(ms: seq<System>, es: seq<Event>, k: nat)
    requires IsRun(ms, es) && k < |ms|
    ensures ms[k].tasks.Keys == ms[0].tasks.Keys
  {
    if k > 0 {
      RunKeepsTasks(ms, es, k - 1);
      assert Goes(ms[k - 1], es[k - 1], ms[k]);
    }
  }

  /** A process that does not have its turn is not changed, however long and
      whatever the others do. */
  lemma {:induction false} Preempted(ms: seq<System>, es: seq<Event>, p: nat, k: nat, j: nat)
    requires IsRun(ms, es) && k <= j < |ms| && p in ms[0].tasks
    requires forall i :: k <= i < j ==> ms[i].cur != p
    ensures p in ms[k].tasks && p in ms[j].tasks && ms[j].tasks[p] == ms[k].tasks[p]
    decreases j
  {
    RunKeepsTasks(ms, es, k);
    if k < j {
      Preempted(ms, es, p, k, j - 1);
      assert Goes(ms[j - 1], es[j - 1], ms[j]);
    }
  }

  predicate IsTimer(e: Event) {
    e.Trap? && Parse(e.scause) == Done((TimerInterrupt, SupervisorMode))
  }

  /** From the timer interrupt that took its turn to the next turn, a process is
      not changed. */
  lemma TurnToTurn(ms: seq<System>, es: seq<Event>, p: nat, k: nat, j: nat)
    requires IsRun(ms, es) && k < j < |ms| && IsTimer(es[k]) && p in ms[k].tasks
    requires forall i :: k < i < j ==> ms[i].cur != p
    ensures p in ms[j].tasks && ms[j].tasks[p] == ms[k].tasks[p]
  {
    assert Goes(ms[k], es[k], ms[k + 1]);
    RunKeepsTasks(ms, es, k);
    Preempted(ms, es, p, k + 1, j);
  }

  /** While a process is deeper in handlers than `low`, the contexts up to that
      depth stay as they are. */
  ghost predicate DeeperThan(ms: seq<System>, p: nat, low: nat, k: nat, j: nat)
    requires j < |ms|
  {
    forall i :: k <= i <= j ==> p in ms[i].tasks && |ms[i].tasks[p].stack| > low
  }

  lemma {:induction false} PendingKept(ms: seq<System>, es: seq<Event>, p: nat, low: nat, k: nat, j: nat)
    requires IsRun(ms, es) && k <= j < |ms| && DeeperThan(ms, p, low, k, j)
    ensures p in ms[k].tasks && p in ms[j].tasks
    ensures |ms[k].tasks[p].stack| > low && |ms[j].tasks[p].stack| > low
    ensures ms[j].tasks[p].stack[..low + 1] == ms[k].tasks[p].stack[..low + 1]
    decreases j
  {
    if k < j {
      PendingKept(ms, es, p, low, k, j - 1);
      assert Goes(ms[j - 1], es[j - 1], ms[j]);
      StepKeepsBelow(ms[j - 1], es[j - 1], p, low);
    }
  }

  lemma StepKeepsBelow(m: System, e: Event, p: nat, low: nat)
    requires Enabled(m, e) && Step(m, e).Done? && p in m.tasks && |m.tasks[p].stack| > low
    requires |Step(m, e).value.tasks[p].stack| > low
    ensures Step(m, e).value.tasks[p].stack[..low + 1] == m.tasks[p].stack[..low + 1]
  {
  }

  /** A trap that is deferred, and the end of its handler: whatever happens in
      between, to this process and to all others, the process continues with the
      context it was interrupted in, save for the updates its handler asked for,
      and its other pending handlers are as they were. */
  lemma Returns(ms: seq<System>, es: seq<Event>, p: nat, k: nat, j: nat)
    requires IsRun(ms, es) && k < j < |es| && p in ms[0].tasks
    requires ms[k].cur == p && ms[j].cur == p && es[j].Leave?
    requires p in ms[k].tasks && p in ms[j].tasks
    requires var low := |ms[k].tasks[p].stack|;
             DeeperThan(ms, p, low, k + 1, j) && |ms[j].tasks[p].stack| == low + 1
    ensures p in ms[j + 1].tasks
    ensures ms[j + 1].tasks[p].stack == ms[k].tasks[p].stack
    ensures ms[j + 1].tasks[p].now == Patched(ms[k].tasks[p].now, LeaveResponse(ms[j].tasks[p], es[j]))
    ensures es[k].Trap? && Parse(es[k].scause).Done?
    ensures ms[j].tasks[p].stack[|ms[k].tasks[p].stack|].code == Parse(es[k].scause).value.0
  {
    var before := ms[k].tasks[p];
    var low := |before.stack|;
    assert Goes(ms[k], es[k], ms[k + 1]) && Goes(ms[j], es[j], ms[j + 1]);
    assert |ms[k + 1].tasks[p].stack| > low;
    assert ms[k + 1].tasks[p].stack[..low] == before.stack && ms[k + 1].tasks[p].stack[low].ctx == before.now;
    PendingKept(ms, es, p, low, k + 1, j);
    SamePrefix(ms[j].tasks[p].stack, ms[k + 1].tasks[p].stack, low);
  }

  lemma SamePrefix(s: seq<Pending>, t: seq<Pending>, low: nat)
    requires |s| > low && |t| > low && s[..low + 1] == t[..low + 1]
    ensures s[..low] == t[..low] && s[low] == t[low]
  {
    assert s[..low + 1][..low] == s[..low] && t[..low + 1][..low] == t[..low];
    assert s[..low + 1][low] == s[low] && t[..low + 1][low] == t[low];
  }
}
