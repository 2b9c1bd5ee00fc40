/**
 Trap handling as the kernel does it: three trap frames per process, one of them
 mapped at the trap-frame address, and a trap state. Each step is related to the
 step of TrapSpec's stack of contexts.
 */
module Traps {
  import opened Machine
  import opened TrapSpec

  datatype TrapState = InProcess | Uninterruptible | Interruptible | ReadUserspace

  datatype Slot = UserFrame | KernelFrame | FaultFrame

  datatype Frame = Frame(ctx: Context, scause: u64)

  /** Locals of a handle_async_trap that has not returned yet. */
  datatype Call = Call(past: TrapState, code: Code)

  datatype Process = Process(
    trapState: TrapState,
    mapped: Slot,
    user: Frame,
    kernel: Frame,
    fault: Frame,
    reading: bool,
    calls: seq<Call>
  )

  /** The processor: the running process and the registers. */
  datatype Hart = Hart(cur: nat, cpu: Context, procs: map<nat, Process>)

  /** The frame seen at the trap-frame address. */
  function FrameAt(p: Process): Frame {
    match p.mapped
    case UserFrame => p.user
    case KernelFrame => p.kernel
    case FaultFrame => p.fault
  }

  function WithFrame(p: Process, f: Frame): Process {
    match p.mapped
    case UserFrame => p.(user := f)
    case KernelFrame => p.(kernel := f)
    case FaultFrame => p.(fault := f)
  }

  function WithProcess(h: Hart, p: Process): Hart {
    h.(procs := h.procs[h.cur := p])
  }

  /** Return from a trap: the registers come from the mapped frame. */
  function Resumed(h: Hart): Hart
    requires h.cur in h.procs
  {
    h.(cpu := FrameAt(h.procs[h.cur]).ctx)
  }

  function PatchFrame(p: Process, r: Response): Process {
    WithFrame(p, FrameAt(p).(ctx := Patched(FrameAt(p).ctx, r)))
  }

  /** The first half of handle_async_trap, up to the point where interrupts are
      enabled. */
  function Entered(p: Process, code: Code): Outcome<Process> {
    var deeper := p.(calls := p.calls + [Call(p.trapState, code)]);
    match p.trapState
    case InProcess => Done(deeper.(mapped := KernelFrame, trapState := Interruptible))
    case Interruptible =>
      if code.PageFault? && p.reading then Done(deeper.(mapped := FaultFrame, trapState := ReadUserspace)) else Halt
    case _ => Halt
  }

  /** The second half, from the point where they are disabled again. */
  function Left(p: Process, r: Response): Outcome<Process>
    requires p.calls != []
  {
    var last := |p.calls| - 1;
    var shallower := p.(calls := p.calls[..last], trapState := p.calls[last].past);
    match p.calls[last].past
    case InProcess => Done(PatchFrame(shallower.(mapped := UserFrame), r))
    case Interruptible => Done(PatchFrame(shallower.(mapped := KernelFrame), r))
    case _ => Halt
  }

  function CallResponse(p: Process, e: Event): Response
    requires e.Leave? && p.calls != []
  {
    Answer(p.calls[|p.calls| - 1].code, p.trapState.ReadUserspace?, e.answer, e.loaded)
  }

  predicate HartEnabled(h: Hart, e: Event) {
    && h.cur in h.procs
    && (e.Trap? ==> e.next in h.procs)
    && (e.Leave? ==> h.procs[h.cur].calls != [] && !CallResponse(h.procs[h.cur], e).kill)
  }

  /** A trap of the running process: save, handle, and either resume, resume
      another process, or go on in an interruptible handler. */
  function HartTrap(h: Hart, e: Event): Outcome<Hart>
    requires HartEnabled(h, e) && e.Trap?
  {
    var p := h.procs[h.cur];
    HartKind(h, Frame(h.cpu, e.scause), e.next, KindOf(e.scause, e.answer, !p.trapState.InProcess?, p.reading))
  }

  function HartKind(h: Hart, f: Frame, next: nat, kind: Kind): Outcome<Hart>
    requires h.cur in h.procs && next in h.procs
  {
    var p := WithFrame(h.procs[h.cur], f);
    match kind
    case Fatal => Halt
    case Swap => Done(Resumed(WithProcess(h, p).(cur := next)))
    case Handled => Done(Resumed(WithProcess(h, PatchFrame(p, NextInstruction))))
    case Deferred(code) =>
      match Entered(p, code)
      case Halt => Halt
      case Done(q) => Done(WithProcess(h, q))
  }

  function HartLeave(h: Hart, e: Event): Outcome<Hart>
    requires HartEnabled(h, e) && e.Leave?
  {
    match Left(h.procs[h.cur], CallResponse(h.procs[h.cur], e))
    case Halt => Halt
    case Done(q) => Done(Resumed(WithProcess(h, q)))
  }

  function HartStep(h: Hart, e: Event): Outcome<Hart>
    requires HartEnabled(h, e)
  {
    match e
    case Run(ctx) => Done(h.(cpu := ctx))
    case Copying(on) => Done(WithProcess(h, h.procs[h.cur].(reading := on)))
    case Trap(_, _, _) => HartTrap(h, e)
    case Leave(_, _) => HartLeave(h, e)
  }

  // ---- the invariant and the abstraction ----

  /** The pending handlers a trap state stands for. */
  ghost function Pasts(t: TrapState): seq<TrapState> {
    match t
    case InProcess => []
    case Interruptible => [InProcess]
    case ReadUserspace => [InProcess, Interruptible]
    case Uninterruptible => []
  }

  ghost function SlotFor(t: TrapState): Slot {
    match t
    case Interruptible => KernelFrame
    case ReadUserspace => FaultFrame
    case _ => UserFrame
  }

  ghost predicate CallsMatch(calls: seq<Call>, pasts: seq<TrapState>) {
    && |calls| == |pasts|
    && forall i :: 0 <= i < |calls| ==> calls[i].past == pasts[i] && (calls[i].code.Syscall? || calls[i].code.PageFault?)
  }

  /** Outside handle_sync_trap, the trap state determines the mapped frame and the
      pending handlers. */
  ghost predicate ProcessOk(p: Process) {
    && !p.trapState.Uninterruptible?
    && p.mapped == SlotFor(p.trapState)
    && CallsMatch(p.calls, Pasts(p.trapState))
  }

  ghost predicate HartOk(h: Hart) {
    h.cur in h.procs && forall p :: p in h.procs ==> ProcessOk(h.procs[p])
  }

  /** The contexts pending handlers return to: the user frame's, then the kernel
      frame's. */
  ghost function StackOf(p: Process): seq<Pending> {
    if p.trapState.Interruptible? && |p.calls| == 1 then [Pending(p.user.ctx, p.calls[0].code)]
    else if p.trapState.ReadUserspace? && |p.calls| == 2 then
      [Pending(p.user.ctx, p.calls[0].code), Pending(p.kernel.ctx, p.calls[1].code)]
    else []
  }

  ghost function TaskOf(h: Hart, p: nat): Task
    requires p in h.procs
  {
    Task(StackOf(h.procs[p]), if p == h.cur then h.cpu else FrameAt(h.procs[p]).ctx, h.procs[p].reading)
  }

  ghost function Abs(h: Hart): System {
    System(h.cur, map p | p in h.procs :: TaskOf(h, p))
  }

  // ---- refinement ----

  lemma EnabledAbs(h: Hart, e: Event)
    requires HartOk(h)
    ensures HartEnabled(h, e) <==> Enabled(Abs(h), e)
    ensures e.Leave? && HartEnabled(h, e) ==> CallResponse(h.procs[h.cur], e) == LeaveResponse(Abs(h).tasks[h.cur], e)
  {
    var p := h.procs[h.cur];
    assert ProcessOk(p);
  }

  lemma EnteredOk(p: Process, code: Code)
    requires ProcessOk(p) && (code.Syscall? || code.PageFault?)
    ensures Entered(p, code).Done? <==>
            StackOf(p) == [] || (|StackOf(p)| == 1 && code.PageFault? && p.reading)
    ensures Entered(p, code).Done? ==>
              && ProcessOk(Entered(p, code).value)
              && StackOf(Entered(p, code).value) == StackOf(p) + [Pending(FrameAt(p).ctx, code)]
              && Entered(p, code).value.reading == p.reading
  {
  }

  lemma LeftOk(p: Process, r: Response)
    requires ProcessOk(p) && p.calls != []
    ensures |StackOf(p)| == |p.calls|
    ensures Left(p, r).Done? && ProcessOk(Left(p, r).value)
    ensures var last := |p.calls| - 1;
            var q := Left(p, r).value;
            && StackOf(q) == StackOf(p)[..last]
            && FrameAt(q).ctx == Patched(StackOf(p)[last].ctx, r)
            && q.reading == p.reading
  {
  }

  /** Two machines with the same turn and the same tasks are the same. */
  lemma SameTasks(h: Hart, m: System)
    requires h.cur == m.cur && h.procs.Keys == m.tasks.Keys
    requires forall p :: p in h.procs ==> TaskOf(h, p) == m.tasks[p]
    ensures Abs(h) == m
  {
  }

  /** Saving the registers changes nothing that a pending handler or another
      process returns to. */
  lemma SavedOk(p: Process, f: Frame)
    requires ProcessOk(p)
    ensures ProcessOk(WithFrame(p, f)) && StackOf(WithFrame(p, f)) == StackOf(p)
    ensures FrameAt(WithFrame(p, f)) == f && WithFrame(p, f).reading == p.reading
    ensures WithFrame(p, f).trapState == p.trapState
  {
  }

  /** What has to hold of the machines after a trap. */
  ghost predicate Matches(after: Outcome<Hart>, spec: Outcome<System>) {
    && (after.Done? <==> spec.Done?)
    && (after.Done? ==> HartOk(after.value) && Abs(after.value) == spec.value)
  }

  /** Changing the current process and keeping the others. */
  lemma CurrentChanged(h: Hart, q: Process, task: Task, cpu: Context)
    requires HartOk(h) && ProcessOk(q) && task == Task(StackOf(q), cpu, q.reading)
    ensures Matches(Done(WithProcess(h, q).(cpu := cpu)), Done(WithTask(Abs(h), task)))
  {
    SameTasks(WithProcess(h, q).(cpu := cpu), WithTask(Abs(h), task));
  }

  lemma SwapRefines(h: Hart, f: Frame, next: nat)
    requires HartOk(h) && next in h.procs && f.ctx == h.cpu
    ensures Matches(HartKind(h, f, next, Swap), KindStep(Abs(h), next, Swap))
  {
    assert ProcessOk(h.procs[h.cur]);
    SavedOk(h.procs[h.cur], f);
    SameTasks(HartKind(h, f, next, Swap).value, KindStep(Abs(h), next, Swap).value);
  }

  lemma HandledRefines(h: Hart, f: Frame, next: nat)
    requires HartOk(h) && next in h.procs && f.ctx == h.cpu
    ensures Matches(HartKind(h, f, next, Handled), KindStep(Abs(h), next, Handled))
  {
    var p := h.procs[h.cur];
    assert ProcessOk(p);
    SavedOk(p, f);
    var saved, cpu := WithFrame(p, f), Patched(h.cpu, NextInstruction);
    SavedOk(saved, f.(ctx := cpu));
    var q := PatchFrame(saved, NextInstruction);
    CurrentChanged(h, q, Task(StackOf(q), cpu, q.reading), cpu);
  }

  lemma DeferredRefines(h: Hart, f: Frame, next: nat, code: Code)
    requires HartOk(h) && next in h.procs && f.ctx == h.cpu && (code.Syscall? || code.PageFault?)
    ensures Matches(HartKind(h, f, next, Deferred(code)), KindStep(Abs(h), next, Deferred(code)))
  {
    var p := h.procs[h.cur];
    assert ProcessOk(p);
    SavedOk(p, f);
    var saved := WithFrame(p, f);
    EnteredOk(saved, code);
    if Entered(saved, code).Done? {
      var q := Entered(saved, code).value;
      CurrentChanged(h, q, Task(StackOf(q), h.cpu, q.reading), h.cpu);
    }
  }

  lemma KindRefines(h: Hart, scause: u64, next: nat, kind: Kind)
    requires HartOk(h) && next in h.procs && (kind.Deferred? ==> kind.code.Syscall? || kind.code.PageFault?)
    ensures Matches(HartKind(h, Frame(h.cpu, scause), next, kind), KindStep(Abs(h), next, kind))
  {
    var f := Frame(h.cpu, scause);
    match kind
    case Fatal =>
    case Swap => SwapRefines(h, f, next);
    case Handled => HandledRefines(h, f, next);
    case Deferred(code) => DeferredRefines(h, f, next, code);
  }

  lemma TrapRefines(h: Hart, e: Event)
    requires HartOk(h) && HartEnabled(h, e) && Enabled(Abs(h), e) && e.Trap?
    ensures HartTrap(h, e).Done? <==> TrapStep(Abs(h), e).Done?
    ensures HartTrap(h, e).Done? ==> HartOk(HartTrap(h, e).value) && Abs(HartTrap(h, e).value) == TrapStep(Abs(h), e).value
  {
    var p := h.procs[h.cur];
    assert ProcessOk(p);
    KindRefines(h, e.scause, e.next, KindOf(e.scause, e.answer, !p.trapState.InProcess?, p.reading));
  }

  lemma LeaveRefines(h: Hart, e: Event)
    requires HartOk(h) && HartEnabled(h, e) && Enabled(Abs(h), e) && e.Leave?
    ensures HartLeave(h, e).Done?
    ensures HartOk(HartLeave(h, e).value) && Done(Abs(HartLeave(h, e).value)) == Step(Abs(h), e)
  {
    var p := h.procs[h.cur];
    EnabledAbs(h, e);
    assert ProcessOk(p);
    LeftOk(p, CallResponse(p, e));
    SameTasks(HartLeave(h, e).value, Step(Abs(h), e).value);
  }

  /** Every step of the three-frame kernel is the step of the stack machine: it
      halts exactly when that does, and otherwise keeps the invariant and lands
      where that does. */
  lemma StepRefines(h: Hart, e: Event)
    requires HartOk(h) && HartEnabled(h, e)
    ensures Enabled(Abs(h), e)
    ensures HartStep(h, e).Done? <==> Step(Abs(h), e).Done?
    ensures HartStep(h, e).Done? ==> HartOk(HartStep(h, e).value) && Abs(HartStep(h, e).value) == Step(Abs(h), e).value
  {
    EnabledAbs(h, e);
    match e
    case Trap(_, _, _) => TrapRefines(h, e);
    case Leave(_, _) => LeaveRefines(h, e);
    case Run(ctx) => RunRefinesStep(h, ctx);
    case Copying(on) => CopyingRefines(h, on);
  }

  lemma RunRefinesStep(h: Hart, ctx: Context)
    requires HartOk(h)
    ensures var task := Abs(h).tasks[h.cur];
            Matches(Done(h.(cpu := ctx)), Done(WithTask(Abs(h), task.(now := ctx))))
  {
    SameTasks(h.(cpu := ctx), WithTask(Abs(h), Abs(h).tasks[h.cur].(now := ctx)));
  }

  lemma CopyingRefines(h: Hart, on: bool)
    requires HartOk(h)
    ensures var task := Abs(h).tasks[h.cur];
            Matches(Done(WithProcess(h, h.procs[h.cur].(reading := on))), Done(WithTask(Abs(h), task.(reading := on))))
  {
    assert ProcessOk(h.procs[h.cur]);
    var q := h.procs[h.cur].(reading := on);
    CurrentChanged(h, q, Task(StackOf(q), h.cpu, on), h.cpu);
  }

  // ---- runs ----

  ghost predicate HartGoes(h: Hart, e: Event, k: Hart) {
    HartEnabled(h, e) && HartStep(h, e) == Done(k)
  }

  ghost predicate HartRun(hs: seq<Hart>, es: seq<Event>) {
    |hs| == |es| + 1 && HartOk(hs[0]) && forall i :: 0 <= i < |es| ==> HartGoes(hs[i], es[i], hs[i + 1])
  }

  ghost function AbsRun(hs: seq<Hart>): seq<System> {
    seq(|hs|, i requires 0 <= i < |hs| => Abs(hs[i]))
  }

  lemma {:induction false} RunOk(hs: seq<Hart>, es: seq<Event>, k: nat)
    requires HartRun(hs, es) && k < |hs|
    ensures HartOk(hs[k])
  {
    if k > 0 {
      RunOk(hs, es, k - 1);
      assert HartGoes(hs[k - 1], es[k - 1], hs[k]);
      StepRefines(hs[k - 1], es[k - 1]);
    }
  }

  /** Over every interleaving, in every state, the trap state of each process
      determines the mapped frame and the handlers that have not returned; the
      state of a trap being taken is never left behind. */
  lemma RunDetermined(hs: seq<Hart>, es: seq<Event>, k: nat, p: nat)
    requires HartRun(hs, es) && k < |hs| && p in hs[k].procs
    ensures var proc := hs[k].procs[p];
            && !proc.trapState.Uninterruptible?
            && (proc.mapped.UserFrame? <==> proc.trapState.InProcess?)
            && (proc.mapped.KernelFrame? <==> proc.trapState.Interruptible?)
            && (proc.mapped.FaultFrame? <==> proc.trapState.ReadUserspace?)
            && |proc.calls| == |StackOf(proc)|
  {
    RunOk(hs, es, k);
    assert ProcessOk(hs[k].procs[p]);
  }

  /** Every run of the kernel is a run of the stack machine. */
  lemma RunRefines(hs: seq<Hart>, es: seq<Event>)
    requires HartRun(hs, es)
    ensures IsRun(AbsRun(hs), es)
  {
    var ms := AbsRun(hs);
    forall i | 0 <= i < |es|
      ensures Goes(ms[i], es[i], ms[i + 1])
    {
      assert HartGoes(hs[i], es[i], hs[i + 1]);
      RunOk(hs, es, i);
      StepRefines(hs[i], es[i]);
    }
  }

  ghost predicate InHandlers(hs: seq<Hart>, p: nat, low: nat, k: nat, j: nat)
    requires j < |hs|
  {
    forall i :: k <= i <= j ==> p in hs[i].procs && |hs[i].procs[p].calls| > low
  }

  /** Step `j` ends the handler that process `p` entered at step `k`. */
  ghost predicate EndsHandler(hs: seq<Hart>, es: seq<Event>, p: nat, k: nat, j: nat) {
    && k < j < |es| < |hs|
    && hs[k].cur == p && hs[j].cur == p && es[j].Leave? && p in hs[k].procs && p in hs[j].procs
    && InHandlers(hs, p, |hs[k].procs[p].calls|, k + 1, j)
    && |hs[j].procs[p].calls| == |hs[k].procs[p].calls| + 1
  }

  lemma SameHeights(hs: seq<Hart>, es: seq<Event>, p: nat, k: nat, j: nat)
    requires HartRun(hs, es) && EndsHandler(hs, es, p, k, j)
    ensures var ms := AbsRun(hs);
            && p in ms[k].tasks && p in ms[j].tasks
            && |ms[k].tasks[p].stack| == |hs[k].procs[p].calls| && |ms[j].tasks[p].stack| == |hs[j].procs[p].calls|
            && DeeperThan(ms, p, |ms[k].tasks[p].stack|, k + 1, j)
  {
    forall i | k <= i <= j && p in hs[i].procs
      ensures |StackOf(hs[i].procs[p])| == |hs[i].procs[p].calls|
    {
      RunDetermined(hs, es, i, p);
    }
  }

  /** The stack machine's view of the same handler. */
  lemma SpecReturns(hs: seq<Hart>, es: seq<Event>, p: nat, k: nat, j: nat)
    requires HartRun(hs, es) && EndsHandler(hs, es, p, k, j)
    ensures var before, inside := TaskOf(hs[k], p), TaskOf(hs[j], p);
            && |inside.stack| == |before.stack| + 1
            && p in hs[j + 1].procs && TaskOf(hs[j + 1], p).stack == before.stack
            && TaskOf(hs[j + 1], p).now == Patched(before.now, LeaveResponse(inside, es[j]))
            && es[k].Trap? && Parse(es[k].scause).Done?
            && inside.stack[|before.stack|].code == Parse(es[k].scause).value.0
  {
    var ms := AbsRun(hs);
    RunRefines(hs, es);
    RunKeepsTasks(ms, es, k);
    SameHeights(hs, es, p, k, j);
    Returns(ms, es, p, k, j);
  }

  /** A trap of process `p` at step `k` whose handler ends at step `j`, with any
      interleaving in between: the process is back in the trap state and the frame
      mapping it was interrupted in, and the registers are those it had, save for
      the updates of a0 and the program counter its handler asked for. */
  lemma TrapReturns(hs: seq<Hart>, es: seq<Event>, p: nat, k: nat, j: nat)
    requires HartRun(hs, es) && EndsHandler(hs, es, p, k, j)
    ensures hs[j + 1].cur == p && p in hs[j + 1].procs
    ensures hs[j + 1].procs[p].trapState == hs[k].procs[p].trapState
    ensures hs[j + 1].procs[p].mapped == hs[k].procs[p].mapped
    ensures hs[j + 1].cpu == Patched(hs[k].cpu, CallResponse(hs[j].procs[p], es[j]))
    ensures es[k].Trap? && Parse(es[k].scause).Done?
    ensures hs[j].procs[p].calls[|hs[k].procs[p].calls|].code == Parse(es[k].scause).value.0
  {
    SpecReturns(hs, es, p, k, j);
    RunOk(hs, es, k);
    RunOk(hs, es, j);
    RunOk(hs, es, j + 1);
    assert HartGoes(hs[j], es[j], hs[j + 1]);
    EnabledAbs(hs[j], es[j]);
    LeaveStays(hs[j], es[j]);
    SameStack(hs[j + 1], hs[k], p);
    CodesMatch(hs[j].procs[p]);
  }

  lemma LeaveStays(h: Hart, e: Event)
    requires HartEnabled(h, e) && e.Leave? && HartStep(h, e).Done?
    ensures HartStep(h, e).value.cur == h.cur
  {
  }

  lemma SameStack(h: Hart, k: Hart, p: nat)
    requires HartOk(h) && HartOk(k) && p in h.procs && p in k.procs && TaskOf(h, p).stack == TaskOf(k, p).stack
    ensures h.procs[p].trapState == k.procs[p].trapState && h.procs[p].mapped == k.procs[p].mapped
  {
    assert ProcessOk(h.procs[p]) && ProcessOk(k.procs[p]);
  }

  /** The stack machine's codes are those of the pending handlers. */
  lemma CodesMatch(p: Process)
    ensures ProcessOk(p) ==> |StackOf(p)| == |p.calls| && forall i :: 0 <= i < |p.calls| ==> StackOf(p)[i].code == p.calls[i].code
  {
  }

  /** What reaches a process from the handler of its trap at step `k`: its a0 is
      written if and only if the trap was a page fault in a user copy and the page
      was not loaded. No system call returns a value. */
  lemma ResultReaches(hs: seq<Hart>, es: seq<Event>, p: nat, k: nat, j: nat)
    requires HartRun(hs, es) && EndsHandler(hs, es, p, k, j)
    ensures es[k].Trap? && Parse(es[k].scause).Done?
    ensures var written := Parse(es[k].scause).value.0.PageFault? && hs[k].procs[p].trapState.Interruptible? && !es[j].loaded;
            hs[j + 1].cpu.a0 == if written then 1 else hs[k].cpu.a0
    ensures IsSyscall(es[k].scause) ==> hs[j + 1].cpu == hs[k].cpu.(pc := Add64(hs[k].cpu.pc, 4))
  {
    TrapReturns(hs, es, p, k, j);
    RunOk(hs, es, k);
    RunOk(hs, es, j);
    assert ProcessOk(hs[k].procs[p]) && ProcessOk(hs[j].procs[p]);
    DepthOne(hs[k].procs[p], hs[j].procs[p]);
    var call := hs[j].procs[p].calls[|hs[k].procs[p].calls|];
    AnswerWrites(call.code, hs[j].procs[p].trapState.ReadUserspace?, es[j].answer, es[j].loaded);
  }

  lemma DepthOne(before: Process, inside: Process)
    requires ProcessOk(before) && ProcessOk(inside) && |inside.calls| == |before.calls| + 1
    ensures inside.trapState.ReadUserspace? <==> before.trapState.Interruptible?
    ensures var code := inside.calls[|before.calls|].code;
            code.Syscall? || code.PageFault?
  {
  }

  /** A process that is preempted at step `k` and next has its turn in state `j`
      continues with exactly the registers it had. */
  lemma PreemptionTransparent(hs: seq<Hart>, es: seq<Event>, p: nat, k: nat, j: nat)
    requires HartRun(hs, es) && k < j < |hs| && hs[k].cur == p && hs[j].cur == p
    requires forall i :: k < i < j ==> hs[i].cur != p
    requires IsTimer(es[k])
    ensures hs[j].cpu == hs[k].cpu && p in hs[k].procs && p in hs[j].procs
    ensures hs[j].procs[p].trapState == hs[k].procs[p].trapState
    ensures hs[j].procs[p].mapped == hs[k].procs[p].mapped
  {
    var ms := AbsRun(hs);
    RunRefines(hs, es);
    RunOk(hs, es, k);
    RunOk(hs, es, j);
    TurnToTurn(ms, es, p, k, j);
    SameStack(hs[j], hs[k], p);
  }
}
