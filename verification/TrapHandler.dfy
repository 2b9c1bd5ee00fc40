/**
 handle_sync_trap and the two halves of handle_async_trap, statement by statement
 on the kernel's own fields; they are proved to be the steps of Traps.
 */
module TrapHandler {
  import opened Machine
  import opened TrapSpec
  import opened Traps

  /** What handle_sync_trap returns to the assembly. */
  datatype Verdict = TrapHandled | TrapUnhandled | TrapSwap

  lemma SetTwice(procs: map<nat, Process>, cur: nat, p: Process, q: Process)
    ensures procs[cur := p][cur := q] == procs[cur := q]
  {
  }

  class Kernel {
    var cur: nat
    var cpu: Context
    var procs: map<nat, Process>

    ghost function State(): Hart
      reads this
    {
      Hart(cur, cpu, procs)
    }

    /** STORE_TRAP_FRAME */
    method StoreFrame(scause: u64)
      requires cur in procs
      modifies this`procs
      ensures procs == old(procs)[cur := WithFrame(old(procs)[cur], Frame(cpu, scause))]
    {
      procs := procs[cur := WithFrame(procs[cur], Frame(cpu, scause))];
    }

    /** LOAD_TRAP_FRAME */
    method LoadFrame()
      requires cur in procs
      modifies this`cpu
      ensures State() == Resumed(old(State()))
    {
      cpu := FrameAt(procs[cur]).ctx;
    }

    /** trap_data_set_response and trap_data_iter_instruction */
    method Respond(send: bool, value: u64, skip: bool)
      requires cur in procs
      modifies this`procs
      ensures procs == old(procs)[cur := PatchFrame(old(procs)[cur], Response(send, value, skip, false))]
    {
      var p := procs[cur];
      var f := FrameAt(p);
      if send {
        f := f.(ctx := f.ctx.(a0 := value));
      }
      if skip {
        f := f.(ctx := f.ctx.(pc := Add64(f.ctx.pc, 4)));
      }
      procs := procs[cur := WithFrame(p, f)];
    }

    method SetTrapState(t: TrapState)
      requires cur in procs
      modifies this`procs
      ensures procs == old(procs)[cur := old(procs)[cur].(trapState := t)]
    {
      procs := procs[cur := procs[cur].(trapState := t)];
    }

    /** The switch of handle_sync_trap, run while the trap state says that the
        process cannot be interrupted. */
    method Dispatch(scause: u64, answer: u64, past: TrapState) returns (r: Outcome<Verdict>)
      requires cur in procs
      modifies this`procs
      ensures var kind := KindOf(scause, answer, !past.InProcess?, old(procs)[cur].reading);
              && (r.Halt? <==> kind.Fatal?)
              && (kind.Swap? ==> r == Done(TrapSwap))
              && (kind.Handled? ==> r == Done(TrapHandled))
              && (kind.Deferred? ==> r == Done(TrapUnhandled))
              && procs == if kind.Handled? then old(procs)[cur := PatchFrame(old(procs)[cur], NextInstruction)] else old(procs)
    {
      var parsed := Parse(scause);
      if parsed.Halt? {
        return Halt;
      }
      var (code, mode) := parsed.value;
      match code {
        case AccessMisaligned | AccessFault | InstructionInvalid =>
          // killing the process is out of reach: the mode is never user mode here
          if mode.UserMode? {
            UserModeIsSyscall(scause);
          }
          r := Halt;
        case Syscall =>
          if answer == UNHANDLED {
            r := Done(TrapUnhandled);
          } else {
            var returned := FrameAt(procs[cur]).ctx.a0;
            Respond(true, returned, true);
            r := Done(TrapHandled);
          }
        case PageFault =>
          if !past.InProcess? && !procs[cur].reading {
            r := Halt;
          } else {
            r := Done(TrapUnhandled);
          }
        case TimerInterrupt =>
          if mode.SupervisorMode? {
            r := Done(TrapSwap);
          } else {
            r := Halt;
          }
        case _ =>
          r := Halt;
      }
    }

    /** handle_sync_trap */
    method HandleSyncTrap(answer: u64, next: nat) returns (r: Outcome<Verdict>)
      requires cur in procs && next in procs
      modifies this`procs, this`cur
      ensures var p := old(procs)[old(cur)];
              var kind := KindOf(FrameAt(p).scause, answer, !p.trapState.InProcess?, p.reading);
              && (r.Halt? <==> kind.Fatal?)
              && (kind.Swap? || kind.Handled? ==> r == Done(TrapHandled))
              && (kind.Deferred? ==> r == Done(TrapUnhandled))
              && (r.Done? ==> cur == if kind.Swap? then next else old(cur))
              && (r.Done? ==>
                    procs == if kind.Handled? then old(procs)[old(cur) := PatchFrame(p, NextInstruction)] else old(procs))
    {
      ghost var before := procs[cur];
      var past := procs[cur].trapState;
      SetTrapState(Uninterruptible);
      r := Dispatch(FrameAt(procs[cur]).scause, answer, past);
      if r.Halt? {
        return;
      }
      SetTrapState(past);
      assert before.(trapState := Uninterruptible).(trapState := past) == before;
      if r == Done(TrapSwap) {
        cur := next;
        r := Done(TrapHandled);
      }
    }

    /** handle_async_trap up to irq_enable */
    method EnterAsync() returns (halted: bool)
      requires cur in procs
      requires var parsed := Parse(FrameAt(procs[cur]).scause);
               parsed.Done? && (parsed.value.0.Syscall? || parsed.value.0.PageFault?)
      modifies this`procs
      ensures var code := Parse(FrameAt(old(procs)[cur]).scause).value.0;
              && halted == Entered(old(procs)[cur], code).Halt?
              && (!halted ==> procs == old(procs)[cur := Entered(old(procs)[cur], code).value])
    {
      var p := procs[cur];
      var code := Parse(FrameAt(p).scause).value.0;
      var past := p.trapState;
      match past {
        case Uninterruptible =>
          return true;
        case Interruptible =>
          if !code.PageFault? || !p.reading {
            return true;
          }
          p := p.(mapped := FaultFrame);
          p := p.(trapState := ReadUserspace);
        case InProcess =>
          p := p.(mapped := KernelFrame);
          p := p.(trapState := Interruptible);
        case ReadUserspace =>
          return true;
      }
      p := p.(calls := p.calls + [Call(past, code)]);
      procs := procs[cur := p];
      halted := false;
    }

    /** handle_async_trap from irq_disable on, and the return to what the trap
        interrupted */
    method LeaveAsync(answer: u64, loaded: bool) returns (halted: bool)
      requires HartEnabled(State(), Leave(answer, loaded))
      modifies this
      ensures halted == HartLeave(old(State()), Leave(answer, loaded)).Halt?
      ensures !halted ==> Done(State()) == HartLeave(old(State()), Leave(answer, loaded))
    {
      var p := procs[cur];
      var call := p.calls[|p.calls| - 1];
      var r := Answer(call.code, p.trapState.ReadUserspace?, answer, loaded);
      p := p.(calls := p.calls[..|p.calls| - 1]);
      match call.past {
        case InProcess =>
          p := p.(mapped := UserFrame);
        case Interruptible =>
          p := p.(mapped := KernelFrame);
        case _ =>
          return true;
      }
      p := p.(trapState := call.past);
      procs := procs[cur := p];
      assert r == Response(r.send, r.value, r.skip, false);
      SetTwice(old(procs), cur, p, PatchFrame(p, r));
      Respond(r.send, r.value, r.skip);
      LoadFrame();
      halted := false;
    }

    /** trap_entry, up to the return to a process or into a handler that can be
        interrupted */
    method TrapEntry(scause: u64, answer: u64, next: nat) returns (halted: bool)
      requires cur in procs && next in procs
      modifies this
      ensures halted == HartTrap(old(State()), Trap(scause, answer, next)).Halt?
      ensures !halted ==> Done(State()) == HartTrap(old(State()), Trap(scause, answer, next))
    {
      StoreFrame(scause);
      ghost var p := procs[cur];
      assert FrameAt(p) == Frame(cpu, scause);
      ghost var kind := KindOf(scause, answer, !p.trapState.InProcess?, p.reading);
      SetTwice(old(procs), cur, p, PatchFrame(p, NextInstruction));
      if kind.Deferred? && Entered(p, kind.code).Done? {
        SetTwice(old(procs), cur, p, Entered(p, kind.code).value);
      }
      var verdict := HandleSyncTrap(answer, next);
      if verdict.Halt? {
        return true;
      }
      if verdict == Done(TrapUnhandled) {
        halted := EnterAsync();
      } else {
        LoadFrame();
        halted := false;
      }
    }
  }
}
