/**
 The frame switches of handle_async_trap on the page tables: the trap frame that the
 trap model says is mapped is the one the address space maps.
 */
module TrapSpace {
  import opened Machine
  import opened Sv39
  import opened PageEditor
  import opened ProcessSpace
  import TrapSpec
  import Traps

  function FrameFor(p: Process, slot: Traps.Slot): (frame: u64)
    ensures frame in TrapFrames(p)
  {
    match slot
    case UserFrame => p.userFrame
    case KernelFrame => p.kernelFrame
    case FaultFrame => p.faultFrame
  }

  /** The process's space has its layout, with the frame mapped that the trap model
      has mapped. */
  ghost predicate InStep(t: TableMemory, p: Process, user: UserHalf, hart: seq<u64>, q: Traps.Process)
    reads t
  {
    && t.Valid() && Laid(t, p, user, FrameFor(p, q.mapped), hart)
    && forall f :: f in TrapFrames(p) ==> IsKernelPage(f)
  }

  /** So between traps the trap state decides which frame the tables map. */
  lemma StateDecides(t: TableMemory, p: Process, user: UserHalf, hart: seq<u64>, q: Traps.Process)
    requires InStep(t, p, user, hart, q) && Traps.ProcessOk(q)
    ensures HasLayout(t.mem, p.root, user, [FrameFor(p, Traps.SlotFor(q.trapState))], p.stack, hart)
  {
  }

  /** The first half of handle_async_trap with its vma_map_kernel call: it halts only
      where the trap model does or for want of pages, and keeps tables and trap model
      in step. */
  method Enter(t: TableMemory, p: Process, ghost user: UserHalf, ghost hart: seq<u64>, q: Traps.Process, code: TrapSpec.Code) returns (r: Outcome<Traps.Process>)
    requires InStep(t, p, user, hart, q)
    modifies t
    ensures t.Valid()
    ensures Traps.Entered(q, code).Halt? ==> r.Halt?
    ensures r.Halt? ==> Traps.Entered(q, code).Halt? || old(t.Spare()) < 2
    ensures r.Done? ==>
              && r == Traps.Entered(q, code) && InStep(t, p, user, hart, r.value)
              && RestSince(t, p.root, old(Now(t, p.root)))
  {
    var next;
    match q.trapState {
      case InProcess =>
        next := p.kernelFrame;
      case Interruptible =>
        if !code.PageFault? || !q.reading {
          return Halt;
        }
        next := p.faultFrame;
      case _ =>
        return Halt;
    }
    var mapped := SwitchFrame(t, p, user, FrameFor(p, q.mapped), hart, next);
    r := if mapped.Halt? then Halt else Traps.Entered(q, code);
  }

  /** The second half. */
  method Leave(t: TableMemory, p: Process, ghost user: UserHalf, ghost hart: seq<u64>, q: Traps.Process, response: TrapSpec.Response) returns (r: Outcome<Traps.Process>)
    requires InStep(t, p, user, hart, q) && q.calls != []
    modifies t
    ensures t.Valid()
    ensures Traps.Left(q, response).Halt? ==> r.Halt?
    ensures r.Halt? ==> Traps.Left(q, response).Halt? || old(t.Spare()) < 2
    ensures r.Done? ==>
              && r == Traps.Left(q, response) && InStep(t, p, user, hart, r.value)
              && RestSince(t, p.root, old(Now(t, p.root)))
  {
    var next;
    match q.calls[|q.calls| - 1].past {
      case InProcess =>
        next := p.userFrame;
      case Interruptible =>
        next := p.kernelFrame;
      case _ =>
        return Halt;
    }
    var mapped := SwitchFrame(t, p, user, FrameFor(p, q.mapped), hart, next);
    r := if mapped.Halt? then Halt else Traps.Left(q, response);
  }

  /** A new process starts in step. */
  lemma StartsInStep(t: TableMemory, p: Process, user: UserHalf, hart: seq<u64>, q: Traps.Process)
    requires t.Valid() && Laid(t, p, user, p.userFrame, hart) && FramesHeld(t, p)
    requires q.trapState.InProcess? && q.mapped.UserFrame? && q.calls == []
    ensures InStep(t, p, user, hart, q) && Traps.ProcessOk(q)
  {
    assert forall f :: f in TrapFrames(p) ==> f in Frames(p);
  }
}
