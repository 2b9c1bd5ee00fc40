/**
 Round-robin scheduling: which process runs, which are queued, and what a swap,
 an admission and a death do to them.
 */
module Scheduler {
  import opened Machine

  datatype Kind = Normal | Idle | Dead

  datatype Process = Process(kind: Kind, running: bool)

  /** The hart: its current process, the queue in order, all processes, and its
      idle process. */
  datatype State = State(current: nat, queue: seq<nat>, procs: map<nat, Process>, idle: nat)

  datatype Event =
    /** create_init_process: a new normal process is queued */
    | Admit(pid: nat)
    /** trap_change_process */
    | Swap
    /** kill_process of the current process */
    | Kill

  const CAPACITY := 512

  // ---- steps ----

  function Queued(s: State, p: nat): Outcome<State> {
    if |s.queue| == CAPACITY then Halt else Done(s.(queue := s.queue + [p]))
  }

  /** scheduler_next */
  function Next(s: State): (State, nat) {
    if s.queue == [] then (s, s.idle) else (s.(queue := s.queue[1..]), s.queue[0])
  }

  /** context_change_process: the running flags, and a dead process is retired. */
  function ChangedProcs(procs: map<nat, Process>, old': nat, next: nat): map<nat, Process>
    requires old' in procs && next in procs
  {
    if next == old' then procs
    else
      var started := procs[next := procs[next].(running := true)];
      match procs[old'].kind
      case Normal => started[old' := procs[old'].(running := false)]
      case Idle => started
      case Dead => started - {old'}
  }

  /** trap_change_process. The pointers it follows are the current process and the
      one chosen; without a process behind them it has no meaning and halts. */
  function SwapStep(s: State): Outcome<State> {
    if s.current !in s.procs then Halt
    else
      var queued := if s.procs[s.current].kind.Normal? then Queued(s, s.current) else Done(s);
      if queued.Halt? then Halt
      else
        var (t, next) := Next(queued.value);
        if next !in s.procs then Halt
        else Done(t.(current := next, procs := ChangedProcs(s.procs, s.current, next)))
  }

  function Step(s: State, e: Event): Outcome<State> {
    match e
    case Admit(p) => Queued(s.(procs := s.procs[p := Process(Normal, false)]), p)
    case Swap => SwapStep(s)
    case Kill =>
      if s.current !in s.procs || s.procs[s.current].kind.Idle? then Halt
      else Done(s.(procs := s.procs[s.current := s.procs[s.current].(kind := Dead)]))
  }

  predicate EventOk(s: State, e: Event) {
    e.Admit? ==> e.pid !in s.procs
  }

  // ---- the invariant ----

  ghost predicate NoRepeats(q: seq<nat>) {
    forall i, j :: 0 <= i < j < |q| ==> q[i] != q[j]
  }

  /** What is true of one process. */
  ghost predicate ProcessOk(s: State, p: nat)
    requires p in s.procs
  {
    match s.procs[p].kind
    case Normal => (p == s.current <==> p !in s.queue) && (s.procs[p].running <==> p == s.current)
    case Idle => p == s.idle && p !in s.queue
    case Dead => p == s.current && p !in s.queue
  }

  /** Every normal process is either current or queued, once; idle and dead
      processes are not queued; the only dead process is the current one; a normal
      process has its running flag set exactly when it is current. */
  ghost predicate Ok(s: State) {
    && s.current in s.procs
    && s.idle in s.procs && s.procs[s.idle].kind.Idle?
    && NoRepeats(s.queue)
    && (forall p :: p in s.queue ==> p in s.procs && s.procs[p].kind.Normal?)
    && (forall p :: p in s.procs ==> ProcessOk(s, p))
  }

  /** context_bootstrap on a hart with only its idle process. */
  function Boot(idle: nat): State {
    State(idle, [], map[idle := Process(Idle, false)], idle)
  }

  lemma BootOk(idle: nat)
    ensures Ok(Boot(idle))
  {
  }

  lemma PushOk(q: seq<nat>, p: nat)
    requires NoRepeats(q) && p !in q
    ensures NoRepeats(q + [p]) && forall x :: x in q + [p] <==> x in q || x == p
  {
  }

  lemma PopOk(q: seq<nat>)
    requires NoRepeats(q) && q != []
    ensures NoRepeats(q[1..]) && q[0] !in q[1..] && forall x :: x in q <==> x in q[1..] || x == q[0]
  {
    assert q == [q[0]] + q[1..];
  }

  /** The queue that scheduler_next chooses from. */
  function Waiting(s: State): (q: seq<nat>)
    requires s.current in s.procs
  {
    if s.procs[s.current].kind.Normal? then s.queue + [s.current] else s.queue
  }

  /** A swap on the whole: the first waiting process runs, or the idle one if none
      waits. */
  lemma SwapIs(s: State)
    requires Ok(s)
    ensures SwapStep(s).Halt? <==> s.procs[s.current].kind.Normal? && |s.queue| == CAPACITY
    ensures SwapStep(s).Done? ==>
              var t := SwapStep(s).value;
              && t.current == (if Waiting(s) == [] then s.idle else Waiting(s)[0])
              && t.queue == (if Waiting(s) == [] then [] else Waiting(s)[1..])
              && t.idle == s.idle
  {
    assert ProcessOk(s, s.current);
    NextKnown(s, if Waiting(s) == [] then s.idle else Waiting(s)[0]);
  }

  lemma SwapKeeps(s: State)
    requires Ok(s) && SwapStep(s).Done?
    ensures Ok(SwapStep(s).value)
  {
    var t, q := SwapStep(s).value, Waiting(s);
    SwapIs(s);
    assert ProcessOk(s, s.current) && ProcessOk(s, s.idle);
    if s.procs[s.current].kind.Normal? {
      PushOk(s.queue, s.current);
    }
    if q != [] {
      PopOk(q);
      assert q[0] in q;
    }
    forall p | p in t.procs
      ensures ProcessOk(t, p)
    {
      assert p in s.procs && ProcessOk(s, p);
    }
  }

  lemma AdmitKeeps(s: State, p: nat)
    requires Ok(s) && EventOk(s, Admit(p)) && Step(s, Admit(p)).Done?
    ensures Ok(Step(s, Admit(p)).value)
  {
    var t := Step(s, Admit(p)).value;
    PushOk(s.queue, p);
    forall x | x in t.procs
      ensures ProcessOk(t, x)
    {
      if x != p {
        assert ProcessOk(s, x);
      }
    }
  }

  lemma StepKeeps(s: State, e: Event)
    requires Ok(s) && EventOk(s, e) && Step(s, e).Done?
    ensures Ok(Step(s, e).value)
  {
    match e
    case Admit(p) => AdmitKeeps(s, p);
    case Swap => SwapKeeps(s);
    case Kill =>
      var t := Step(s, e).value;
      forall x | x in t.procs
        ensures ProcessOk(t, x)
      {
        assert ProcessOk(s, x);
      }
  }

  // ---- runs ----

  ghost predicate Goes(s: State, e: Event, t: State) {
    EventOk(s, e) && Step(s, e) == Done(t)
  }

  ghost predicate IsRun(ss: seq<State>, es: seq<Event>) {
    |ss| == |es| + 1 && Ok(ss[0]) && forall i :: 0 <= i < |es| ==> Goes(ss[i], es[i], ss[i + 1])
  }

  /** In every state of every run of admissions, swaps and deaths that starts in a
      state with the invariant, such as the one after booting, a process that
      is alive is current or queued, and not both; it is queued once; idle and dead
      processes are not queued; the running flag of a normal process tells whether
      it is current. */
  lemma {:induction false} RunSchedules(ss: seq<State>, es: seq<Event>, k: nat, p: nat)
    requires IsRun(ss, es) && k < |ss|
    ensures Ok(ss[k])
    ensures p in ss[k].procs && ss[k].procs[p].kind.Normal? ==>
              && (p == ss[k].current <==> p !in ss[k].queue)
              && (ss[k].procs[p].running <==> p == ss[k].current)
    ensures p in ss[k].queue ==>
              p in ss[k].procs && ss[k].procs[p].kind.Normal? && multiset(ss[k].queue)[p] == 1
  {
    if k > 0 {
      RunSchedules(ss, es, k - 1, p);
      assert Goes(ss[k - 1], es[k - 1], ss[k]);
      StepKeeps(ss[k - 1], es[k - 1]);
    }
    if p in ss[k].procs {
      assert ProcessOk(ss[k], p);
    }
    if p in ss[k].queue {
      Once(ss[k].queue, p);
    }
  }

  lemma {:induction false} Once(q: seq<nat>, p: nat)
    requires NoRepeats(q) && p in q
    ensures multiset(q)[p] == 1
  {
    assert q == [q[0]] + q[1..];
    if p in q[1..] {
      PopOk(q);
      Once(q[1..], p);
    } else {
      assert multiset(q[1..])[p] == 0;
    }
  }

  // ---- fairness ----

  /** The state after `n` swaps in a row. */
  ghost function Swaps(s: State, n: nat): Outcome<State>
    decreases n
  {
    if n == 0 then Done(s)
    else
      match Swaps(s, n - 1)
      case Halt => Halt
      case Done(t) => SwapStep(t)
  }

  /** With `n` runnable processes, the k-th of the next `n` swaps chooses the k-th
      waiting process, and the others wait in order. */
  lemma {:induction false} SwapsChoose(s: State, k: nat)
    requires Ok(s) && 0 < k <= |Waiting(s)| <= CAPACITY
    ensures Swaps(s, k).Done? && Ok(Swaps(s, k).value)
    ensures var t := Swaps(s, k).value;
            && t.current == Waiting(s)[k - 1]
            && t.procs[t.current].kind.Normal?
            && t.queue == Waiting(s)[k..] + Waiting(s)[..k - 1]
  {
    if k == 1 {
      assert Swaps(s, 0) == Done(s);
      FirstSwap(s);
    } else {
      SwapsChoose(s, k - 1);
      var t := Swaps(s, k - 1).value;
      SwapIs(t);
      SwapKeeps(t);
      RotateQueue(Waiting(s), k);
      assert ProcessOk(SwapStep(t).value, SwapStep(t).value.current);
    }
  }

  /** Without admissions or deaths, `n` runnable processes are each chosen exactly
      once in any `n` swaps in a row. */
  lemma EachOnce(s: State, p: nat)
    requires Ok(s) && |Waiting(s)| <= CAPACITY && p in s.procs && s.procs[p].kind.Normal?
    ensures exists k: nat :: 0 < k <= |Waiting(s)| && Swaps(s, k).Done? && Swaps(s, k).value.current == p
    ensures forall j: nat, k: nat :: 0 < j < k <= |Waiting(s)| && Swaps(s, j).Done? && Swaps(s, k).Done? ==>
              Swaps(s, j).value.current != Swaps(s, k).value.current
  {
    var q := Waiting(s);
    assert ProcessOk(s, p) && ProcessOk(s, s.current);
    if s.procs[s.current].kind.Normal? {
      PushOk(s.queue, s.current);
    }
    var i :| 0 <= i < |q| && q[i] == p;
    SwapsChoose(s, i + 1);
    forall j: nat, k: nat | 0 < j < k <= |q| && Swaps(s, j).Done? && Swaps(s, k).Done?
      ensures Swaps(s, j).value.current != Swaps(s, k).value.current
    {
      SwapsChoose(s, j);
      SwapsChoose(s, k);
    }
  }

  lemma FirstSwap(s: State)
    requires Ok(s) && 0 < |Waiting(s)| <= CAPACITY
    ensures SwapStep(s).Done? && Ok(SwapStep(s).value)
    ensures SwapStep(s).value.current == Waiting(s)[0] && SwapStep(s).value.queue == Waiting(s)[1..]
    ensures SwapStep(s).value.procs[Waiting(s)[0]].kind.Normal?
  {
    SwapIs(s);
    SwapKeeps(s);
    var t := SwapStep(s).value;
    assert Waiting(s)[0] in Waiting(s);
    assert ProcessOk(s, Waiting(s)[0]);
  }

  lemma RotateQueue(turns: seq<nat>, k: nat)
    requires 1 < k <= |turns|
    ensures var q := turns[k - 1..] + turns[..k - 2] + [turns[k - 2]];
            q[0] == turns[k - 1] && q[1..] == turns[k..] + turns[..k - 1]
  {
  }

  // ---- the ring buffer ----

  function Slot(start: nat, i: nat): (k: nat)
    ensures k < CAPACITY
  {
    (start + i) % CAPACITY
  }

  lemma SlotsDiffer(start: nat, i: nat, j: nat)
    requires i < j < CAPACITY && start < CAPACITY
    ensures Slot(start, i) != Slot(start, j)
  {
  }

  lemma SlotShift(start: nat, i: nat)
    ensures Slot(Slot(start, 1), i) == Slot(start, i + 1)
  {
  }

  /** The queue in a ring. */
  ghost function RingSeq(ring: seq<nat>, start: nat, count: nat): (q: seq<nat>)
    requires |ring| == CAPACITY
    ensures |q| == count && forall i :: 0 <= i < count ==> q[i] == ring[Slot(start, i)]
  {
    seq(count, i requires 0 <= i < count => ring[Slot(start, i)])
  }

  class Hart {
    /** process_queue with its start and count */
    const ring: array<nat>
    var start: nat
    var count: nat
    var current: nat
    const idle: nat
    var procs: map<nat, Process>

    ghost predicate RingOk()
      reads this, ring
    {
      ring.Length == CAPACITY && start < CAPACITY && count <= CAPACITY
    }

    /** The queue the ring stands for. */
    ghost function Contents(): (q: seq<nat>)
      requires RingOk()
      reads this, ring
      ensures |q| == count
    {
      RingSeq(ring[..], start, count)
    }

    ghost function Abs(): State
      requires RingOk()
      reads this, ring
    {
      State(current, Contents(), procs, idle)
    }

    ghost predicate Valid()
      reads this, ring
    {
      RingOk() && Ok(Abs())
    }

    /** schedular_init and context_bootstrap */
    constructor (idle: nat)
      ensures Valid() && Abs() == Boot(idle) && fresh(ring)
    {
      ring := new nat[CAPACITY](_ => 0);
      start, count := 0, 0;
      this.idle, current := idle, idle;
      procs := map[idle := Process(Idle, false)];
      new;
      BootOk(idle);
      assert Contents() == [];
    }

    /** scheduler_queue_process */
    method QueueProcess(p: nat) returns (halted: bool)
      requires RingOk()
      modifies ring, this`count
      ensures RingOk()
      ensures halted == (|old(Contents())| == CAPACITY)
      ensures Contents() == if halted then old(Contents()) else old(Contents()) + [p]
    {
      if count == CAPACITY {
        return true;
      }
      ghost var q := Contents();
      var k := Slot(start, count);
      ring[k] := p;
      count := count + 1;
      forall i | 0 <= i < count - 1
        ensures ring[Slot(start, i)] == q[i]
      {
        SlotsDiffer(start, i, count - 1);
      }
      assert Contents() == q + [p];
      return false;
    }

    /** scheduler_next */
    method NextProcess() returns (p: nat)
      requires RingOk()
      modifies this`start, this`count
      ensures RingOk()
      ensures old(Contents()) == [] ==> p == idle && Contents() == []
      ensures old(Contents()) != [] ==> p == old(Contents())[0] && Contents() == old(Contents())[1..]
    {
      if count == 0 {
        return idle;
      }
      ghost var q := Contents();
      p := ring[start];
      assert Slot(start, 0) == start;
      ghost var before := start;
      start := (start + 1) % CAPACITY;
      count := count - 1;
      forall i | 0 <= i < count
        ensures ring[Slot(start, i)] == q[i + 1]
      {
        SlotShift(before, i);
      }
      assert Contents() == q[1..];
    }

    /** context_change_process */
    method ChangeProcess(next: nat)
      requires current in procs && next in procs
      modifies this`current, this`procs
      ensures current == next && procs == ChangedProcs(old(procs), old(current), next)
    {
      if current == next {
        return;
      }
      var old' := current;
      current := next;
      procs := procs[next := procs[next].(running := true)];
      match procs[old'].kind {
        case Normal =>
          procs := procs[old' := procs[old'].(running := false)];
        case Idle =>
        case Dead =>
          procs := procs - {old'};
      }
    }

    /** create_init_process, the process itself aside */
    method AdmitProcess(p: nat) returns (halted: bool)
      requires Valid() && p !in procs
      modifies ring, this`count, this`procs
      ensures halted == Step(old(Abs()), Admit(p)).Halt?
      ensures !halted ==> Valid() && Done(Abs()) == Step(old(Abs()), Admit(p))
    {
      ghost var s := Abs();
      procs := procs[p := Process(Normal, false)];
      halted := QueueProcess(p);
      if !halted {
        AdmitMade(s, p, Abs());
      }
    }

    /** kill_process of the current process, which is running */
    method KillCurrent() returns (halted: bool)
      requires Valid()
      modifies this`procs
      ensures halted == Step(old(Abs()), Event.Kill).Halt?
      ensures !halted ==> Valid() && Done(Abs()) == Step(old(Abs()), Event.Kill)
    {
      ghost var s := Abs();
      if procs[current].kind.Idle? {
        return true;
      }
      procs := procs[current := procs[current].(kind := Dead)];
      StepKeeps(s, Event.Kill);
      return false;
    }

    /** The first half of trap_change_process. */
    method QueueCurrent() returns (halted: bool)
      requires RingOk() && current in procs
      modifies ring, this`count
      ensures RingOk()
      ensures halted == (procs[current].kind.Normal? && |old(Contents())| == CAPACITY)
      ensures !halted ==> Contents() == Waiting(State(current, old(Contents()), procs, idle))
    {
      halted := false;
      if procs[current].kind.Normal? {
        halted := QueueProcess(current);
      }
    }

    /** trap_change_process */
    method Swap() returns (halted: bool)
      requires Valid()
      modifies this, ring
      ensures halted == SwapStep(old(Abs())).Halt?
      ensures !halted ==> Valid() && Done(Abs()) == SwapStep(old(Abs()))
    {
      ghost var s := Abs();
      halted := QueueCurrent();
      if halted {
        return;
      }
      var next := NextProcess();
      NextKnown(s, next);
      ghost var rest := Contents();
      ChangeProcess(next);
      assert Contents() == rest;
      SwapMade(s, Abs());
    }
  }

  lemma AdmitMade(s: State, p: nat, t: State)
    requires Ok(s) && p !in s.procs && |s.queue| < CAPACITY
    requires t == s.(queue := s.queue + [p], procs := s.procs[p := Process(Normal, false)])
    ensures Step(s, Admit(p)) == Done(t) && Ok(t)
  {
    AdmitKeeps(s, p);
  }

  /** The parts of a swap put together. */
  lemma SwapMade(s: State, t: State)
    requires Ok(s) && !(s.procs[s.current].kind.Normal? && |s.queue| == CAPACITY)
    requires t.current == (if Waiting(s) == [] then s.idle else Waiting(s)[0]) && t.current in s.procs
    requires t.queue == (if Waiting(s) == [] then [] else Waiting(s)[1..])
    requires t.procs == ChangedProcs(s.procs, s.current, t.current) && t.idle == s.idle
    ensures SwapStep(s) == Done(t) && Ok(t)
  {
    SwapIs(s);
    SwapKeeps(s);
  }

  lemma NextKnown(s: State, next: nat)
    requires Ok(s) && next == (if Waiting(s) == [] then s.idle else Waiting(s)[0])
    ensures next in s.procs
  {
    assert Waiting(s) != [] ==> Waiting(s)[0] in Waiting(s);
  }
}
