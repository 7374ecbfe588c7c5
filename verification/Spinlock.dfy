/** Interrupt-masking locks on a uniprocessor, as a step system.

    Between any two micro-steps of `lock` and `drop` an interrupt handler may run if the
    interrupt flag is set.  The gate clears the flag on entry and `iret` restores it.
    Handlers may take and release locks themselves. */
module Spinlock {
  import opened Wrappers

  type Mutex = nat

  /** Where a piece of code is: outside both functions, or before one of their micro-steps. */
  datatype Pc =
    | Idle
    // lock()
    | ReadFlag(m: Mutex)               // about to note the interrupt flag
    | Disable(m: Mutex, was: bool)     // about to turn interrupts off
    | TestCount(m: Mutex, was: bool)   // about to look whether this is the outermost lock
    | SaveFlag(m: Mutex, was: bool)    // about to store the noted flag in INT_ENABLED
    | CountUp(m: Mutex)                // about to increment LOCK_COUNT
    | Acquire(m: Mutex)                // waiting for the inner lock
    // drop()
    | Release(m: Mutex)                // about to release the inner lock
    | CountDown                        // about to decrement LOCK_COUNT
    | TestDown                         // about to look whether this was the last guard
    | TestWanted                       // about to read INT_ENABLED
    | Enable                           // about to turn interrupts on

  /** One activation: the main code or a handler.  `entry` is the interrupt flag at its last
      outermost call of `lock`; `saved` is the flag that the hardware pushed on entry. */
  datatype Frame = Frame(pc: Pc, guards: set<Mutex>, entry: bool, saved: bool)

  /** `stack[0]` is the main code; the last frame is the one running. */
  datatype State = State(iflag: bool, count: nat, wanted: bool, held: set<Mutex>, stack: seq<Frame>)

  datatype Action = Lock(m: Mutex) | Drop(m: Mutex) | Micro | Interrupt | Iret | EnableIrq

  function Top(s: State): Frame
    requires |s.stack| > 0
  {
    s.stack[|s.stack| - 1]
  }

  function WithTop(s: State, f: Frame): State
    requires |s.stack| > 0
  {
    s.(stack := s.stack[|s.stack| - 1 := f])
  }

  /** How often a frame has counted itself in LOCK_COUNT. */
  function Depth(f: Frame): nat {
    |f.guards| + if f.pc.Acquire? || f.pc.CountDown? then 1 else 0
  }

  /** Outside both functions and holding nothing. */
  predicate Free(f: Frame) { f.pc.Idle? && f.guards == {} }

  /** The next micro-step of the running frame. */
  function MicroStep(s: State): State
    requires |s.stack| > 0
  {
    var f := Top(s);
    match f.pc
    case Idle => s
    case ReadFlag(m) => WithTop(s, f.(pc := Disable(m, s.iflag)))
    case Disable(m, was) => WithTop(s, f.(pc := TestCount(m, was))).(iflag := false)
    case TestCount(m, was) => WithTop(s, f.(pc := if s.count == 0 then SaveFlag(m, was) else CountUp(m)))
    case SaveFlag(m, was) => WithTop(s, f.(pc := CountUp(m))).(wanted := was)
    case CountUp(m) => WithTop(s, f.(pc := Acquire(m))).(count := s.count + 1)
    case Acquire(m) =>
      if m in s.held then s  // spin
      else WithTop(s, f.(pc := Idle, guards := f.guards + {m})).(held := s.held + {m})
    case Release(m) => WithTop(s, f.(pc := CountDown, guards := f.guards - {m})).(held := s.held - {m})
    case CountDown => WithTop(s, f.(pc := TestDown)).(count := if s.count > 0 then s.count - 1 else 0)
    case TestDown => WithTop(s, f.(pc := if s.count == 0 then TestWanted else Idle))
    case TestWanted => WithTop(s, f.(pc := if s.wanted then Enable else Idle))
    case Enable => WithTop(s, f.(pc := Idle)).(iflag := true)
  }

  /** The state after an action, or None if the action is not possible. */
  function Exec(s: State, a: Action): Option<State>
    requires |s.stack| > 0
  {
    var f := Top(s);
    match a
    case Lock(m) =>
      if f.pc.Idle? then Some(WithTop(s, f.(pc := ReadFlag(m), entry := if f.guards == {} then s.iflag else f.entry))) else None
    case Drop(m) =>
      if f.pc.Idle? && m in f.guards then Some(WithTop(s, f.(pc := Release(m)))) else None
    case Micro =>
      if f.pc.Idle? then None else Some(MicroStep(s))
    case Interrupt =>
      if s.iflag then Some(s.(iflag := false, stack := s.stack + [Frame(Idle, {}, false, s.iflag)])) else None
    case Iret =>
      if |s.stack| > 1 && Free(f) then Some(s.(iflag := f.saved, stack := s.stack[..|s.stack| - 1])) else None
    case EnableIrq =>
      // main() turns interrupts on once it is set up, holding no lock
      if |s.stack| == 1 && Free(f) then Some(s.(iflag := true)) else None
  }

  ghost predicate Init(s: State) {
    !s.iflag && s.count == 0 && !s.wanted && s.held == {} && |s.stack| == 1 && Free(s.stack[0])
  }

  /** A run: states connected by actions. */
  ghost predicate IsRun(run: seq<State>, acts: seq<Action>) {
    && |run| == |acts| + 1 && Init(run[0])
    && forall i :: 0 <= i < |acts| ==> |run[i].stack| > 0 && Exec(run[i], acts[i]) == Some(run[i + 1])
  }

  // ----- the invariant -----

  /** A frame that an interrupt has suspended: it holds nothing and saw interrupts enabled. */
  ghost predicate Suspended(f: Frame) {
    && f.guards == {}
    && (f.pc.Idle? || (f.pc.ReadFlag? && f.entry) || (f.pc.Disable? && f.pc.was && f.entry))
  }

  /** What holds at each point of the running frame's code. */
  ghost predicate RunningOk(s: State)
    requires |s.stack| > 0
  {
    var f := Top(s);
    match f.pc
    case Idle => f.guards != {} ==> !s.iflag && s.wanted == f.entry
    case ReadFlag(m) => if f.guards == {} then s.iflag == f.entry else !s.iflag && s.wanted == f.entry
    case Disable(m, was) =>
      if f.guards == {} then s.iflag == f.entry == was else !s.iflag && s.wanted == f.entry
    case TestCount(m, was) => !s.iflag && if f.guards == {} then was == f.entry else s.wanted == f.entry
    case SaveFlag(m, was) => !s.iflag && f.guards == {} && was == f.entry
    case Enable => !s.iflag && f.guards == {} && f.entry
    case TestWanted => !s.iflag && f.guards == {} && s.wanted == f.entry
    case Release(m) => m in f.guards && !s.iflag && s.wanted == f.entry
    case _ => !s.iflag && s.wanted == f.entry
  }

  ghost predicate Inv(s: State) {
    && 1 <= |s.stack| <= 2
    && (|s.stack| == 2 ==> Suspended(s.stack[0]) && s.stack[1].saved && !s.iflag && (!Free(s.stack[1]) ==> !s.stack[1].entry))
    && s.count == Depth(Top(s)) && s.held == Top(s).guards
    && RunningOk(s)
  }

  lemma LockStepKeeps(s: State)
    requires Inv(s)
    requires var pc := Top(s).pc;
             pc.ReadFlag? || pc.Disable? || pc.TestCount? || pc.SaveFlag? || pc.CountUp? || pc.Acquire?
    ensures Inv(MicroStep(s))
  {
  }

  lemma DropStepKeeps(s: State)
    requires Inv(s)
    requires var pc := Top(s).pc;
             pc.Release? || pc.CountDown? || pc.TestDown? || pc.TestWanted? || pc.Enable?
    ensures Inv(MicroStep(s))
  {
    var f := Top(s);
    if f.pc.Release? {
      assert |f.guards - {f.pc.m}| == |f.guards| - 1;
    }
  }

  lemma ExecKeeps(s: State, a: Action)
    requires Inv(s) && Exec(s, a).Some?
    ensures Inv(Exec(s, a).value)
  {
    if a.Micro? {
      var pc := Top(s).pc;
      if pc.ReadFlag? || pc.Disable? || pc.TestCount? || pc.SaveFlag? || pc.CountUp? || pc.Acquire? {
        LockStepKeeps(s);
      } else {
        DropStepKeeps(s);
      }
    }
  }

  /** The invariant holds in every state of every run. */
  lemma {:induction false} RunInv(run: seq<State>, acts: seq<Action>, i: nat)
    requires IsRun(run, acts) && i < |run|
    ensures Inv(run[i])
    decreases i
  {
    if i > 0 {
      RunInv(run, acts, i - 1);
      assert Exec(run[i - 1], acts[i - 1]) == Some(run[i]);
      ExecKeeps(run[i - 1], acts[i - 1]);
    }
  }

  // ----- what it means -----

  /** Interrupts on means no lock is held; handlers never nest; LOCK_COUNT never underflows;
      and a lock is free when it is asked for, unless the same code holds it already. */
  lemma LockSafety(run: seq<State>, acts: seq<Action>, i: nat)
    requires IsRun(run, acts) && i < |run|
    ensures var s := run[i];
            && |s.stack| > 0
            && (s.iflag ==> s.count == 0 && s.held == {})
            && |s.stack| <= 2 && (|s.stack| == 2 ==> !s.iflag && s.stack[0].guards == {})
            && (Top(s).pc.CountDown? ==> s.count > 0)
            && (Top(s).pc.Acquire? && Top(s).pc.m in s.held ==> Top(s).pc.m in Top(s).guards)
  {
    RunInv(run, acts, i);
  }

  /** No step of any frame changes what a busy frame has on record, or removes it. */
  lemma EntryStep(s: State, a: Action, d: nat)
    requires Inv(s) && Exec(s, a).Some? && d < |s.stack| && !Free(s.stack[d])
    ensures var s' := Exec(s, a).value;
            d < |s'.stack| && s'.stack[d].entry == s.stack[d].entry
            && (Free(s'.stack[d]) ==> |s'.stack| == |s.stack| == d + 1 && s'.iflag == s.stack[d].entry)
  {
  }

  /** The flag at an outermost lock() stays on record until the frame is free again, whatever
      handlers do in between. */
  lemma {:induction false} EntryKept(run: seq<State>, acts: seq<Action>, i: nat, k: nat, d: nat)
    requires IsRun(run, acts) && i < k < |run|
    requires |run[i].stack| == d + 1 && Free(Top(run[i])) && acts[i].Lock?
    requires forall j :: i < j < k && d < |run[j].stack| ==> !Free(run[j].stack[d])
    ensures d < |run[k].stack| && run[k].stack[d].entry == run[i].iflag
    ensures i + 1 == k ==> !Free(run[k].stack[d])
    decreases k
  {
    hide Inv, MicroStep;
    assert Exec(run[k - 1], acts[k - 1]) == Some(run[k]);
    if i < k - 1 {
      hide Exec;
      EntryKept(run, acts, i, k - 1, d);
      RunInv(run, acts, k - 1);
      EntryStep(run[k - 1], acts[k - 1], d);
    }
  }

  /** Once the code that took the outermost lock is free again, with its guards dropped in
      whatever order, the interrupt flag is what it was at that lock(). */
  lemma FlagRestored(run: seq<State>, acts: seq<Action>, i: nat, k: nat, d: nat)
    requires IsRun(run, acts) && i < k < |run|
    requires |run[i].stack| == d + 1 && Free(Top(run[i])) && acts[i].Lock?
    requires forall j :: i < j < k && d < |run[j].stack| ==> !Free(run[j].stack[d])
    requires d < |run[k].stack| && Free(run[k].stack[d])
    ensures |run[k].stack| == d + 1 && run[k].iflag == run[i].iflag
  {
    hide Inv, Exec;
    EntryKept(run, acts, i, k, d);
    EntryKept(run, acts, i, k - 1, d);
    RunInv(run, acts, k - 1);
    EntryStep(run[k - 1], acts[k - 1], d);
  }

  // ----- undisturbed execution -----

  /** How many micro-steps are left, at most. */
  function StepsLeft(pc: Pc): nat {
    match pc
    case Idle => 0
    case ReadFlag(_) => 6
    case Disable(_, _) => 5
    case TestCount(_, _) => 4
    case SaveFlag(_, _) => 3
    case CountUp(_) => 2
    case Acquire(_) => 1
    case Release(_) => 5
    case CountDown => 4
    case TestDown => 3
    case TestWanted => 2
    case Enable => 1
  }

  class Cpu {
    var s: State

    /** One action. */
    method Do(a: Action)
      requires Inv(s) && Exec(s, a).Some?
      modifies this
      ensures s == Exec(old(s), a).value && Inv(s)
    {
      ExecKeeps(s, a);
      s := Exec(s, a).value;
    }

    /** `lock()` of a mutex that the code does not hold ends after at most six steps: the inner
        lock is never found taken. */
    method LockNow(m: Mutex)
      requires Inv(s) && Top(s).pc.Idle? && m !in Top(s).guards
      modifies this
      ensures Inv(s) && |s.stack| == |old(s).stack| && s.stack[..|s.stack| - 1] == old(s).stack[..|s.stack| - 1]
      ensures Top(s).pc.Idle? && Top(s).guards == Top(old(s)).guards + {m}
      ensures s.held == old(s).held + {m} && s.count == old(s).count + 1 && !s.iflag
      ensures s.wanted == if Top(old(s)).guards == {} then old(s).iflag else old(s).wanted
    {
      hide MicroStep, RunningOk, Depth;
      Do(Lock(m));
      while !Top(s).pc.Idle?
        invariant Inv(s) && |s.stack| == |old(s).stack| && s.stack[..|s.stack| - 1] == old(s).stack[..|s.stack| - 1]
        invariant LockPath(old(s), s, m)
        decreases StepsLeft(Top(s).pc)
      {
        LockStepKeeps(s);
        LockPathStep(old(s), s, m);
        s := MicroStep(s);
      }
    }

    /** `drop()` of a held guard ends after at most five steps. */
    method DropNow(m: Mutex)
      requires Inv(s) && Top(s).pc.Idle? && m in Top(s).guards
      modifies this
      ensures Inv(s) && |s.stack| == |old(s).stack| && s.stack[..|s.stack| - 1] == old(s).stack[..|s.stack| - 1]
      ensures Top(s).pc.Idle? && Top(s).guards == Top(old(s)).guards - {m}
      ensures s.held == old(s).held - {m} && s.count == old(s).count - 1 && s.wanted == old(s).wanted
      ensures s.iflag == (Top(s).guards == {} && s.wanted)
    {
      Do(Drop(m));
      while !Top(s).pc.Idle?
        invariant Inv(s) && |s.stack| == |old(s).stack| && s.stack[..|s.stack| - 1] == old(s).stack[..|s.stack| - 1]
        invariant DropPath(old(s), s, m)
        decreases StepsLeft(Top(s).pc)
      {
        DropStepKeeps(s);
        s := MicroStep(s);
      }
    }
  }

  /** The running code is in the window of `lock()`: it has seen interrupts enabled and has not
      yet turned them off. */
  ghost predicate InWindow(s: State, m: Mutex) {
    Inv(s) && |s.stack| == 1 && Top(s).pc == Disable(m, true) && Top(s).guards == {} && s.iflag
  }

  /** Interrupts on, one lock taken and dropped, and then into the window. */
  method ReachWindow(cpu: Cpu, m: Mutex)
    requires Init(cpu.s)
    modifies cpu
    ensures InWindow(cpu.s, m) && cpu.s.wanted
  {
    hide RunningOk;
    cpu.Do(EnableIrq);
    cpu.LockNow(m);
    cpu.DropNow(m);
    cpu.Do(Lock(m));
    cpu.Do(Micro);
  }

  /** A handler that takes and drops a lock of its own in the window. */
  method HandlerRuns(cpu: Cpu, m: Mutex, own: Mutex)
    requires InWindow(cpu.s, m)
    modifies cpu
    ensures InWindow(cpu.s, m) && !cpu.s.wanted
  {
    hide RunningOk;
    cpu.Do(Interrupt);
    cpu.LockNow(own);
    cpu.DropNow(own);
    cpu.Do(Iret);
  }

  /** The rest of `lock()`, and the drop. */
  method LeaveWindow(cpu: Cpu, m: Mutex)
    requires InWindow(cpu.s, m)
    modifies cpu
    ensures Inv(cpu.s) && cpu.s.iflag && Free(Top(cpu.s))
  {
    hide RunningOk;
    cpu.Do(Micro);
    cpu.Do(Micro);
    cpu.Do(Micro);
    cpu.Do(Micro);
    cpu.Do(Micro);
    cpu.DropNow(m);
  }

  /** A handler does run between the flag read and the disable, and overwrites INT_ENABLED; the
      lock that was under way still ends with interrupts enabled again. */
  method HandlerInWindow(cpu: Cpu) returns (overwritten: bool)
    requires Init(cpu.s)
    modifies cpu
    ensures overwritten && Inv(cpu.s) && cpu.s.iflag && Free(Top(cpu.s))
  {
    hide InWindow, Inv, Init;
    ReachWindow(cpu, 0);
    var before := cpu.s.wanted;
    HandlerRuns(cpu, 0, 1);
    overwritten := before && !cpu.s.wanted;
    LeaveWindow(cpu, 0);
  }

  /** The states on the way through `lock()`. */
  ghost predicate LockPath(s0: State, s: State, m: Mutex)
    requires |s0.stack| > 0 && |s.stack| > 0
  {
    var g0, f := Top(s0).guards, Top(s);
    var flag := if g0 == {} then s0.iflag else s0.wanted;
    match f.pc
    case ReadFlag(x) => x == m && f.guards == g0 && s.held == s0.held && s.count == s0.count && s.iflag == s0.iflag && s.wanted == s0.wanted
    case Disable(x, was) => x == m && f.guards == g0 && s.held == s0.held && s.count == s0.count && was == s0.iflag && s.wanted == s0.wanted
    case TestCount(x, was) => x == m && f.guards == g0 && s.held == s0.held && s.count == s0.count && was == s0.iflag && s.wanted == s0.wanted
    case SaveFlag(x, was) => x == m && f.guards == g0 == {} && s.held == s0.held && s.count == s0.count && was == s0.iflag
    case CountUp(x) => x == m && f.guards == g0 && s.held == s0.held && s.count == s0.count && s.wanted == flag
    case Acquire(x) => x == m && f.guards == g0 && s.held == s0.held && s.count == s0.count + 1 && s.wanted == flag && m !in s.held
    case Idle => f.guards == g0 + {m} && s.held == s0.held + {m} && s.count == s0.count + 1 && s.wanted == flag && !s.iflag
    case _ => false
  }

  lemma LockPathStep(s0: State, s: State, m: Mutex)
    requires Inv(s0) && Inv(s) && Top(s0).pc.Idle? && m !in s0.held && LockPath(s0, s, m) && !Top(s).pc.Idle?
    ensures var s' := MicroStep(s);
            && |s'.stack| == |s.stack| && s'.stack[..|s.stack| - 1] == s.stack[..|s.stack| - 1]
            && LockPath(s0, s', m) && StepsLeft(Top(s').pc) < StepsLeft(Top(s).pc)
  {
  }

  /** The states on the way through `drop()`. */
  ghost predicate DropPath(s0: State, s: State, m: Mutex)
    requires |s0.stack| > 0 && |s.stack| > 0
  {
    var g0, f := Top(s0).guards, Top(s);
    && s.wanted == s0.wanted
    && match f.pc
       case Release(x) => x == m && f.guards == g0 && s.held == s0.held && s.count == s0.count
       case CountDown => f.guards == g0 - {m} && s.held == s0.held - {m} && s.count == s0.count
       case TestDown => f.guards == g0 - {m} && s.held == s0.held - {m} && s.count == s0.count - 1
       case TestWanted => f.guards == g0 - {m} == {} && s.held == s0.held - {m} && s.count == s0.count - 1
       case Enable => f.guards == g0 - {m} == {} && s.held == s0.held - {m} && s.count == s0.count - 1 && s.wanted
       case Idle => f.guards == g0 - {m} && s.held == s0.held - {m} && s.count == s0.count - 1 && s.iflag == (f.guards == {} && s.wanted)
       case _ => false
  }
}
