// Tasks, their kernel stacks and the timer interrupt together: over every run a task
// that is resumed continues in the context it was interrupted in.
module Multitasking {
  import opened Interrupts
  import opened Options
  import opened Scheduling
  import Words

  // A kernel stack, as the range of word indices it takes.
  datatype Stack = Stack(base: nat, top: nat)

  // `cpu` is the context of the code that runs; `boot` the stack of the code that ran
  // before the first task; stack and saved stack pointer of a task go by its slot.
  datatype Kernel = Kernel(sched: Sched, mem: seq<Words.Word>, cpu: Context,
                           boot: Stack, stacks: seq<Stack>, sps: seq<nat>)

  ghost predicate Current(k: Kernel, i: nat) {
    k.sched.started && k.sched.cur == i
  }

  predicate Apart(a: Stack, b: Stack) {
    a.top <= b.base || b.top <= a.base
  }

  ghost predicate KInv(k: Kernel) {
    && Inv(k.sched)
    && |k.stacks| == |k.sps| == |k.sched.slots|
    && (forall i | 0 <= i < |k.stacks| :: k.stacks[i].top <= |k.mem| && Apart(k.boot, k.stacks[i]))
    && (forall i, j | 0 <= i < j < |k.stacks| :: Apart(k.stacks[i], k.stacks[j]))
    && (forall i | 0 <= i < |k.stacks| && !Current(k, i) ::
          k.stacks[i].base <= k.sps[i] && k.sps[i] + SAVED <= k.stacks[i].top)
    && k.boot.top <= |k.mem|
  }

  // The stack an interrupt uses, and where on it: the end when user code runs,
  // otherwise the stack pointer aligned down to 16 bytes.
  ghost function ActiveStack(k: Kernel): Stack
    requires KInv(k)
  {
    if k.sched.started then k.stacks[k.sched.cur] else k.boot
  }

  ghost function EntryPoint(k: Kernel): nat
    requires KInv(k)
  {
    if k.cpu.frame.cs % 4 == 3 then ActiveStack(k).top else k.cpu.frame.rsp / 16 * 2
  }

  // The words of stack `s` are the same in both memories.
  ghost predicate SameStack(m: seq<Words.Word>, m': seq<Words.Word>, s: Stack)
    requires s.top <= |m| == |m'|
  {
    forall w | s.base <= w < s.top :: m'[w] == m[w]
  }

  datatype Event =
    | Timer
    | Compute(call: Option<Step>)  // the running task computes, or makes a call that changes the scheduler
    | Spawn(tid: nat, pid: nat, stack: Stack, privilege: Privilege, entry: Words.Word, userTop: Words.Word)

  // After a switch, the words below the saved context on the stack of the task that runs
  // then: the stub calls into C code there before it restores the context.
  ghost predicate BelowNext(k: Kernel, k': Kernel, w: int)
    requires KInv(k)
  {
    && Switches(k.sched) && k'.sched.cur < |k.sps|
    && k.stacks[k'.sched.cur].base <= w < k.sps[k'.sched.cur]
  }

  // The effect of `Cpu.TimerInterrupt` with the answer of the scheduler's tick.
  ghost predicate Interrupted(k: Kernel, k': Kernel)
    requires KInv(k)
  {
    var stack, entry := ActiveStack(k), EntryPoint(k);
    && stack.base + ROOM <= entry <= stack.top
    && TickResult(k.sched) == Some(k'.sched)
    && k'.boot == k.boot && k'.stacks == k.stacks && |k'.mem| == |k.mem|
    && (forall w | 0 <= w < |k.mem| && !(stack.base <= w < entry) && !BelowNext(k, k', w) :: k'.mem[w] == k.mem[w])
    && if Switches(k.sched) then
         && k'.mem[entry - SAVED..entry] == Image(k.cpu)
         && k'.sps == (if k.sched.started then k.sps[k.sched.cur := entry - SAVED] else k.sps)
         && k'.sched.cur < |k.sps| && k.sps[k'.sched.cur] + SAVED <= |k.mem|
         && Image(k'.cpu) == k.mem[k.sps[k'.sched.cur]..k.sps[k'.sched.cur] + SAVED]
       else
         k'.cpu == k.cpu && k'.sps == k.sps
  }

  // A running task writes no other task's kernel stack.
  ghost predicate Minds(k: Kernel, k': Kernel)
    requires KInv(k)
  {
    && |k'.mem| == |k.mem| && k'.boot == k.boot
    && forall i | 0 <= i < |k.stacks| && !Current(k, i) :: SameStack(k.mem, k'.mem, k.stacks[i])
  }

  ghost predicate Computed(k: Kernel, call: Option<Step>, k': Kernel)
    requires KInv(k)
  {
    && Minds(k, k') && k'.stacks == k.stacks && k'.sps == k.sps
    && match call
       case None => k'.sched == k.sched
       case Some(step) => !step.Tick? && !step.Add? && StepOk(k.sched, step) && k'.sched == Apply(k.sched, step)
  }

  // `task_create` on a fresh stack, then `scheduler_add`.
  ghost predicate Spawned(k: Kernel, ev: Event, k': Kernel)
    requires KInv(k) && ev.Spawn?
  {
    && Minds(k, k')
    && StepOk(k.sched, Add(ev.tid, ev.pid)) && k'.sched == Apply(k.sched, Add(ev.tid, ev.pid))
    && ev.stack.base + ROOM <= ev.stack.top <= |k.mem| && ev.stack.top * 8 < Words.WORD
    && Apart(k.boot, ev.stack) && (forall i | 0 <= i < |k.stacks| :: Apart(k.stacks[i], ev.stack))
    && k'.stacks == k.stacks + [ev.stack] && k'.sps == k.sps + [ev.stack.top - SAVED]
    && k'.mem[ev.stack.top - SAVED..ev.stack.top] ==
       Image(StartContext(ev.privilege, ev.entry, ev.stack.top * 8, ev.userTop))
  }

  ghost predicate Next(k: Kernel, ev: Event, k': Kernel)
    requires KInv(k)
  {
    match ev
    case Timer => Interrupted(k, k')
    case Compute(call) => Computed(k, call, k')
    case Spawn(_, _, _, _, _, _) => Spawned(k, ev, k')
  }

  lemma NextKeepsInv(k: Kernel, ev: Event, k': Kernel)
    requires KInv(k) && Next(k, ev, k')
    ensures KInv(k')
  {
    match ev {
      case Timer => TimerKeepsInv(k, k');
      case Compute(call) => ComputeKeepsInv(k, call, k');
      case Spawn(_, _, _, _, _, _) => SpawnKeepsInv(k, ev, k');
    }
  }

  // The task that stops running is the one that gets a saved stack pointer.
  lemma TimerKeepsInv(k: Kernel, k': Kernel)
    requires KInv(k) && Interrupted(k, k')
    ensures KInv(k')
  {
    TickKeepsInv(k.sched);
    forall i | 0 <= i < |k.stacks| && !Current(k', i)
      ensures k.stacks[i].base <= k'.sps[i] && k'.sps[i] + SAVED <= k.stacks[i].top
    {
      assert Current(k, i) ==> k'.sps[i] == EntryPoint(k) - SAVED;
    }
  }

  lemma ComputeKeepsInv(k: Kernel, call: Option<Step>, k': Kernel)
    requires KInv(k) && Computed(k, call, k')
    ensures KInv(k')
  {
    if call.Some? {
      ApplyKeepsInv(k.sched, call.value);
      OnlyTickMoves(k.sched, call.value);
    }
  }

  lemma SpawnKeepsInv(k: Kernel, ev: Event, k': Kernel)
    requires KInv(k) && ev.Spawn? && Spawned(k, ev, k')
    ensures KInv(k')
  {
    ApplyKeepsInv(k.sched, Add(ev.tid, ev.pid));
  }

  // Slot `j` waits with context `c` saved on its stack.
  ghost predicate Waits(k: Kernel, j: nat, c: Context)
    requires KInv(k)
  {
    && j < |k.sps| && !Current(k, j)
    && k.mem[k.sps[j]..k.sps[j] + SAVED] == Image(c)
  }

  // A waiting task either goes on waiting or runs, in the context it was saved with.
  lemma WaitsOrResumes(k: Kernel, ev: Event, k': Kernel, j: nat, c: Context)
    requires KInv(k) && Next(k, ev, k') && KInv(k') && Waits(k, j, c)
    ensures if Current(k', j) then k'.cpu == c else Waits(k', j, c)
  {
    match ev {
      case Timer => WaitsOverTick(k, k', j, c);
      case Compute(_) => MindedStackKept(k, k', j);
      case Spawn(_, _, _, _, _, _) => MindedStackKept(k, k', j);
    }
  }

  lemma WaitsOverTick(k: Kernel, k': Kernel, j: nat, c: Context)
    requires KInv(k) && Interrupted(k, k') && KInv(k') && Waits(k, j, c)
    ensures if Current(k', j) then k'.cpu == c else Waits(k', j, c)
  {
    OtherStackKept(k, k', j);
    if Current(k', j) {
      ImageInjective(k'.cpu, c);
    }
  }

  lemma MindedStackKept(k: Kernel, k': Kernel, j: nat)
    requires KInv(k) && Minds(k, k') && j < |k.sps| && !Current(k, j)
    ensures k'.mem[k.sps[j]..k.sps[j] + SAVED] == k.mem[k.sps[j]..k.sps[j] + SAVED]
  {
    assert SameStack(k.mem, k'.mem, k.stacks[j]);
  }

  lemma OtherStackKept(k: Kernel, k': Kernel, j: nat)
    requires KInv(k) && Interrupted(k, k') && j < |k.sps| && !Current(k, j)
    ensures k'.mem[k.sps[j]..k.sps[j] + SAVED] == k.mem[k.sps[j]..k.sps[j] + SAVED]
  {
    assert Apart(ActiveStack(k), k.stacks[j]) by {
      if k.sched.started {
        assert j != k.sched.cur;
      }
    }
  }

  lemma OnlyTheTimerSwitches(k: Kernel, ev: Event, k': Kernel, j: nat)
    requires KInv(k) && Next(k, ev, k') && Current(k, j) && !Current(k', j)
    ensures ev == Timer
  {
    match ev {
      case Timer =>
      case Compute(call) =>
        if call.Some? {
          OnlyTickMoves(k.sched, call.value);
        }
      case Spawn(t, p, _, _, _, _) => OnlyTickMoves(k.sched, Add(t, p));
    }
  }

  // A task that stops running was switched out by the timer and waits in its context.
  lemma SwitchedOutWaits(k: Kernel, k': Kernel, j: nat)
    requires KInv(k) && Interrupted(k, k') && KInv(k') && Current(k, j) && !Current(k', j)
    ensures Waits(k', j, k.cpu)
  {
    var entry := EntryPoint(k);
    TickOutcome(k.sched);
    assert k'.sps[j] == entry - SAVED;
    assert k'.mem[entry - SAVED..entry] == Image(k.cpu);
  }

  // A new task waits in the context it starts in.
  lemma SpawnedWaits(k: Kernel, ev: Event, k': Kernel)
    requires KInv(k) && Next(k, ev, k') && KInv(k') && ev.Spawn?
    ensures Waits(k', |k.stacks|, StartContext(ev.privilege, ev.entry, ev.stack.top * 8, ev.userTop))
  {
  }

  // ---------------------------------------------------------------- runs

  ghost predicate IsRun(t: seq<Kernel>, evs: seq<Event>) {
    && |t| == |evs| + 1 && KInv(t[0])
    && forall i | 0 <= i < |evs| :: KInv(t[i]) ==> Next(t[i], evs[i], t[i + 1])
  }

  lemma {:induction false} RunKeepsInv(t: seq<Kernel>, evs: seq<Event>, i: nat)
    requires IsRun(t, evs) && i < |t|
    ensures KInv(t[i])
    decreases i
  {
    if i > 0 {
      RunKeepsInv(t, evs, i - 1);
      NextKeepsInv(t[i - 1], evs[i - 1], t[i]);
    }
  }

  lemma NextAt(t: seq<Kernel>, evs: seq<Event>, i: nat)
    requires IsRun(t, evs) && i < |evs|
    ensures KInv(t[i]) && Next(t[i], evs[i], t[i + 1]) && KInv(t[i + 1])
  {
    RunKeepsInv(t, evs, i);
    RunKeepsInv(t, evs, i + 1);
  }

  lemma LeavesWaiting(t: seq<Kernel>, evs: seq<Event>, j: nat, i: nat)
    requires IsRun(t, evs) && i < |evs| && Current(t[i], j) && !Current(t[i + 1], j)
    ensures KInv(t[i + 1]) && Waits(t[i + 1], j, t[i].cpu)
  {
    NextAt(t, evs, i);
    OnlyTheTimerSwitches(t[i], evs[i], t[i + 1], j);
    SwitchedOutWaits(t[i], t[i + 1], j);
  }

  lemma BornWaiting(t: seq<Kernel>, evs: seq<Event>, i: nat)
    requires IsRun(t, evs) && i < |evs| && evs[i].Spawn?
    ensures evs[i].stack.top * 8 < Words.WORD && KInv(t[i + 1])
    ensures Waits(t[i + 1], |t[i].stacks|,
                  StartContext(evs[i].privilege, evs[i].entry, evs[i].stack.top * 8, evs[i].userTop))
  {
    NextAt(t, evs, i);
    SpawnedWaits(t[i], evs[i], t[i + 1]);
  }

  // From a state in which slot `j` waits in context `c`, through states in which it
  // does not run, to one in which it does: it runs in `c`.
  lemma {:induction false} ResumesAsSaved(t: seq<Kernel>, evs: seq<Event>, j: nat, from: nat, last: nat, c: Context)
    requires IsRun(t, evs) && from <= last < |evs|
    requires KInv(t[from]) && Waits(t[from], j, c)
    requires forall x | from <= x <= last :: !Current(t[x], j)
    requires Current(t[last + 1], j)
    ensures t[last + 1].cpu == c
    decreases last - from
  {
    NextAt(t, evs, from);
    WaitsOrResumes(t[from], evs[from], t[from + 1], j, c);
    if from < last {
      ResumesAsSaved(t, evs, j, from + 1, last, c);
    }
  }

  // The round trip: when a task runs again after the timer took the processor from it
  // at step `out`, its registers and its interrupted frame are as they were.
  lemma RoundTrip(t: seq<Kernel>, evs: seq<Event>, j: nat, out: nat, last: nat)
    requires IsRun(t, evs) && out < last < |evs|
    requires Current(t[out], j) && Current(t[last + 1], j)
    requires forall x | out < x <= last :: !Current(t[x], j)
    ensures t[last + 1].cpu == t[out].cpu
  {
    LeavesWaiting(t, evs, j, out);
    ResumesAsSaved(t, evs, j, out + 1, last, t[out].cpu);
  }

  // The words of slot `j`'s stack from its saved pointer up are those of `m`.
  ghost predicate StackIs(k: Kernel, j: nat, from: nat, m: seq<Words.Word>)
    requires KInv(k)
  {
    && j < |k.stacks| && k.stacks[j].top <= |m|
    && forall w | from <= w < k.stacks[j].top && k.stacks[j].base <= w :: k.mem[w] == m[w]
  }

  // While a task waits, its stack from the saved pointer up is kept, and still when it is
  // resumed.
  lemma StackKept(k: Kernel, ev: Event, k': Kernel, j: nat, from: nat, m: seq<Words.Word>)
    requires KInv(k) && Next(k, ev, k') && KInv(k') && j < |k.sps| && !Current(k, j) && k.sps[j] <= from
    requires StackIs(k, j, from, m)
    ensures StackIs(k', j, from, m) && k'.stacks[j] == k.stacks[j]
    ensures !Current(k', j) ==> k'.sps[j] == k.sps[j]
  {
    match ev {
      case Timer => StackOverTick(k, k', j, from);
      case Compute(_) => assert SameStack(k.mem, k'.mem, k.stacks[j]);
      case Spawn(_, _, _, _, _, _) => assert SameStack(k.mem, k'.mem, k.stacks[j]);
    }
  }

  lemma StackOverTick(k: Kernel, k': Kernel, j: nat, from: nat)
    requires KInv(k) && Interrupted(k, k') && KInv(k') && j < |k.sps| && !Current(k, j) && k.sps[j] <= from
    ensures forall w | from <= w < k.stacks[j].top && k.stacks[j].base <= w :: k'.mem[w] == k.mem[w]
    ensures !Current(k', j) ==> k'.sps[j] == k.sps[j]
  {
    assert Apart(ActiveStack(k), k.stacks[j]) by {
      if k.sched.started {
        assert j != k.sched.cur;
      }
    }
    assert k'.sched.cur < |k.stacks| && k'.sched.cur != j ==> Apart(k.stacks[k'.sched.cur], k.stacks[j]);
  }

  lemma {:induction false} StackWhileWaiting(t: seq<Kernel>, evs: seq<Event>, j: nat, from: nat, last: nat,
                                            at: nat, m: seq<Words.Word>)
    requires IsRun(t, evs) && from <= last < |evs| && KInv(t[from])
    requires j < |t[from].sps| && t[from].sps[j] <= at && StackIs(t[from], j, at, m)
    requires forall x | from <= x <= last :: !Current(t[x], j)
    ensures KInv(t[last + 1]) && StackIs(t[last + 1], j, at, m) && t[last + 1].stacks[j] == t[from].stacks[j]
    decreases last - from
  {
    NextAt(t, evs, from);
    StackKept(t[from], evs[from], t[from + 1], j, at, m);
    if from < last {
      StackWhileWaiting(t, evs, j, from + 1, last, at, m);
    }
  }

  // Not only its registers: the stack of a resumed task is as it was when the timer took
  // the processor from it, from the interrupt's entry point up. In the kernel that point
  // is the task's stack pointer, or up to 15 bytes below it.
  lemma RoundTripStack(t: seq<Kernel>, evs: seq<Event>, j: nat, out: nat, last: nat)
    requires IsRun(t, evs) && out < last < |evs|
    requires Current(t[out], j) && Current(t[last + 1], j)
    requires forall x | out < x <= last :: !Current(t[x], j)
    ensures KInv(t[out]) && KInv(t[last + 1]) && t[last + 1].stacks[j] == t[out].stacks[j]
    ensures StackIs(t[last + 1], j, EntryPoint(t[out]), t[out].mem)
    ensures t[out].cpu.frame.cs % 4 == 3 ==> EntryPoint(t[out]) == t[out].stacks[j].top
    ensures t[out].cpu.frame.cs % 4 != 3 ==>
              EntryPoint(t[out]) * 8 <= t[out].cpu.frame.rsp < EntryPoint(t[out]) * 8 + 16
  {
    NextAt(t, evs, out);
    OnlyTheTimerSwitches(t[out], evs[out], t[out + 1], j);
    SwitchedOutStack(t[out], t[out + 1], j);
    StackWhileWaiting(t, evs, j, out + 1, last, EntryPoint(t[out]), t[out].mem);
  }

  lemma SwitchedOutStack(k: Kernel, k': Kernel, j: nat)
    requires KInv(k) && Interrupted(k, k') && KInv(k') && Current(k, j) && !Current(k', j)
    ensures k'.stacks == k.stacks && j < |k'.sps| && k'.sps[j] <= EntryPoint(k)
    ensures StackIs(k', j, EntryPoint(k), k.mem)
  {
    TickOutcome(k.sched);
    assert k'.sched.cur < |k.stacks| ==> Apart(k.stacks[k'.sched.cur], k.stacks[j]);
  }

  // The first dispatch: a task spawned at step `born` starts at its entry point, with
  // zeroed registers and interrupts on.
  lemma FirstDispatch(t: seq<Kernel>, evs: seq<Event>, born: nat, last: nat)
    requires IsRun(t, evs) && born < last < |evs| && evs[born].Spawn?
    requires forall x | born < x <= last :: !Current(t[x], |t[born].stacks|)
    requires Current(t[last + 1], |t[born].stacks|)
    ensures evs[born].stack.top * 8 < Words.WORD
    ensures t[last + 1].cpu ==
            StartContext(evs[born].privilege, evs[born].entry, evs[born].stack.top * 8, evs[born].userTop)
    ensures Starts(t[last + 1].cpu, evs[born].privilege, evs[born].entry, evs[born].stack.top * 8, evs[born].userTop)
  {
    BornWaiting(t, evs, born);
    ResumesAsSaved(t, evs, |t[born].stacks|, born + 1, last,
                   StartContext(evs[born].privilege, evs[born].entry, evs[born].stack.top * 8, evs[born].userTop));
    StartContextStarts(evs[born].privilege, evs[born].entry, evs[born].stack.top * 8, evs[born].userTop);
  }
}
