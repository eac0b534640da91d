// The processor, the scheduler's task objects and the kernel stacks put together: the
// timer interrupt and the creation of a task are steps of the multitasking model.
module Machine {
  import Interrupts
  import opened Multitasking
  import opened Options
  import Scheduler
  import opened Scheduling
  import Words

  ghost function KernelOf(cpu: Interrupts.Cpu, s: Scheduler.TaskScheduler,
                          boot: Stack, stacks: seq<Stack>, sps: seq<nat>): Kernel
    requires s.Shaped()
    reads cpu, cpu.mem, s, s.queue, s.members
  {
    Kernel.Kernel(s.View(), cpu.mem[..], Interrupts.Context(cpu.regs, cpu.frame), boot, stacks, sps)
  }

  // `isr_stub_32` on the stack of the code that runs, with the scheduler's tick inside.
  // `sps` are the saved stack pointers of the tasks.
  method TimerTick(cpu: Interrupts.Cpu, s: Scheduler.TaskScheduler, boot: Stack, stacks: seq<Stack>, sps: seq<nat>)
    returns (sps': seq<nat>, ghost k: Kernel, ghost k': Kernel)
    requires s.Valid() && cpu.mem as object != s.queue
    requires KInv(KernelOf(cpu, s, boot, stacks, sps))
    requires var k := KernelOf(cpu, s, boot, stacks, sps);
             ActiveStack(k).base + Interrupts.ROOM <= EntryPoint(k) <= ActiveStack(k).top
    modifies cpu, cpu.mem, s`cur, s`started, s.sentinel`state, (set t | t in s.members)`state
    ensures s.Valid()
    ensures k == old(KernelOf(cpu, s, boot, stacks, sps)) && k' == KernelOf(cpu, s, boot, stacks, sps')
    ensures KInv(k) && Interrupted(k, k')
  {
    k := KernelOf(cpu, s, boot, stacks, sps);
    var running, previous := s.started, s.cur;
    var active, entry, switch, nextBase, nextSp := Decide(cpu, s, boot, stacks, sps);
    sps', k' := RunStub(cpu, sps, running, previous, active, entry, switch, nextBase, nextSp, k, s.View());
  }

  // The stub itself; the interrupted task, if there is one, gets its stack pointer.
  method RunStub(cpu: Interrupts.Cpu, sps: seq<nat>, running: bool, previous: nat,
                 active: Stack, entry: nat, switch: bool, nextBase: nat, nextSp: nat,
                 ghost k: Kernel, ghost sched: Sched)
    returns (sps': seq<nat>, ghost k': Kernel)
    requires KInv(k) && cpu.mem[..] == k.mem && Interrupts.Context(cpu.regs, cpu.frame) == k.cpu && sps == k.sps
    requires running == k.sched.started && previous == k.sched.cur && active == ActiveStack(k) && entry == EntryPoint(k)
    requires active.base + Interrupts.ROOM <= entry <= active.top && TickResult(k.sched) == Some(sched)
    requires switch <==> Switches(k.sched)
    requires switch ==> sched.cur < |sps| && nextSp == sps[sched.cur] && nextBase == k.stacks[sched.cur].base
    requires switch ==> nextBase <= nextSp && nextSp + Interrupts.SAVED <= cpu.mem.Length
    requires switch ==> nextSp + Interrupts.SAVED <= active.base || active.top <= nextBase
    modifies cpu, cpu.mem
    ensures k' == Kernel.Kernel(sched, cpu.mem[..], Interrupts.Context(cpu.regs, cpu.frame), k.boot, k.stacks, sps')
    ensures Interrupted(k, k')
  {
    sps' := sps;
    var savedSp := cpu.TimerInterrupt(active.base, entry, switch, nextBase, nextSp);
    if switch && running {
      sps' := sps[previous := savedSp];
    }
    k' := Kernel.Kernel(sched, cpu.mem[..], Interrupts.Context(cpu.regs, cpu.frame), k.boot, k.stacks, sps');
    Answered(k, k', entry, switch);
  }

  // Where the interrupt enters, the scheduler's answer, and where the picked task lies.
  method Decide(cpu: Interrupts.Cpu, s: Scheduler.TaskScheduler, boot: Stack, stacks: seq<Stack>, sps: seq<nat>)
    returns (active: Stack, entry: nat, switch: bool, nextBase: nat, nextSp: nat)
    requires s.Valid() && KInv(KernelOf(cpu, s, boot, stacks, sps))
    modifies s`cur, s`started, s.sentinel`state, (set t | t in s.members)`state
    ensures s.Valid() && Some(s.View()) == TickResult(old(s.View()))
    ensures active == old(ActiveStack(KernelOf(cpu, s, boot, stacks, sps)))
    ensures entry == old(EntryPoint(KernelOf(cpu, s, boot, stacks, sps)))
    ensures switch <==> old(Switches(s.View()))
    ensures switch ==> s.cur < |sps| == |stacks| && nextSp == sps[s.cur] && nextBase == stacks[s.cur].base
    ensures switch ==> nextBase <= nextSp && nextSp + Interrupts.SAVED <= cpu.mem.Length
    ensures switch ==> nextSp + Interrupts.SAVED <= active.base || active.top <= nextBase
  {
    TickStacks(KernelOf(cpu, s, boot, stacks, sps));
    active := if s.started then stacks[s.cur] else boot;
    entry := if cpu.frame.cs % 4 == 3 then active.top else cpu.frame.rsp / 16 * 2;
    var current, next;
    switch, current, next := s.Tick();
    nextBase, nextSp := if switch then stacks[s.cur].base else 0, if switch then sps[s.cur] else 0;
  }

  // What the stub leaves, with the answer of the tick it made, is an interrupt.
  lemma Answered(k: Kernel, k': Kernel, entry: nat, switch: bool)
    requires KInv(k) && entry == EntryPoint(k) && ActiveStack(k).base + Interrupts.ROOM <= entry <= ActiveStack(k).top
    requires TickResult(k.sched) == Some(k'.sched)
    requires switch <==> Switches(k.sched)
    requires k'.boot == k.boot && k'.stacks == k.stacks && |k'.mem| == |k.mem|
    requires forall w | 0 <= w < |k.mem| && !(ActiveStack(k).base <= w < entry) && !BelowNext(k, k', w) ::
               k'.mem[w] == k.mem[w]
    requires !switch ==> k'.cpu == k.cpu && k'.sps == k.sps
    requires switch ==>
               && k'.mem[entry - Interrupts.SAVED..entry] == Interrupts.Image(k.cpu)
               && k'.sps == (if k.sched.started then k.sps[k.sched.cur := entry - Interrupts.SAVED] else k.sps)
               && k'.sched.cur < |k.sps| && k.sps[k'.sched.cur] + Interrupts.SAVED <= |k.mem|
               && Interrupts.Image(k'.cpu) == k.mem[k.sps[k'.sched.cur]..k.sps[k'.sched.cur] + Interrupts.SAVED]
    ensures Interrupted(k, k')
  {
  }

  // The task that a tick switches to lies on a stack apart from the active one.
  lemma TickStacks(k: Kernel)
    requires KInv(k)
    ensures Switches(k.sched) ==>
              && NextLive(k.sched.slots, k.sched.cur).Some?
              && var next := NextLive(k.sched.slots, k.sched.cur).value;
                 && next < |k.sps| && TickResult(k.sched).Some? && TickResult(k.sched).value.cur == next
                 && k.stacks[next].base <= k.sps[next] && k.sps[next] + Interrupts.SAVED <= |k.mem|
                 && (k.sps[next] + Interrupts.SAVED <= ActiveStack(k).base || ActiveStack(k).top <= k.stacks[next].base)
  {
    if k.sched.enabled {
      TickOutcome(k.sched);
      TickKeepsInv(k.sched);
    }
  }

  // `task_create` and `scheduler_add`, on a fresh kernel stack.
  method SpawnTask(cpu: Interrupts.Cpu, s: Scheduler.TaskScheduler, boot: Stack, stacks: seq<Stack>, sps: seq<nat>,
                   t: Scheduler.Task, stack: Stack, privilege: Interrupts.Privilege,
                   entry: Words.Word, userTop: Words.Word)
    returns (sps': seq<nat>)
    requires s.Valid() && cpu.mem as object != s.queue
    requires KInv(KernelOf(cpu, s, boot, stacks, sps))
    requires StepOk(s.View(), Step.Add(t.tid, t.process.pid))
    requires t !in s.members && t != s.sentinel && t.state == Ready
    requires t in t.process.tasks && forall u | u in t.process.tasks :: u.process == t.process
    requires forall p | p in s.procs && p.pid == t.process.pid :: p == t.process
    requires stack.base + Interrupts.ROOM <= stack.top <= cpu.mem.Length && stack.top * 8 < Words.WORD
    requires Apart(boot, stack) && forall i | 0 <= i < |stacks| :: Apart(stacks[i], stack)
    modifies cpu.mem, s`length, s`members, s`procs, s.queue
    ensures s.Valid() && s.members == old(s.members) + {t} && s.procs == old(s.procs) + {t.process}
    ensures Spawned(old(KernelOf(cpu, s, boot, stacks, sps)),
                    Spawn(t.tid, t.process.pid, stack, privilege, entry, userTop),
                    KernelOf(cpu, s, boot, stacks + [stack], sps'))
  {
    ghost var k := KernelOf(cpu, s, boot, stacks, sps);
    var sp := Interrupts.BuildStack(cpu.mem, stack.top, privilege, entry, userTop);
    s.Add(t);
    sps' := sps + [sp];
  }
}
