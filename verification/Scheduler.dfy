// The scheduler on task objects: the queue array, the two scan loops and the exit
// calls, each proved against its step of the transition system.
module Scheduler {
  import opened Options
  import opened Scheduling

  class Process {
    const pid: nat
    var tasks: seq<Task>

    constructor (pid: nat)
      ensures this.pid == pid && tasks == []
    {
      this.pid := pid;
      tasks := [];
    }
  }

  class Task {
    const tid: nat
    const process: Process
    var state: TaskState

    constructor (tid: nat, process: Process)
      ensures this.tid == tid && this.process == process && state == Ready
    {
      this.tid := tid;
      this.process := process;
      state := Ready;
    }
  }

  ghost function SlotOf(t: Task?): Slot
    reads t
  {
    if t == null then Empty else Held(t.tid, t.process.pid, t.state)
  }

  class TaskScheduler {
    const queue: array<Task?>
    const sentinel: Task         // stands in for the boot context, which is no task
    var length: nat
    var cur: nat
    var started: bool
    var enabled: bool
    ghost var pending: Option<nat>
    ghost var members: set<Task>   // every task that was queued
    ghost var procs: set<Process>  // and their processes

    ghost predicate Shaped()
      reads this, queue
    {
      && queue.Length == MAX_PROCESSES && length <= MAX_PROCESSES
      && sentinel !in members
      && forall i | 0 <= i < length && queue[i] != null :: queue[i] in members
    }

    ghost function View(): Sched
      reads this, queue, members
      requires Shaped()
    {
      Sched(seq(length, i requires 0 <= i < length && Shaped() reads this, queue, members => SlotOf(queue[i])),
            cur, started, enabled, pending)
    }

    // A process lists its queued tasks and no others, and pids name processes.
    ghost predicate ProcessesOk()
      reads this, members, procs
    {
      && (forall t | t in members :: t.process in procs && t in t.process.tasks)
      && (forall p, t | p in procs && t in p.tasks :: t.process == p)
      && (forall p, q | p in procs && q in procs && p.pid == q.pid :: p == q)
    }

    ghost predicate Valid()
      reads this, queue, members, procs
    {
      Shaped() && ProcessesOk() && Inv(View())
    }

    // Boot: the sentinel, whose state nothing initialises, and the daemon.
    constructor (daemon: Task)
      requires daemon.state == Ready && daemon in daemon.process.tasks
      requires forall u | u in daemon.process.tasks :: u.process == daemon.process
      ensures Valid() && View() == Booted(daemon.tid, daemon.process.pid)
      ensures members == {daemon} && procs == {daemon.process} && fresh(queue) && fresh(sentinel)
    {
      var noProcess := new Process(0xFFFF_FFFF_FFFF_FFFF);
      var placeholder := new Task(0xFFFF_FFFF_FFFF_FFFF, noProcess);
      placeholder.state := *;
      sentinel := placeholder;
      var slots := new Task?[MAX_PROCESSES](_ => null);
      slots[0] := daemon;
      queue := slots;
      length, cur, started, enabled := 1, 0, false, false;
      pending, members, procs := None, {daemon}, {daemon.process};
      new;
      assert View().slots == [Held(daemon.tid, daemon.process.pid, Ready)];
    }

    ghost predicate Unshared()
      reads this, queue
      requires Shaped()
    {
      forall i, j | 0 <= i < length && 0 <= j < length && queue[i] != null && queue[i] == queue[j] :: i == j
    }

    // Two slots never hold the same task.
    lemma NoSharing()
      requires Valid()
      ensures Unshared()
    {
      assert forall i | 0 <= i < length :: View().slots[i] == SlotOf(queue[i]);
    }

    method GetNext() returns (t: Task?)
      requires Shaped() && cur < length
      modifies this`cur
      ensures Shaped()
      ensures match NextLive(old(View().slots), old(cur))
              case None => t == null && cur == old(cur)
              case Some(j) => j < length && cur == j && t == queue[j]
    {
      ghost var s := View();
      var next: nat := (cur + 1) % length;
      var checked := 0;
      while queue[next] == null || queue[next].state == Dead
        invariant next < length && checked < length
        invariant Scan(s.slots, next, length - checked) == NextLive(s.slots, s.cur)
        decreases length - checked
      {
        assert s.slots[next] == SlotOf(queue[next]);
        next := (next + 1) % length;
        checked := checked + 1;
        if checked == length {
          return null;
        }
      }
      assert s.slots[next] == SlotOf(queue[next]);
      cur := next;
      return queue[next];
    }

    // The states after a switch to `next`, the task in slot `cur`.
    method UpdateState(current: Task, next: Task, ghost s: Sched)
      requires Shaped() && cur < length && queue[cur] == next && current != next && |s.slots| == length
      requires s.cur < length
      requires s.slots == View().slots
      requires Unshared()
      requires if s.started then queue[s.cur] == current else current == sentinel
      modifies current`state, next`state
      ensures Shaped() && View().slots == Switched(s.slots, s.started, s.cur, cur)
      ensures next.state == Running
      ensures current.state == if old(current.state) == Running then Ready else old(current.state)
    {
      assert forall i | 0 <= i < length :: s.slots[i] == SlotOf(queue[i]);
      if current.state == Running {
        current.state := Ready;
      }
      next.state := Running;
      forall i | 0 <= i < length
        ensures View().slots[i] == Switched(s.slots, s.started, s.cur, cur)[i]
      {
        assert View().slots[i] == SlotOf(queue[i]);
      }
    }

    // The timer and yield interrupts: whether to switch, and from which task to which.
    method Tick() returns (switch: bool, current: Task, next: Task)
      requires Valid()
      modifies this`cur, this`started, sentinel`state, (set t | t in members)`state
      ensures Valid()
      ensures Some(View()) == TickResult(old(View()))
      ensures switch <==> old(Switches(View()))
      ensures switch ==> next == queue[cur] && next.state == Running && current != next
      ensures switch ==> if old(started) then current == queue[old(cur)] else current == sentinel
      ensures switch ==> current.state == if old(current.state) == Running then Ready else old(current.state)
      ensures forall t | t in members && !(switch && t in {current, next}) :: t.state == old(t.state)
    {
      if !enabled || length == 0 {
        return false, sentinel, sentinel;
      }
      switch, current, next := TickEnabled();
    }

    // The part behind the test for a scheduler that is off.
    method TickEnabled() returns (switch: bool, current: Task, next: Task)
      requires Valid() && enabled
      modifies this`cur, this`started, sentinel`state, (set t | t in members)`state
      ensures Valid()
      ensures Some(View()) == TickResult(old(View()))
      ensures switch <==> old(Switches(View()))
      ensures switch ==> next == queue[cur] && next.state == Running && current != next
      ensures switch ==> if old(started) then current == queue[old(cur)] else current == sentinel
      ensures switch ==> current.state == if old(current.state) == Running then Ready else old(current.state)
      ensures forall t | t in members && !(switch && t in {current, next}) :: t.state == old(t.state)
    {
      ghost var s := View();
      TickOutcome(s);
      TickKeepsInv(s);
      NoSharing();
      var curr, t := Choose();
      if curr == t {
        assert View() == TickResult(s).value;
        return false, sentinel, sentinel;
      }
      UpdateState(curr, t, s);
      assert View() == TickResult(s).value;
      return true, curr, t;
    }

    // The first half of a tick: the task that runs now and the one to run next.
    method Choose() returns (current: Task, next: Task)
      requires Valid() && enabled
      modifies this`cur, this`started
      ensures Shaped() && started && View().slots == old(View().slots)
      ensures cur < length && queue[cur] == next && NextLive(old(View().slots), old(cur)) == Some(cur)
      ensures if old(started) then queue[old(cur)] == current else current == sentinel
      ensures current == next <==> old(started) && cur == old(cur)
    {
      ghost var s := View();
      TickOutcome(s);
      NoSharing();
      assert forall i | 0 <= i < length :: s.slots[i] == SlotOf(queue[i]);
      var curr: Task? := if started then queue[cur] else sentinel;
      started := true;
      assert View().slots == s.slots;
      var t := GetNext();
      assert s.slots[cur] == SlotOf(t);
      assert View().slots == s.slots;
      return curr, t;
    }

    // A new task goes to the end of the queue.
    method Add(t: Task)
      requires Valid() && StepOk(View(), Step.Add(t.tid, t.process.pid))
      requires t !in members && t != sentinel && t.state == Ready
      requires t in t.process.tasks && forall u | u in t.process.tasks :: u.process == t.process
      requires forall p | p in procs && p.pid == t.process.pid :: p == t.process
      modifies this`length, this`members, this`procs, queue
      ensures Valid() && View() == Apply(old(View()), Step.Add(t.tid, t.process.pid))
      ensures members == old(members) + {t} && procs == old(procs) + {t.process}
    {
      ApplyKeepsInv(View(), Step.Add(t.tid, t.process.pid));
      Enqueue(t);
    }

    method Enqueue(t: Task)
      requires Shaped() && length < MAX_PROCESSES && t != sentinel && t.state == Ready
      modifies this`length, this`members, this`procs, queue
      ensures Shaped() && View() == old(View()).(slots := old(View().slots) + [Held(t.tid, t.process.pid, Ready)])
      ensures members == old(members) + {t} && procs == old(procs) + {t.process}
    {
      ghost var s := View();
      assert forall i | 0 <= i < length :: s.slots[i] == SlotOf(queue[i]);
      queue[length] := t;
      length := length + 1;
      members := members + {t};
      procs := procs + {t.process};
      AppendedSlots(s, t);
    }

    lemma AppendedSlots(s: Sched, t: Task)
      requires Shaped() && length == |s.slots| + 1 && queue[length - 1] == t && t.state == Ready
      requires forall i | 0 <= i < length - 1 :: s.slots[i] == SlotOf(queue[i])
      ensures View().slots == s.slots + [Held(t.tid, t.process.pid, Ready)]
    {
    }

    method Enable()
      requires Valid()
      modifies this`enabled
      ensures Valid() && View() == Apply(old(View()), Step.Enable)
    {
      ghost var s := View();
      ApplyKeepsInv(s, Step.Enable);
      enabled := true;
      assert View().slots == s.slots;
    }

    // Marks the first queued occurrence of `t` dead.
    method Remove(t: Task)
      requires Shaped() && Unshared()
      modifies t`state
      ensures Shaped() && |View().slots| == |old(View().slots)|
      ensures forall i | 0 <= i < length ::
                View().slots[i] == if queue[i] == t then WithState(old(View().slots)[i], Dead) else old(View().slots)[i]
    {
      ghost var s := View();
      assert forall i | 0 <= i < length :: s.slots[i] == SlotOf(queue[i]);
      for i := 0 to length
        invariant forall k | 0 <= k < i :: queue[k] != t
        invariant t.state == old(t.state)
      {
        if queue[i] == t {
          t.state := Dead;
          assert forall k | 0 <= k < length :: View().slots[k] == SlotOf(queue[k]);
          return;
        }
      }
    }

    // Marks every task of `p` dead: the loop of `sys_exit_group`.
    method RemoveAll(p: Process)
      requires Shaped() && Unshared() && ProcessesOk() && p in procs
      modifies (set t | t in p.tasks)`state
      ensures Shaped() && View().slots == MarkGroup(old(View().slots), p.pid)
    {
      ghost var s := View().slots;
      assert forall k | 0 <= k < length :: s[k] == SlotOf(queue[k]);
      for i := 0 to |p.tasks|
        invariant Shaped() && |View().slots| == |s|
        invariant forall k | 0 <= k < length ::
            View().slots[k] == if queue[k] in p.tasks[..i] then WithState(s[k], Dead) else s[k]
      {
        assert p.tasks[..i + 1] == p.tasks[..i] + [p.tasks[i]];
        Remove(p.tasks[i]);
      }
      forall k | 0 <= k < length
        ensures View().slots[k] == MarkGroup(s, p.pid)[k]
      {
        InProcess(p, k);
      }
    }

    lemma InProcess(p: Process, k: nat)
      requires Shaped() && ProcessesOk() && p in procs && k < length
      ensures queue[k] in p.tasks <==> queue[k] != null && queue[k].process.pid == p.pid
    {
    }

    // `sys_exit_group`: every queued task of the caller's process dies, then the
    // caller yields.
    method SysExitGroup() returns (switch: bool, current: Task, next: Task)
      requires Valid() && StepOk(View(), ExitGroup)
      modifies this`cur, this`started, sentinel`state, (set t | t in members)`state
      modifies (set p, t | p in procs && t in p.tasks :: t)`state
      ensures Valid() && Some(View()) == TickResult(Apply(old(View()), ExitGroup))
    {
      ghost var s := View();
      ApplyKeepsInv(s, ExitGroup);
      NoSharing();
      assert s.slots[cur] == SlotOf(queue[cur]);
      RemoveAll(queue[cur].process);
      assert View() == Apply(s, ExitGroup);
      switch, current, next := Tick();
    }

    // `sys_exit`: a main task takes its whole process with it.
    method SysExit() returns (switch: bool, current: Task, next: Task)
      requires Valid() && StepOk(View(), Exit) && StepOk(View(), ExitGroup)
      modifies this`cur, this`started, sentinel`state, (set t | t in members)`state
      modifies (set p, t | p in procs && t in p.tasks :: t)`state
      ensures Valid()
      ensures queue[old(cur)] != null && queue[old(cur)].process.tasks != []
      ensures Some(View()) ==
              TickResult(Apply(old(View()),
                               if queue[old(cur)] == queue[old(cur)].process.tasks[0] then ExitGroup else Exit))
    {
      ghost var s := View();
      assert s.slots[cur] == SlotOf(queue[cur]);
      var task := queue[cur];
      if task == task.process.tasks[0] {
        switch, current, next := SysExitGroup();
        return;
      }
      ApplyKeepsInv(s, Exit);
      NoSharing();
      Remove(task);
      assert View().slots == Apply(s, Exit).slots;
      switch, current, next := Tick();
    }

    // The daemon's look at slot `i`, and its clearing of the slot it found dead. It can
    // be preempted in between.
    method CheckSlot(i: nat) returns (dead: bool)
      requires Valid() && StepOk(View(), Check(i))
      modifies this`pending
      ensures Valid() && View() == Apply(old(View()), Check(i))
      ensures dead <==> pending == Some(i)
    {
      ghost var s := View();
      ApplyKeepsInv(s, Check(i));
      assert s.slots[i] == SlotOf(queue[i]);
      dead := queue[i] != null && queue[i].state == Dead;
      pending := if dead then Some(i) else pending;
      assert View().slots == s.slots;
    }

    method ClearSlot(i: nat)
      requires Valid() && StepOk(View(), Clear) && pending == Some(i)
      modifies this`pending, queue
      ensures Valid() && View() == Apply(old(View()), Clear)
    {
      ghost var s := View();
      ApplyKeepsInv(s, Clear);
      assert forall k | 0 <= k < length :: s.slots[k] == SlotOf(queue[k]);
      queue[i] := null;
      pending := None;
      assert View().slots == s.slots[i := Empty];
    }
  }
}
