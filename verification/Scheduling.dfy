// The round-robin scheduler as a transition system: what every run of additions,
// ticks, exits and cleanups keeps, and how long a live task can wait.
module Scheduling {
  import opened Options

  datatype TaskState = Running | Ready | Blocked | Dead

  // A queue slot: null, or a task with its process and state.
  datatype Slot = Empty | Held(tid: nat, pid: nat, state: TaskState)

  predicate Live(x: Slot) {
    x.Held? && x.state != Dead
  }

  // `pending` is the slot whose task the daemon has found dead and not yet cleared.
  datatype Sched = Sched(slots: seq<Slot>, cur: nat, started: bool, enabled: bool, pending: Option<nat>)

  const MAX_PROCESSES := 1024

  // ---------------------------------------------------------------- choosing the next task

  // The scan of `scheduler_get_next`: `left` slots from `i` on, around the queue.
  function Scan(slots: seq<Slot>, i: nat, left: nat): Option<nat>
    requires i < |slots|
    decreases left
  {
    if left == 0 then None
    else if Live(slots[i]) then Some(i)
    else Scan(slots, (i + 1) % |slots|, left - 1)
  }

  function NextLive(slots: seq<Slot>, cur: nat): Option<nat>
    requires cur < |slots|
  {
    Scan(slots, (cur + 1) % |slots|, |slots|)
  }

  // How many slots lie after `cur` up to and including `j`, around a queue of `n`.
  function Dist(cur: nat, j: nat, n: nat): (d: nat)
    requires cur < n && j < n
    ensures 1 <= d <= n
  {
    if j > cur then j - cur else j + n - cur
  }

  // The slot at distance `d` after `cur`.
  function Around(cur: nat, d: nat, n: nat): (i: nat)
    requires cur < n && 1 <= d <= n
    ensures i < n && Dist(cur, i, n) == d
  {
    if cur + d < n then cur + d else cur + d - n
  }

  lemma {:induction false} ScanFirst(slots: seq<Slot>, cur: nat, d: nat)
    requires cur < |slots| && 1 <= d <= |slots|
    requires forall i | 0 <= i < |slots| && Dist(cur, i, |slots|) < d :: !Live(slots[i])
    ensures match Scan(slots, Around(cur, d, |slots|), |slots| - d + 1)
            case None => forall i | 0 <= i < |slots| :: !Live(slots[i])
            case Some(j) =>
              && j < |slots| && Live(slots[j])
              && forall i | 0 <= i < |slots| && Live(slots[i]) :: Dist(cur, j, |slots|) <= Dist(cur, i, |slots|)
    decreases |slots| - d
  {
    var n := |slots|;
    var here := Around(cur, d, n);
    if !Live(slots[here]) {
      forall i | 0 <= i < n && Dist(cur, i, n) == d
        ensures i == here
      {
      }
      if d < n {
        NextAround(cur, d, n);
        ScanFirst(slots, cur, d + 1);
      }
    }
  }

  lemma NextAround(cur: nat, d: nat, n: nat)
    requires cur < n && 1 <= d < n
    ensures (Around(cur, d, n) + 1) % n == Around(cur, d + 1, n)
  {
    var a := Around(cur, d, n) + 1;
    if a < n {
      assert a % n == a;
    } else {
      assert a == n;
    }
  }

  // The scan finds the live slot nearest after `cur`, `cur` itself coming last, and
  // finds nothing exactly when no slot is live.
  lemma NextLiveIsNearest(slots: seq<Slot>, cur: nat)
    requires cur < |slots|
    ensures match NextLive(slots, cur)
            case None => forall i | 0 <= i < |slots| :: !Live(slots[i])
            case Some(j) =>
              && j < |slots| && Live(slots[j])
              && forall i | 0 <= i < |slots| && Live(slots[i]) :: Dist(cur, j, |slots|) <= Dist(cur, i, |slots|)
  {
    assert (cur + 1) % |slots| == Around(cur, 1, |slots|) by {
      if cur + 1 < |slots| {
        assert (cur + 1) % |slots| == cur + 1;
      } else {
        assert cur + 1 == |slots|;
      }
    }
    ScanFirst(slots, cur, 1);
  }

  // ---------------------------------------------------------------- the steps

  datatype Step =
    | Add(tid: nat, pid: nat)  // a new task enters the queue
    | Enable
    | Tick                     // timer interrupt, or the interrupt a task yields with
    | Exit                     // the current task marks itself dead
    | ExitGroup                // the current task marks its process's tasks dead
    | Check(i: nat)            // the daemon looks at slot `i`
    | Clear                    // the daemon nulls the slot it found dead

  function WithState(x: Slot, state: TaskState): Slot {
    match x
    case Empty => Empty
    case Held(t, p, _) => Held(t, p, state)
  }

  function MarkGroup(slots: seq<Slot>, pid: nat): (r: seq<Slot>)
    ensures |r| == |slots|
    ensures forall i | 0 <= i < |slots| ::
              r[i] == if slots[i].Held? && slots[i].pid == pid then WithState(slots[i], Dead) else slots[i]
  {
    seq(|slots|, i requires 0 <= i < |slots| =>
      if slots[i].Held? && slots[i].pid == pid then WithState(slots[i], Dead) else slots[i])
  }

  // The slots after the switch from `cur` (when a queued task was current) to `next`.
  function Switched(slots: seq<Slot>, started: bool, cur: nat, next: nat): seq<Slot>
    requires cur < |slots| && next < |slots|
  {
    var s := if started && slots[cur].Held? && slots[cur].state == Running
             then slots[cur := WithState(slots[cur], Ready)] else slots;
    s[next := WithState(s[next], Running)]
  }

  // None stands for the access through a null pointer that `scheduler_tick` makes
  // when nothing is live, or when the current slot was cleared and another is chosen.
  function TickResult(s: Sched): Option<Sched>
    requires s.cur < |s.slots| || s.slots == []
  {
    if !s.enabled || s.slots == [] then Some(s) else
      match NextLive(s.slots, s.cur)
      case None => if s.started && s.slots[s.cur] == Empty then Some(s) else None
      case Some(next) =>
        NextLiveIsNearest(s.slots, s.cur);
        if s.started && next == s.cur then Some(s)
        else if s.started && s.slots[s.cur] == Empty then None
        else Some(s.(slots := Switched(s.slots, s.started, s.cur, next), cur := next, started := true))
  }

  // The tick takes the processor to another task.
  predicate Switches(s: Sched)
    requires s.cur < |s.slots|
  {
    s.enabled && !(s.started && NextLive(s.slots, s.cur) == Some(s.cur))
  }

  // ---------------------------------------------------------------- the invariant

  const DAEMON := 0  // the queue slot of the cleanup daemon, which is added first

  ghost predicate Distinct(slots: seq<Slot>) {
    forall i, j | 0 <= i < j < |slots| && slots[i].Held? && slots[j].Held? :: slots[i].tid != slots[j].tid
  }

  ghost predicate Inv(s: Sched) {
    && 1 <= |s.slots| <= MAX_PROCESSES && s.cur < |s.slots|
    && Live(s.slots[DAEMON])
    && (!s.started ==> s.cur == 0)
    && (s.started ==> s.enabled && s.slots[s.cur].Held? && s.slots[s.cur].state in {Running, Dead})
    && (forall i | 0 <= i < |s.slots| && s.slots[i].Held? :: s.slots[i].state != Blocked)
    && (forall i | 0 <= i < |s.slots| && s.slots[i].Held? && s.slots[i].state == Running :: s.started && i == s.cur)
    && Distinct(s.slots)
    && (s.pending.Some? ==>
          s.pending.value < |s.slots| && s.slots[s.pending.value].Held? && s.slots[s.pending.value].state == Dead)
  }

  // What a step needs: room and a fresh task to add, a running task that is not the
  // daemon to exit, the daemon running to clean up.
  ghost predicate StepOk(s: Sched, step: Step)
    requires Inv(s)
  {
    match step
    case Add(t, _) =>
      && |s.slots| < MAX_PROCESSES
      && forall i | 0 <= i < |s.slots| && s.slots[i].Held? :: s.slots[i].tid != t
    case Enable => true
    case Tick => true
    case Exit => s.started && s.cur != DAEMON
    case ExitGroup => s.started && s.slots[s.cur].pid != s.slots[DAEMON].pid
    case Check(i) => s.started && s.cur == DAEMON && s.pending.None? && i < |s.slots|
    case Clear => s.started && s.cur == DAEMON && s.pending.Some?
  }

  ghost function Apply(s: Sched, step: Step): Sched
    requires Inv(s) && StepOk(s, step)
  {
    match step
    case Add(t, p) => s.(slots := s.slots + [Held(t, p, Ready)])
    case Enable => s.(enabled := true)
    case Tick => TickNeverFaults(s); TickResult(s).value
    case Exit => s.(slots := s.slots[s.cur := WithState(s.slots[s.cur], Dead)])
    case ExitGroup => s.(slots := MarkGroup(s.slots, s.slots[s.cur].pid))
    case Check(i) => if s.slots[i].Held? && s.slots[i].state == Dead then s.(pending := Some(i)) else s
    case Clear => s.(slots := s.slots[s.pending.value := Empty], pending := None)
  }

  // A tick in a state that satisfies the invariant dereferences no null pointer.
  lemma TickNeverFaults(s: Sched)
    requires Inv(s)
    ensures TickResult(s).Some?
  {
    NextLiveIsNearest(s.slots, s.cur);
  }

  // With a queued task current, a tick faults exactly when no task is live, which is why
  // the daemon must not exit.
  lemma TickFaultsIff(s: Sched)
    requires s.enabled && s.started && s.cur < |s.slots| && s.slots[s.cur].Held?
    ensures TickResult(s).None? <==> forall i | 0 <= i < |s.slots| :: !Live(s.slots[i])
  {
    NextLiveIsNearest(s.slots, s.cur);
  }

  // An enabled tick leaves a running task at `cur`, and every other slot waiting.
  lemma TickKeepsInv(s: Sched)
    requires Inv(s)
    ensures TickResult(s).Some? && Inv(TickResult(s).value)
    ensures s.enabled ==>
              var s' := TickResult(s).value;
              && NextLive(s.slots, s.cur) == Some(s'.cur)
              && s'.slots[s'.cur].Held? && s'.slots[s'.cur].state == Running
  {
    NextLiveIsNearest(s.slots, s.cur);
    var s' := TickResult(s).value;
    forall i | 0 <= i < |s.slots|
      ensures s'.slots[i].Held? == s.slots[i].Held?
      ensures s.slots[i].Held? ==> s'.slots[i].tid == s.slots[i].tid && s'.slots[i].pid == s.slots[i].pid
    {
    }
  }

  // What an enabled tick does, without the cases that cannot happen.
  lemma TickOutcome(s: Sched)
    requires Inv(s) && s.enabled
    ensures NextLive(s.slots, s.cur).Some?
    ensures var next := NextLive(s.slots, s.cur).value;
            && next < |s.slots| && Live(s.slots[next])
            && TickResult(s) == Some(
                 if s.started && next == s.cur then s
                 else s.(slots := Switched(s.slots, s.started, s.cur, next), cur := next, started := true))
  {
    NextLiveIsNearest(s.slots, s.cur);
  }

  // What a tick does to every slot: the chosen task runs, the one it takes the processor
  // from is ready again unless it has died, and no other slot changes.
  lemma TickEffect(s: Sched, i: nat)
    requires Inv(s) && s.enabled && i < |s.slots|
    ensures TickResult(s).Some?
    ensures var s' := TickResult(s).value;
            && s' == s.(slots := s'.slots, cur := s'.cur, started := true) && |s'.slots| == |s.slots|
            && s'.cur < |s.slots| && Live(s.slots[s'.cur])
            && s'.slots[i] == match s.slots[i]
                 case Empty => Empty
                 case Held(tid, pid, state) =>
                   if i == s'.cur then Held(tid, pid, Running)
                   else if s.started && i == s.cur && state == Running then Held(tid, pid, Ready)
                   else Held(tid, pid, state)
  {
    TickOutcome(s);
  }

  // The step ends the task in slot `i`: its own exit, or the exit of its process.
  predicate Ends(s: Sched, step: Step, i: nat)
    requires i < |s.slots| && s.cur < |s.slots|
  {
    match step
    case Exit => i == s.cur
    case ExitGroup => s.slots[i].Held? && s.slots[s.cur].Held? && s.slots[i].pid == s.slots[s.cur].pid
    case _ => false
  }

  // What every other step does to every slot.
  lemma StepEffect(s: Sched, step: Step, i: nat)
    requires Inv(s) && StepOk(s, step) && step != Tick && i < |s.slots|
    ensures var s' := Apply(s, step);
            && |s'.slots| == |s.slots| + (if step.Add? then 1 else 0)
            && (step.Add? ==> s'.slots[|s.slots|] == Held(step.tid, step.pid, Ready))
            && (s.slots[i].Held? && Ends(s, step, i) ==> s'.slots[i] == Held(s.slots[i].tid, s.slots[i].pid, Dead))
            && (step == Clear && s.pending == Some(i) ==> s'.slots[i] == Empty)
            && (!Ends(s, step, i) && !(step == Clear && s.pending == Some(i)) ==> s'.slots[i] == s.slots[i])
  {
  }

  // The daemon's test and clearing of a slot empty it exactly when it holds a dead task.
  lemma SweepEmpties(s: Sched, i: nat)
    requires Inv(s) && StepOk(s, Check(i)) && Inv(Apply(s, Check(i)))
    ensures StepOk(Apply(s, Check(i)), Clear) <==> s.slots[i].Held? && !Live(s.slots[i])
    ensures StepOk(Apply(s, Check(i)), Clear) ==>
              var s' := Apply(Apply(s, Check(i)), Clear);
              s'.slots == s.slots[i := Empty] && s'.pending.None?
  {
  }

  lemma ApplyKeepsInv(s: Sched, step: Step)
    requires Inv(s) && StepOk(s, step)
    ensures Inv(Apply(s, step)) && |s.slots| <= |Apply(s, step).slots|
  {
    if step == Tick {
      TickKeepsInv(s);
    }
  }

  lemma OnlyTickMoves(s: Sched, step: Step)
    requires Inv(s) && StepOk(s, step) && step != Tick
    ensures Apply(s, step).cur == s.cur && Apply(s, step).started == s.started
  {
  }

  ghost predicate RunOk(s: Sched, steps: seq<Step>)
    requires Inv(s)
    decreases |steps|
  {
    steps == [] || (StepOk(s, steps[0]) && (ApplyKeepsInv(s, steps[0]); RunOk(Apply(s, steps[0]), steps[1..])))
  }

  ghost function Run(s: Sched, steps: seq<Step>): Sched
    requires Inv(s) && RunOk(s, steps)
    decreases |steps|
  {
    if steps == [] then s else ApplyKeepsInv(s, steps[0]); Run(Apply(s, steps[0]), steps[1..])
  }

  // The state boot leaves: the daemon alone in the queue, nothing started.
  function Booted(tid: nat, pid: nat): (s: Sched)
    ensures Inv(s)
  {
    Sched([Held(tid, pid, Ready)], 0, false, false, None)
  }

  // Safety of every run from boot: the invariant, and no tick ever faults.
  lemma {:induction false} RunIsSafe(s: Sched, steps: seq<Step>)
    requires Inv(s) && RunOk(s, steps)
    ensures Inv(Run(s, steps)) && TickResult(Run(s, steps)).Some?
    decreases |steps|
  {
    if steps == [] {
      TickNeverFaults(s);
    } else {
      ApplyKeepsInv(s, steps[0]);
      RunIsSafe(Apply(s, steps[0]), steps[1..]);
    }
  }

  // ---------------------------------------------------------------- death is final

  // Slot `i` holds nothing but, at most, the dead task it held in `s`.
  ghost predicate Gone(s: Sched, s': Sched, i: nat)
    requires i < |s.slots|
  {
    i < |s'.slots| && (s'.slots[i] == Empty || s'.slots[i] == s.slots[i])
  }

  // A tick makes slot `j` current.
  ghost predicate Picks(s: Sched, step: Step, j: nat)
    requires Inv(s) && StepOk(s, step)
  {
    step == Tick && s.enabled && Apply(s, step).cur == j
  }

  // Some tick of the run does.
  ghost predicate Picked(s: Sched, steps: seq<Step>, j: nat)
    requires Inv(s) && RunOk(s, steps)
    decreases |steps|
  {
    steps != [] && (ApplyKeepsInv(s, steps[0]);
      Picks(s, steps[0], j) || Picked(Apply(s, steps[0]), steps[1..], j))
  }

  lemma StepKeepsDead(s: Sched, step: Step, i: nat)
    requires Inv(s) && StepOk(s, step) && i < |s.slots| && !Live(s.slots[i])
    ensures Gone(s, Apply(s, step), i) && !Live(Apply(s, step).slots[i])
    ensures !Picks(s, step, i)
  {
    if step == Tick {
      TickKeepsInv(s);
      NextLiveIsNearest(s.slots, s.cur);
    }
  }

  // Once a slot holds no live task it never does again: its task stays dead or is
  // cleared, no other takes its place, and no tick picks it.
  lemma {:induction false} DeadIsFinal(s: Sched, steps: seq<Step>, i: nat)
    requires Inv(s) && RunOk(s, steps) && i < |s.slots| && !Live(s.slots[i])
    ensures Gone(s, Run(s, steps), i) && !Picked(s, steps, i)
    decreases |steps|
  {
    if steps != [] {
      ApplyKeepsInv(s, steps[0]);
      StepKeepsDead(s, steps[0], i);
      DeadIsFinal(Apply(s, steps[0]), steps[1..], i);
    }
  }

  // After `sys_exit_group` no task of the process that was queued is ever picked.
  lemma GroupNeverPicked(s: Sched, steps: seq<Step>, i: nat)
    requires Inv(s) && StepOk(s, ExitGroup) && Inv(Apply(s, ExitGroup)) && RunOk(Apply(s, ExitGroup), steps)
    requires i < |s.slots| && s.slots[i].Held? && s.slots[i].pid == s.slots[s.cur].pid
    ensures !Picked(Apply(s, ExitGroup), steps, i)
  {
    DeadIsFinal(Apply(s, ExitGroup), steps, i);
  }

  // After `sys_exit` the task is dead and never picked again.
  lemma ExitedNeverPicked(s: Sched, steps: seq<Step>)
    requires Inv(s) && StepOk(s, Exit) && Inv(Apply(s, Exit)) && RunOk(Apply(s, Exit), steps)
    ensures Apply(s, Exit).slots[s.cur] == Held(s.slots[s.cur].tid, s.slots[s.cur].pid, Dead)
    ensures !Picked(Apply(s, Exit), steps, s.cur)
    ensures Gone(Apply(s, Exit), Run(Apply(s, Exit), steps), s.cur)
  {
    StepEffect(s, Exit, s.cur);
    DeadIsFinal(Apply(s, Exit), steps, s.cur);
  }

  // ---------------------------------------------------------------- bounded waiting

  function Ticks(steps: seq<Step>): nat {
    if steps == [] then 0 else (if steps[0] == Tick then 1 else 0) + Ticks(steps[1..])
  }

  function Adds(steps: seq<Step>): nat {
    if steps == [] then 0 else (if steps[0].Add? then 1 else 0) + Adds(steps[1..])
  }

  ghost predicate StaysLive(s: Sched, steps: seq<Step>, j: nat)
    requires Inv(s) && RunOk(s, steps) && j < |s.slots|
    decreases |steps|
  {
    Live(s.slots[j]) &&
    (steps == [] || (ApplyKeepsInv(s, steps[0]); StaysLive(Apply(s, steps[0]), steps[1..], j)))
  }

  // Some step of the run ends the task in slot `j`.
  ghost predicate Ended(s: Sched, steps: seq<Step>, j: nat)
    requires Inv(s) && RunOk(s, steps) && j < |s.slots|
    decreases |steps|
  {
    steps != [] && (ApplyKeepsInv(s, steps[0]);
      Ends(s, steps[0], j) || Ended(Apply(s, steps[0]), steps[1..], j))
  }

  predicate SameTask(x: Slot, y: Slot) {
    x.Held? && y.Held? && x.tid == y.tid && x.pid == y.pid
  }

  lemma StepKeepsLive(s: Sched, step: Step, j: nat)
    requires Inv(s) && StepOk(s, step) && j < |s.slots| && Live(s.slots[j])
    ensures j < |Apply(s, step).slots| && SameTask(s.slots[j], Apply(s, step).slots[j])
    ensures Live(Apply(s, step).slots[j]) <==> !Ends(s, step, j)
  {
    if step == Tick {
      if s.enabled {
        TickEffect(s, j);
      }
    } else {
      StepEffect(s, step, j);
    }
  }

  // A live task stays live, and the same task, exactly as long as neither it nor its
  // process exits: being switched out, cleaning up and new tasks do not end it.
  lemma {:induction false} LiveUntilExit(s: Sched, steps: seq<Step>, j: nat)
    requires Inv(s) && RunOk(s, steps) && j < |s.slots| && Live(s.slots[j])
    ensures StaysLive(s, steps, j) <==> !Ended(s, steps, j)
    ensures !Ended(s, steps, j) ==>
              j < |Run(s, steps).slots| && Live(Run(s, steps).slots[j]) && SameTask(s.slots[j], Run(s, steps).slots[j])
    decreases |steps|
  {
    if steps != [] {
      ApplyKeepsInv(s, steps[0]);
      StepKeepsLive(s, steps[0], j);
      if !Ends(s, steps[0], j) {
        LiveUntilExit(Apply(s, steps[0]), steps[1..], j);
      } else {
        EndedIsNotLive(Apply(s, steps[0]), steps[1..], j);
      }
    }
  }

  lemma EndedIsNotLive(s: Sched, steps: seq<Step>, j: nat)
    requires Inv(s) && RunOk(s, steps) && j < |s.slots| && !Live(s.slots[j])
    ensures !StaysLive(s, steps, j)
  {
  }

  // A tick that picks another slot brings the scan nearer to `j`.
  lemma TickComesNearer(s: Sched, j: nat)
    requires Inv(s) && s.enabled && j < |s.slots| && Live(s.slots[j])
    ensures TickResult(s).Some?
    ensures var s' := TickResult(s).value;
            && |s'.slots| == |s.slots| && s'.cur < |s.slots| && s'.enabled
            && (s'.cur == j || Dist(s'.cur, j, |s.slots|) < Dist(s.cur, j, |s.slots|))
  {
    TickKeepsInv(s);
    NextLiveIsNearest(s.slots, s.cur);
  }

  // A live task waits for at most as many ticks as there are slots up to its own,
  // and one more for every task added meanwhile, whatever else happens.
  lemma {:induction false} BoundedWaiting(s: Sched, steps: seq<Step>, j: nat)
    requires Inv(s) && s.enabled && RunOk(s, steps) && j < |s.slots| && StaysLive(s, steps, j)
    requires Ticks(steps) >= Dist(s.cur, j, |s.slots|) + Adds(steps)
    ensures Picked(s, steps, j)
    decreases |steps|
  {
    if steps != [] {
      var s' := Apply(s, steps[0]);
      ApplyKeepsInv(s, steps[0]);
      if steps[0] == Tick {
        TickComesNearer(s, j);
      }
      if !Picks(s, steps[0], j) {
        BoundedWaiting(s', steps[1..], j);
      }
    }
  }

  // So a live task is picked within the length of the queue and the number of additions,
  // in ticks, unless it or its process exits before.
  lemma WithinQueueLength(s: Sched, steps: seq<Step>, j: nat)
    requires Inv(s) && s.enabled && RunOk(s, steps) && j < |s.slots| && Live(s.slots[j]) && !Ended(s, steps, j)
    requires Ticks(steps) >= |s.slots| + Adds(steps)
    ensures Picked(s, steps, j)
  {
    LiveUntilExit(s, steps, j);
    BoundedWaiting(s, steps, j);
  }
}
