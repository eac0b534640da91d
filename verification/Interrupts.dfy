// The timer interrupt: what the processor and the stub push and pop, on a stack of
// 64-bit words. Stack addresses are word indices, a byte address divided by 8.
module Interrupts {
  import opened Words

  // The general registers but the stack pointer.
  datatype Regs = Regs(rax: Word, rcx: Word, rdx: Word, rsi: Word, rdi: Word,
                       r8: Word, r9: Word, r10: Word, r11: Word,
                       rbp: Word, rbx: Word, r12: Word, r13: Word, r14: Word, r15: Word)

  // What an interrupt saves of the interrupted code, and `iretq` restores.
  datatype Frame = Frame(rip: Word, cs: Word, rflags: Word, rsp: Word, ss: Word)

  datatype Context = Context(regs: Regs, frame: Frame)

  const SAVED := 20   // words of a saved context
  const ROOM := 24    // words the stub needs below the entry pointer, without the calls it makes

  // The registers a C function preserves, the registers it may clobber, and the frame,
  // each as the words the stub finds from the stack pointer up.
  function Preserved(r: Regs): (s: seq<Word>)
    ensures |s| == 6
  {
    [r.r15, r.r14, r.r13, r.r12, r.rbx, r.rbp]
  }

  function Scratch(r: Regs): (s: seq<Word>)
    ensures |s| == 9
  {
    [r.r11, r.r10, r.r9, r.r8, r.rdi, r.rsi, r.rdx, r.rcx, r.rax]
  }

  function Saved(f: Frame): (s: seq<Word>)
    ensures |s| == 5
  {
    [f.rip, f.cs, f.rflags, f.rsp, f.ss]
  }

  // A context as it lies on the stack of a task that is switched out.
  function Image(c: Context): (s: seq<Word>)
    ensures |s| == SAVED
  {
    Preserved(c.regs) + Scratch(c.regs) + Saved(c.frame)
  }

  // The image determines the context.
  lemma ImageInjective(c: Context, d: Context)
    requires Image(c) == Image(d)
    ensures c == d
  {
    var x, y := Image(c), Image(d);
    assert Preserved(c.regs) == x[..6] == y[..6] == Preserved(d.regs);
    assert Scratch(c.regs) == x[6..15] == y[6..15] == Scratch(d.regs);
    assert Saved(c.frame) == x[15..] == y[15..] == Saved(d.frame);
    PartsInjective(c, d);
  }

  lemma PartsInjective(c: Context, d: Context)
    requires Preserved(c.regs) == Preserved(d.regs) && Scratch(c.regs) == Scratch(d.regs)
    requires Saved(c.frame) == Saved(d.frame)
    ensures c == d
  {
    var p, q := Preserved(c.regs), Preserved(d.regs);
    assert p[0] == q[0] && p[1] == q[1] && p[2] == q[2] && p[3] == q[3] && p[4] == q[4] && p[5] == q[5];
    var s, t := Scratch(c.regs), Scratch(d.regs);
    assert s[0] == t[0] && s[1] == t[1] && s[2] == t[2] && s[3] == t[3] && s[4] == t[4];
    assert s[5] == t[5] && s[6] == t[6] && s[7] == t[7] && s[8] == t[8];
    var f, g := Saved(c.frame), Saved(d.frame);
    assert f[0] == g[0] && f[1] == g[1] && f[2] == g[2] && f[3] == g[3] && f[4] == g[4];
  }

  datatype Privilege = KernelMode | UserMode

  // The context a new task starts in: at its entry point, interrupts on, all
  // general registers zero. `kernelTop` and `userTop` are byte addresses.
  function StartContext(privilege: Privilege, entry: Word, kernelTop: Word, userTop: Word): Context {
    Context(Regs(0, 0, 0, 0, 0, 0, 0, 0, 0, 0, 0, 0, 0, 0, 0),
            if privilege == UserMode then Frame(entry, 0x1b, 0x202, userTop, 0x23)
            else Frame(entry, 0x08, 0x202, kernelTop, 0x10))
  }

  // A task starts at its entry point on the end of its stack, interrupts on, in the
  // segments of its privilege, with all general registers zero.
  ghost predicate Starts(c: Context, privilege: Privilege, entry: Word, kernelTop: Word, userTop: Word) {
    && c.frame.rip == entry && c.frame.rflags == 0x202
    && (privilege == UserMode ==> c.frame.cs == 0x1b && c.frame.ss == 0x23 && c.frame.rsp == userTop)
    && (privilege == KernelMode ==> c.frame.cs == 0x08 && c.frame.ss == 0x10 && c.frame.rsp == kernelTop)
    && (forall r | r in Preserved(c.regs) :: r == 0) && forall r | r in Scratch(c.regs) :: r == 0
  }

  lemma StartContextStarts(privilege: Privilege, entry: Word, kernelTop: Word, userTop: Word)
    ensures Starts(StartContext(privilege, entry, kernelTop, userTop), privilege, entry, kernelTop, userTop)
  {
  }

  lemma SameSlice(m: seq<Word>, m': seq<Word>, from: nat, to_: nat)
    requires from <= to_ <= |m| == |m'| && forall k | from <= k < to_ :: m'[k] == m[k]
    ensures m'[from..to_] == m[from..to_]
  {
  }

  class Cpu {
    const mem: array<Word>
    var regs: Regs
    var frame: Frame  // of the code that runs outside the kernel's interrupt path
    var rsp: nat      // stack pointer inside it

    constructor (mem: array<Word>, regs: Regs, frame: Frame)
      ensures this.mem == mem && this.regs == regs && this.frame == frame
    {
      this.mem := mem;
      this.regs := regs;
      this.frame := frame;
      rsp := 0;
    }

    method Push(w: Word)
      requires 1 <= rsp <= mem.Length
      modifies this`rsp, mem
      ensures rsp == old(rsp) - 1 && mem[rsp] == w
      ensures forall k | 0 <= k < mem.Length && k != rsp :: mem[k] == old(mem[k])
    {
      rsp := rsp - 1;
      mem[rsp] := w;
    }

    method Pop() returns (w: Word)
      requires rsp < mem.Length
      modifies this`rsp
      ensures rsp == old(rsp) + 1 && w == mem[old(rsp)]
    {
      w := mem[rsp];
      rsp := rsp + 1;
    }

    // A call into C code: it may use the stack between `base` and the stack pointer, and
    // the registers that the calling convention lets it clobber.
    method Call(base: nat)
      requires base <= rsp <= mem.Length
      modifies this`regs, mem
      ensures forall k | 0 <= k < mem.Length && !(base <= k < rsp) :: mem[k] == old(mem[k])
      ensures Preserved(regs) == Preserved(old(regs))
    {
      for k := base to rsp
        modifies mem
        invariant forall i | 0 <= i < mem.Length && !(base <= i < rsp) :: mem[i] == old(mem[i])
      {
        mem[k] := *;
      }
      var rax: Word, rcx: Word, rdx: Word, rsi: Word, rdi: Word := *, *, *, *, *;
      var r8: Word, r9: Word, r10: Word, r11: Word := *, *, *, *;
      regs := regs.(rax := rax, rcx := rcx, rdx := rdx, rsi := rsi, rdi := rdi,
                    r8 := r8, r9 := r9, r10 := r10, r11 := r11);
    }

    // What the processor pushes on entry: SS, RSP, RFLAGS, CS, RIP.
    method EnterInterrupt()
      requires 5 <= rsp <= mem.Length
      modifies this`rsp, mem
      ensures rsp == old(rsp) - 5 && mem[rsp..rsp + 5] == Saved(frame)
      ensures forall k | 0 <= k < mem.Length && !(rsp <= k < old(rsp)) :: mem[k] == old(mem[k])
    {
      Push(frame.ss);
      Push(frame.rsp);
      Push(frame.rflags);
      Push(frame.cs);
      Push(frame.rip);
    }

    // `iretq`.
    method Return()
      requires rsp + 5 <= mem.Length
      modifies this`rsp, this`frame
      ensures rsp == old(rsp) + 5 && Saved(frame) == mem[old(rsp)..old(rsp) + 5]
    {
      var rip := Pop();
      var cs := Pop();
      var rflags := Pop();
      var sp := Pop();
      var ss := Pop();
      frame := Frame(rip, cs, rflags, sp, ss);
    }

    method PushScratch()
      requires 9 <= rsp <= mem.Length
      modifies this`rsp, mem
      ensures rsp == old(rsp) - 9 && mem[rsp..rsp + 9] == Scratch(regs)
      ensures forall k | 0 <= k < mem.Length && !(rsp <= k < old(rsp)) :: mem[k] == old(mem[k])
    {
      Push(regs.rax);
      Push(regs.rcx);
      Push(regs.rdx);
      Push(regs.rsi);
      Push(regs.rdi);
      Push(regs.r8);
      Push(regs.r9);
      Push(regs.r10);
      Push(regs.r11);
    }

    method PopScratch()
      requires rsp + 9 <= mem.Length
      modifies this`rsp, this`regs
      ensures rsp == old(rsp) + 9 && Scratch(regs) == mem[old(rsp)..old(rsp) + 9]
      ensures Preserved(regs) == Preserved(old(regs))
    {
      var r11 := Pop();
      var r10 := Pop();
      var r9 := Pop();
      var r8 := Pop();
      var rdi := Pop();
      var rsi := Pop();
      var rdx := Pop();
      var rcx := Pop();
      var rax := Pop();
      regs := regs.(r11 := r11, r10 := r10, r9 := r9, r8 := r8, rdi := rdi,
                    rsi := rsi, rdx := rdx, rcx := rcx, rax := rax);
    }

    method PushPreserved()
      requires 6 <= rsp <= mem.Length
      modifies this`rsp, mem
      ensures rsp == old(rsp) - 6 && mem[rsp..rsp + 6] == Preserved(regs)
      ensures forall k | 0 <= k < mem.Length && !(rsp <= k < old(rsp)) :: mem[k] == old(mem[k])
    {
      Push(regs.rbp);
      Push(regs.rbx);
      Push(regs.r12);
      Push(regs.r13);
      Push(regs.r14);
      Push(regs.r15);
    }

    method PopPreserved()
      requires rsp + 6 <= mem.Length
      modifies this`rsp, this`regs
      ensures rsp == old(rsp) + 6 && Preserved(regs) == mem[old(rsp)..old(rsp) + 6]
    {
      var r15 := Pop();
      var r14 := Pop();
      var r13 := Pop();
      var r12 := Pop();
      var rbx := Pop();
      var rbp := Pop();
      regs := regs.(r15 := r15, r14 := r14, r13 := r13, r12 := r12, rbx := rbx, rbp := rbp);
    }

    // The stub up to the scheduler's answer: frame and scratch registers of the
    // interrupted code are on the stack, its other registers still in place.
    method Enter(base: nat)
      requires base + ROOM <= rsp <= mem.Length
      modifies this`rsp, this`regs, mem
      ensures rsp == old(rsp) - 14 && Preserved(regs) == Preserved(old(regs))
      ensures mem[rsp..rsp + 9] == Scratch(old(regs)) && mem[rsp + 9..rsp + 14] == Saved(frame)
      ensures forall k | 0 <= k < mem.Length && !(base <= k < old(rsp)) :: mem[k] == old(mem[k])
    {
      EnterInterrupt();
      ghost var f := rsp;
      PushScratch();
      ghost var m := mem[..];
      assert m[f..f + 5] == Saved(frame);
      Call(base);        // pic_eoi
      Push(0);           // room for the two task pointers
      Push(0);
      Call(base);        // scheduler_tick
      var current := Pop();
      var next := Pop();
      SameSlice(m, mem[..], rsp, rsp + 9);
      SameSlice(m, mem[..], f, f + 5);
    }

    // The way out of a switch, on the stack of the task to run.
    method Resume()
      requires rsp + SAVED <= mem.Length
      modifies this`rsp, this`regs, this`frame
      ensures Image(Context(regs, frame)) == mem[old(rsp)..old(rsp) + SAVED]
    {
      ghost var s := rsp;
      PopPreserved();
      PopScratch();
      Return();
      assert mem[s..s + SAVED] == mem[s..s + 6] + mem[s + 6..s + 15] + mem[s + 15..s + SAVED];
    }

    // Completes the saved context, leaves its address and loads the next space.
    method SwitchOut(base: nat, ghost c: Context) returns (savedSp: nat)
      requires base + 6 <= rsp && rsp + 14 <= mem.Length && c.frame == frame && Preserved(regs) == Preserved(c.regs)
      requires mem[rsp..rsp + 9] == Scratch(c.regs) && mem[rsp + 9..rsp + 14] == Saved(frame)
      modifies this`rsp, this`regs, mem
      ensures savedSp == old(rsp) - 6 && mem[savedSp..savedSp + SAVED] == Image(c)
      ensures forall k | 0 <= k < mem.Length && !(base <= k < old(rsp)) :: mem[k] == old(mem[k])
    {
      ghost var m, s := mem[..], rsp;
      PushPreserved();
      savedSp := rsp;
      ghost var m' := mem[..];
      SameSlice(m, m', s, s + 9);
      SameSlice(m, m', s + 9, s + 14);
      assert m'[savedSp..savedSp + SAVED] == m'[savedSp..s] + m'[s..s + 9] + m'[s + 9..s + 14];
      Call(base);        // vmm_switch
      SameSlice(m', mem[..], savedSp, savedSp + SAVED);
    }

    // The timer stub, entered with the stack pointer at `entry` on the stack that
    // begins at `base`. `switch` is the scheduler's answer, `nextSp` the saved stack
    // pointer of the task it picked, on the stack that begins at `nextBase`; `savedSp` is
    // what the stub stores for the interrupted one.
    method TimerInterrupt(base: nat, entry: nat, switch: bool, nextBase: nat, nextSp: nat) returns (savedSp: nat)
      requires base + ROOM <= entry <= mem.Length
      requires switch ==> nextBase <= nextSp && nextSp + SAVED <= mem.Length
      requires switch ==> nextSp + SAVED <= base || entry <= nextBase
      modifies this, mem
      ensures forall k | 0 <= k < mem.Length && !(base <= k < entry) && !(switch && nextBase <= k < nextSp) ::
                mem[k] == old(mem[k])
      ensures !switch ==> Context(regs, frame) == old(Context(regs, frame))
      ensures switch ==> savedSp == entry - SAVED
      ensures switch ==> mem[savedSp..entry] == Image(old(Context(regs, frame)))
      ensures switch ==> Image(Context(regs, frame)) == old(mem[nextSp..nextSp + SAVED])
    {
      ghost var c := Context(regs, frame);
      savedSp, rsp := 0, entry;
      Enter(base);
      if switch {
        savedSp := SwitchOut(base, c);
        SameSlice(old(mem[..]), mem[..], nextSp, nextSp + SAVED);
        ghost var m := mem[..];
        rsp := nextSp;
        Call(nextBase);    // tss_update
        SameSlice(m, mem[..], nextSp, nextSp + SAVED);
        SameSlice(m, mem[..], savedSp, entry);
        Resume();
      } else {
        PopScratch();
        Return();
        PartsInjective(Context(regs, frame), c);
      }
    }
  }

  // The stack that `task_create` fabricates: a frame to return through and fifteen
  // zeros for the registers. `top` is the word index of the kernel stack's end.
  method BuildStack(mem: array<Word>, top: nat, privilege: Privilege, entry: Word, userTop: Word) returns (sp: nat)
    requires SAVED <= top <= mem.Length && top * 8 < WORD
    modifies mem
    ensures sp == top - SAVED && mem[sp..top] == Image(StartContext(privilege, entry, top * 8, userTop))
    ensures forall k | top - 20 <= k < top - 5 :: mem[k] == 0
    ensures mem[top - 5] == entry && mem[top - 3] == 0x202
    ensures privilege == UserMode ==> mem[top - 4] == 0x1b && mem[top - 2] == userTop && mem[top - 1] == 0x23
    ensures privilege == KernelMode ==> mem[top - 4] == 0x08 && mem[top - 2] == top * 8 && mem[top - 1] == 0x10
    ensures forall k | 0 <= k < mem.Length && !(sp <= k < top) :: mem[k] == old(mem[k])
  {
    sp := top - 1;
    mem[sp] := if privilege == UserMode then 0x23 else 0x10;
    sp := sp - 1;
    mem[sp] := if privilege == UserMode then userTop else top * 8;
    sp := sp - 1;
    mem[sp] := 0x202;
    sp := sp - 1;
    mem[sp] := if privilege == UserMode then 0x1b else 0x08;
    sp := sp - 1;
    mem[sp] := entry;
    sp := sp - 9;
    ZeroWords(mem, sp, 9);
    sp := sp - 6;
    ZeroWords(mem, sp, 6);
  }

  method ZeroWords(mem: array<Word>, at: nat, n: nat)
    requires at + n <= mem.Length
    modifies mem
    ensures forall k | 0 <= k < mem.Length :: mem[k] == if at <= k < at + n then 0 else old(mem[k])
  {
    for i := 0 to n
      invariant forall k | 0 <= k < mem.Length :: mem[k] == if at <= k < at + i then 0 else old(mem[k])
    {
      mem[at + i] := 0;
    }
  }
}
