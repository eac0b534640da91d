// The kernel heap: a bump pointer that maps fresh frames at ever higher addresses.
module Heap {
  import Addresses
  import Boot
  import Mapping
  import opened Options
  import opened PageTables
  import Plans
  import Pmm
  import opened Spaces
  import Teardown
  import Vmm
  import Words

  const HEAP_START := 0xFFFF_DEAD_BEEF_0000
  const HEAP_END := 0xFFFF_FFFF_8000_0000
  const CAPACITY := (HEAP_END - HEAP_START) / Addresses.PAGE  // pages the range holds

  // The page-table path of the heap's page `j`.
  function HeapPath(j: nat): (p: seq<nat>)
    ensures IsPath(p)
  {
    Addresses.PathOf(HEAP_START + j * Addresses.PAGE)
  }

  lemma HeapPage(j: nat)
    requires j < CAPACITY
    ensures (HEAP_START + j * Addresses.PAGE) / Addresses.PAGE % Addresses.PAGES == 0xD_EADB_EEF0 + j
  {
    assert (HEAP_START + j * Addresses.PAGE) / Addresses.PAGE == 0xF_FFFD_EADB_EEF0 + j;
  }

  lemma HeapPathInjective(i: nat, j: nat)
    requires i < CAPACITY && j < CAPACITY && HeapPath(i) == HeapPath(j)
    ensures i == j
  {
    HeapPage(i);
    HeapPage(j);
    Addresses.SamePathSamePage(HEAP_START + i * Addresses.PAGE, HEAP_START + j * Addresses.PAGE);
  }

  // Pages a request takes; the sum is computed in 64 bits.
  function PageCount(size: nat): nat {
    (size + Addresses.PAGE - 1) % Words.WORD / Addresses.PAGE
  }

  // The block is as large as asked exactly when the rounding does not wrap, and never
  // a page too large.
  lemma PageCountCovers(size: nat)
    requires 0 < size < Words.WORD
    ensures PageCount(size) * Addresses.PAGE >= size <==> size + Addresses.PAGE - 1 < Words.WORD
    ensures PageCount(size) * Addresses.PAGE < size + Addresses.PAGE
  {
  }

  lemma PageAddress(j: nat)
    requires j < CAPACITY
    ensures HEAP_START + j * Addresses.PAGE < Words.WORD
    ensures Addresses.PathOf(HEAP_START + j * Addresses.PAGE) == HeapPath(j)
  {
  }

  // The address of page `j`, or of any byte in it, takes the path of the page.
  lemma HeapAddress(a: nat, j: nat)
    requires j < CAPACITY && HEAP_START + j * Addresses.PAGE <= a < HEAP_START + (j + 1) * Addresses.PAGE
    ensures Addresses.PathOf(a) == HeapPath(j)
  {
    HeapPage(j);
    assert a / Addresses.PAGE == (HEAP_START + j * Addresses.PAGE) / Addresses.PAGE;
    Addresses.SamePathSamePage(a, HEAP_START + j * Addresses.PAGE);
  }

  // ---------------------------------------------------------------- what the heap guarantees

  // The leaf that the heap's page `j` is mapped to in the space of root `r`.
  ghost function HeapEntry(s: State, r: nat, j: nat): Option<Entry> {
    Translate(s.mem, r, HeapPath(j))
  }

  // Page `j` of the heap, for all `j` below the number of pages handed out, is mapped
  // to a frame of its own that is allocated and no table; the rest is unmapped.
  ghost predicate HeapOk(s: State, r: nat, frames: seq<nat>) {
    && Wf(s) && IsRoot(s, r) && |frames| <= CAPACITY
    && (forall j | 0 <= j < |frames| :: HeapEntry(s, r, j) == Some(Entry(frames[j], 3)))
    && (forall j | 0 <= j < |frames| :: frames[j] < Frames(s.mem) && frames[j] !in s.free && frames[j] !in s.lev)
    && (forall i, j | 0 <= i < j < |frames| :: frames[i] != frames[j])
    && (forall j | |frames| <= j < CAPACITY :: HeapEntry(s, r, j).None?)
  }

  // Events outside the heap neither map nor unmap a heap page.
  ghost predicate IsHeapPath(p: seq<nat>) {
    exists j :: 0 <= j < CAPACITY && p == HeapPath(j)
  }

  ghost predicate Quiet(ev: Event) {
    match ev
    case MapPage(_, p, _) => !IsHeapPath(p)
    case Build(_, p, _) => !IsHeapPath(p)
    case UnmapPage(_, p) => !IsHeapPath(p)
    case _ => true
  }

  // An event frees nothing and makes tables of free frames only.
  lemma EventFrames(s: State, ev: Event)
    requires Wf(s) && EventOk(s, ev)
    ensures Apply(s, ev).free <= s.free && |Apply(s, ev).mem| == |s.mem|
    ensures forall f | f in Apply(s, ev).lev && f !in s.lev :: f in s.free
  {
    match ev {
      case MapPage(r, p, e) =>
        Teardown.FillLevels(s, r, p, 3, e.flags);
      case Build(r, p, flags) =>
        TakeFrameWf(s);
        Teardown.FillLevels(TakeFrame(s), r, p, 3, flags);
      case _ =>
    }
  }

  lemma QuietTranslate(s: State, ev: Event, r: nat, q: seq<nat>)
    requires Wf(s) && EventOk(s, ev) && Quiet(ev) && IsRoot(s, r) && IsPath(q) && IsHeapPath(q)
    ensures Translate(Apply(s, ev).mem, r, q) == Translate(s.mem, r, q)
  {
    match ev {
      case Alloc =>
      case MapPage(r2, p, e) => Mapping.MapRefines(s, r2, p, e, r, q);
      case Build(r2, p, flags) =>
        TakeFrameWf(s);
        Mapping.MapRefines(TakeFrame(s), r2, p, Entry(Pmm.Lowest(s.free), flags), r, q);
      case UnmapPage(r2, p) => Mapping.UnmapRefines(s, r2, p, r, q);
      case Create(cur) => Mapping.CreatedTranslate(s, cur, NewSpace(s, cur), r, q);
      case Store(f, i, e) => Mapping.StoreTranslate(s, f, i, e, r, q);
    }
  }

  lemma QuietKeepsHeap(s: State, ev: Event, r: nat, frames: seq<nat>)
    requires HeapOk(s, r, frames) && EventOk(s, ev) && Quiet(ev)
    ensures HeapOk(Apply(s, ev), r, frames)
  {
    var s' := Apply(s, ev);
    ApplyWf(s, ev);
    EventFrames(s, ev);
    forall j: nat | j < CAPACITY
      ensures HeapEntry(s', r, j) == HeapEntry(s, r, j)
    {
      QuietTranslate(s, ev, r, HeapPath(j));
    }
  }

  // A page built in a space that shares the page's top slot with `r` is a page of `r`.
  lemma PageExtendsHeap(s: State, r: nat, root: nat, frames: seq<nat>)
    requires HeapOk(s, r, frames) && StepOk(s, r, |frames|, NewPage(root))
    ensures HeapOk(Apply(s, PageEvent(root, |frames|)), r, frames + [Pmm.Lowest(s.free)])
  {
    var ev := PageEvent(root, |frames|);
    var s' := Apply(s, ev);
    ApplyWf(s, ev);
    EventFrames(s, ev);
    PageIsUsed(s, root, |frames|);
    forall j: nat | j < CAPACITY
      ensures HeapEntry(s', r, j) == if j == |frames| then Some(Entry(Pmm.Lowest(s.free), 3)) else HeapEntry(s, r, j)
    {
      assert HeapEntry(s, r, |frames|).None?;
      PageTranslates(s, r, root, |frames|, j);
    }
  }

  lemma PageEventIs(s: State, root: nat, n: nat)
    requires Wf(s) && EventOk(s, PageEvent(root, n))
    ensures s.free != {} && Wf(TakeFrame(s)) && Mapping.CanMap(TakeFrame(s), root, HeapPath(n))
    ensures Apply(s, PageEvent(root, n)) ==
            Mapping.Map(TakeFrame(s), root, HeapPath(n), Entry(Pmm.Lowest(s.free), 3))
  {
    TakeFrameWf(s);
  }

  lemma PageIsUsed(s: State, root: nat, n: nat)
    requires Wf(s) && EventOk(s, PageEvent(root, n))
    ensures Wf(Apply(s, PageEvent(root, n)))
    ensures Pmm.Lowest(s.free) !in Apply(s, PageEvent(root, n)).free
    ensures Pmm.Lowest(s.free) !in Apply(s, PageEvent(root, n)).lev
  {
    TakeFrameWf(s);
    ApplyWf(s, PageEvent(root, n));
    Teardown.FillLevels(TakeFrame(s), root, HeapPath(n), 3, 3);
    Mapping.MapWf(TakeFrame(s), root, HeapPath(n), Entry(Pmm.Lowest(s.free), 3));
  }

  lemma PageTranslates(s: State, r: nat, root: nat, n: nat, j: nat)
    requires Wf(s) && IsRoot(s, r) && StepOk(s, r, n, NewPage(root)) && j < CAPACITY
    requires Translate(s.mem, r, HeapPath(n)).None?
    ensures Translate(Apply(s, PageEvent(root, n)).mem, r, HeapPath(j)) ==
            if j == n then Some(Entry(Pmm.Lowest(s.free), 3)) else Translate(s.mem, r, HeapPath(j))
  {
    TakeFrameWf(s);
    Mapping.MapRefines(TakeFrame(s), root, HeapPath(n), Entry(Pmm.Lowest(s.free), 3), r, HeapPath(j));
    SameTopSameTranslate(s.mem, root, r, HeapPath(n));
    if HeapPath(j) == HeapPath(n) {
      HeapPathInjective(j, n);
    }
  }

  lemma SameTopSameTranslate(m: Memory, r: nat, r': nat, p: seq<nat>)
    requires IsPath(p) && SameTop(m, r, r', p[0])
    ensures Translate(m, r, p) == Translate(m, r', p)
  {
    if r != r' {
      SameTopSameWalk(m, r, r', p[..3]);
    }
  }

  // ---------------------------------------------------------------- runs, page by page

  // The heap grows by a page while the space `root` is loaded, or something else runs.
  datatype HeapStep = NewPage(root: nat) | Other(event: Event)

  function PageEvent(root: nat, j: nat): Event {
    Build(root, HeapPath(j), 3)
  }

  // What a step does to a heap of `n` pages, and how many pages it has then.
  function StepEvent(n: nat, step: HeapStep): Event {
    match step
    case NewPage(root) => PageEvent(root, n)
    case Other(ev) => ev
  }

  function Pages(n: nat, step: HeapStep): nat {
    if step.NewPage? then n + 1 else n
  }

  // A page is possible where frames are left (the kernel panics otherwise), the range
  // is not used up, and the loaded space shares the page's top slot with `r`. Other
  // steps stay away from the heap range.
  ghost predicate StepOk(s: State, r: nat, n: nat, step: HeapStep) {
    match step
    case NewPage(root) => EventOk(s, PageEvent(root, n)) && n < CAPACITY && SameTop(s.mem, root, r, HeapPath(n)[0])
    case Other(ev) => EventOk(s, ev) && Quiet(ev)
  }

  ghost predicate StepsOk(s: State, r: nat, n: nat, steps: seq<HeapStep>)
    requires Wf(s)
    decreases |steps|
  {
    steps == [] ||
    (StepOk(s, r, n, steps[0]) &&
     (ApplyWf(s, StepEvent(n, steps[0])); StepsOk(Apply(s, StepEvent(n, steps[0])), r, Pages(n, steps[0]), steps[1..])))
  }

  ghost function RunSteps(s: State, r: nat, n: nat, steps: seq<HeapStep>): State
    requires Wf(s) && StepsOk(s, r, n, steps)
    decreases |steps|
  {
    if steps == [] then s else
      ApplyWf(s, StepEvent(n, steps[0]));
      RunSteps(Apply(s, StepEvent(n, steps[0])), r, Pages(n, steps[0]), steps[1..])
  }

  function NewCount(steps: seq<HeapStep>): nat {
    if steps == [] then 0 else (if steps[0].NewPage? then 1 else 0) + NewCount(steps[1..])
  }

  // Over every run, with any other activity in between: every page handed out keeps
  // the frame it got, no two pages share one, none of them becomes a table, and there
  // are as many as were asked for.
  lemma {:induction false} HeapRunSafe(s: State, r: nat, frames: seq<nat>, steps: seq<HeapStep>)
    returns (frames': seq<nat>)
    requires HeapOk(s, r, frames) && StepsOk(s, r, |frames|, steps)
    ensures frames <= frames' && |frames'| == |frames| + NewCount(steps)
    ensures HeapOk(RunSteps(s, r, |frames|, steps), r, frames')
    decreases |steps|
  {
    if steps == [] {
      frames' := frames;
    } else {
      var ev := StepEvent(|frames|, steps[0]);
      ApplyWf(s, ev);
      var f := StepSafe(s, r, frames, steps[0]);
      frames' := HeapRunSafe(Apply(s, ev), r, f, steps[1..]);
    }
  }

  lemma StepSafe(s: State, r: nat, frames: seq<nat>, step: HeapStep) returns (frames': seq<nat>)
    requires HeapOk(s, r, frames) && StepOk(s, r, |frames|, step)
    ensures frames <= frames' && |frames'| == Pages(|frames|, step)
    ensures HeapOk(Apply(s, StepEvent(|frames|, step)), r, frames')
  {
    match step {
      case NewPage(root) =>
        PageExtendsHeap(s, r, root, frames);
        frames' := frames + [Pmm.Lowest(s.free)];
      case Other(ev) =>
        QuietKeepsHeap(s, ev, r, frames);
        frames' := frames;
    }
  }

  // A space that shares the top slot of a page sees the page as `r` does.
  lemma HeapSeenFrom(s: State, r: nat, r2: nat, frames: seq<nat>, j: nat)
    requires HeapOk(s, r, frames) && j < |frames| && SameTop(s.mem, r2, r, HeapPath(j)[0])
    ensures HeapEntry(s, r2, j) == Some(Entry(frames[j], 3))
  {
    assert HeapEntry(s, r, j) == Some(Entry(frames[j], 3));
    SameTopSameTranslate(s.mem, r2, r, HeapPath(j));
  }

  // A shared slot that is there stays shared.
  lemma SharedSlotStays(s: State, ev: Event, r: nat, r2: nat, i: nat)
    requires Wf(s) && EventOk(s, ev) && IsRoot(s, r) && IsRoot(s, r2) && SameTop(s.mem, r2, r, i)
    ensures SameTop(Apply(s, ev).mem, r2, r, i)
  {
    ApplyKeepsTop(s, ev);
    assert r != r2 ==> Step(Apply(s, ev).mem, r, i) == Step(s.mem, r, i);
  }

  // ---------------------------------------------------------------- runs, call by call

  datatype HeapCall = Kmalloc(root: nat, size: nat) | Else(event: Event)

  // A request for `k` pages.
  function NewPages(root: nat, k: nat): (steps: seq<HeapStep>)
    ensures |steps| == k
  {
    seq(k, _ => NewPage(root))
  }

  function CallSteps(call: HeapCall): seq<HeapStep> {
    match call
    case Kmalloc(root, size) => NewPages(root, PageCount(size))
    case Else(ev) => [Other(ev)]
  }

  function Steps(calls: seq<HeapCall>): seq<HeapStep> {
    if calls == [] then [] else CallSteps(calls[0]) + Steps(calls[1..])
  }

  // A block: its first page, where the pointer returned points to, and its length.
  datatype Block = Block(first: nat, pages: nat)

  predicate InBlock(b: Block, a: int) {
    HEAP_START + b.first * Addresses.PAGE <= a < HEAP_START + (b.first + b.pages) * Addresses.PAGE
  }

  // The heap page that an address lies in.
  function PageOf(a: nat): nat {
    if a < HEAP_START then 0 else (a - HEAP_START) / Addresses.PAGE
  }

  // The blocks that the calls return, on a heap of `n` pages; a request for nothing
  // returns none.
  function Blocks(n: nat, calls: seq<HeapCall>): seq<Block>
    decreases |calls|
  {
    if calls == [] then [] else
      match calls[0]
      case Else(_) => Blocks(n, calls[1..])
      case Kmalloc(_, size) =>
        if size == 0 then Blocks(n, calls[1..])
        else [Block(n, PageCount(size))] + Blocks(n + PageCount(size), calls[1..])
  }

  lemma {:induction false} CountNewPages(root: nat, k: nat, rest: seq<HeapStep>)
    ensures NewCount(NewPages(root, k) + rest) == k + NewCount(rest)
    decreases k
  {
    if k == 0 {
      assert NewPages(root, 0) + rest == rest;
    } else {
      assert (NewPages(root, k) + rest)[1..] == NewPages(root, k - 1) + rest;
      CountNewPages(root, k - 1, rest);
    }
  }

  // The blocks lie one behind the other, from page `from` to page `to_`.
  predicate Ordered(b: seq<Block>, from: nat, to_: nat)
    decreases |b|
  {
    if b == [] then from <= to_ else from <= b[0].first && Ordered(b[1..], b[0].first + b[0].pages, to_)
  }

  lemma {:induction false} OrderedPairs(b: seq<Block>, from: nat, to_: nat)
    requires Ordered(b, from, to_)
    ensures forall i | 0 <= i < |b| :: from <= b[i].first && b[i].first + b[i].pages <= to_
    ensures forall i, j | 0 <= i < j < |b| :: b[i].first + b[i].pages <= b[j].first
    decreases |b|
  {
    if b != [] {
      OrderedPairs(b[1..], b[0].first + b[0].pages, to_);
      OrderedEnd(b[1..], b[0].first + b[0].pages, to_);
      assert forall i | 1 <= i < |b| :: b[i] == b[1..][i - 1];
    }
  }

  lemma {:induction false} OrderedEnd(b: seq<Block>, from: nat, to_: nat)
    requires Ordered(b, from, to_)
    ensures from <= to_
    decreases |b|
  {
    if b != [] {
      OrderedEnd(b[1..], b[0].first + b[0].pages, to_);
    }
  }

  lemma {:induction false} BlocksInOrder(n: nat, calls: seq<HeapCall>)
    ensures Ordered(Blocks(n, calls), n, n + NewCount(Steps(calls)))
    decreases |calls|
  {
    if calls != [] {
      match calls[0] {
        case Else(ev) =>
          assert ([Other(ev)] + Steps(calls[1..]))[1..] == Steps(calls[1..]);
          BlocksInOrder(n, calls[1..]);
        case Kmalloc(root, size) =>
          var k := PageCount(size);
          CountNewPages(root, k, Steps(calls[1..]));
          BlocksInOrder(n + k, calls[1..]);
          var end := n + k + NewCount(Steps(calls[1..]));
          assert end == n + NewCount(Steps(calls));
          OrderedCons(Block(n, k), Blocks(n + k, calls[1..]), end);
      }
    }
  }

  lemma OrderedCons(b: Block, rest: seq<Block>, to_: nat)
    requires Ordered(rest, b.first + b.pages, to_)
    ensures Ordered([b] + rest, b.first, to_)
    ensures b.pages == 0 ==> Ordered(rest, b.first, to_)
  {
    assert ([b] + rest)[1..] == rest;
  }

  // An address in a block lies in one of its pages, and in no block behind it.
  lemma InBlockPage(b: Block, a: nat, n: nat)
    requires InBlock(b, a) && b.first + b.pages <= n <= CAPACITY
    ensures PageOf(a) < n && Addresses.PathOf(a) == HeapPath(PageOf(a))
    ensures forall c: Block | b.first + b.pages <= c.first :: !InBlock(c, a)
  {
    assert PageOf(a) < b.first + b.pages;
    HeapAddress(a, PageOf(a));
  }

  ghost predicate NoOverlap(blocks: seq<Block>) {
    forall i, j, a: nat {:trigger InBlock(blocks[i], a), InBlock(blocks[j], a)} |
      0 <= i < j < |blocks| && InBlock(blocks[i], a) :: !InBlock(blocks[j], a)
  }

  // Every address in a block is mapped to the frame of its page.
  ghost predicate BlocksMapped(s: State, r: nat, blocks: seq<Block>, frames: seq<nat>) {
    forall b, a: nat | b in blocks && InBlock(b, a) ::
      PageOf(a) < |frames| && Translate(s.mem, r, Addresses.PathOf(a)) == Some(Entry(frames[PageOf(a)], 3))
  }

  lemma InOrderNoOverlap(blocks: seq<Block>, n: nat)
    requires n <= CAPACITY && forall i | 0 <= i < |blocks| :: blocks[i].first + blocks[i].pages <= n
    requires forall i, j | 0 <= i < j < |blocks| :: blocks[i].first + blocks[i].pages <= blocks[j].first
    ensures NoOverlap(blocks)
  {
    forall i, j, a: nat | 0 <= i < j < |blocks| && InBlock(blocks[i], a)
      ensures !InBlock(blocks[j], a)
    {
      InBlockPage(blocks[i], a, n);
    }
  }

  lemma InOrderMapped(s: State, r: nat, blocks: seq<Block>, frames: seq<nat>)
    requires HeapOk(s, r, frames) && forall i | 0 <= i < |blocks| :: blocks[i].first + blocks[i].pages <= |frames|
    ensures BlocksMapped(s, r, blocks, frames)
  {
    forall b, a: nat | b in blocks && InBlock(b, a)
      ensures PageOf(a) < |frames| && Translate(s.mem, r, Addresses.PathOf(a)) == Some(Entry(frames[PageOf(a)], 3))
    {
      InBlockPage(b, a, |frames|);
      assert HeapEntry(s, r, PageOf(a)) == Some(Entry(frames[PageOf(a)], 3));
    }
  }

  lemma OrderedApart(s: State, r: nat, blocks: seq<Block>, from: nat, frames: seq<nat>)
    requires HeapOk(s, r, frames) && Ordered(blocks, from, |frames|)
    ensures NoOverlap(blocks) && BlocksMapped(s, r, blocks, frames)
  {
    OrderedPairs(blocks, from, |frames|);
    InOrderNoOverlap(blocks, |frames|);
    InOrderMapped(s, r, blocks, frames);
  }

  // Over every run of requests, from whatever spaces, and of anything else: no address
  // lies in two blocks, and every page of every block is mapped to a frame of its own.
  lemma BlocksApart(s: State, r: nat, frames: seq<nat>, calls: seq<HeapCall>)
    returns (s': State, frames': seq<nat>, blocks: seq<Block>)
    requires HeapOk(s, r, frames) && StepsOk(s, r, |frames|, Steps(calls))
    ensures s' == RunSteps(s, r, |frames|, Steps(calls)) && blocks == Blocks(|frames|, calls)
    ensures frames <= frames' && |frames'| == |frames| + NewCount(Steps(calls)) && HeapOk(s', r, frames')
    ensures NoOverlap(blocks) && BlocksMapped(s', r, blocks, frames')
  {
    s', blocks := RunSteps(s, r, |frames|, Steps(calls)), Blocks(|frames|, calls);
    frames' := HeapRunSafe(s, r, frames, Steps(calls));
    BlocksInOrder(|frames|, calls);
    OrderedApart(s', r, blocks, |frames|, frames');
  }

  // A request passes from one state to the next by a page, here page `n`.
  ghost predicate PlanAt(states: seq<State>, r: nat, root: nat, i: nat, n: nat) {
    && i + 1 < |states| && Wf(states[i]) && StepOk(states[i], r, n, NewPage(root))
    && states[i + 1] == Apply(states[i], PageEvent(root, n))
  }

  lemma PlanShift(s: State, rest: seq<State>, r: nat, root: nat, h: nat, i: nat, n: nat)
    requires i == h + 1 && PlanAt(rest, r, root, h, n)
    ensures PlanAt([s] + rest, r, root, i, n)
  {
    assert ([s] + rest)[i] == rest[h] && ([s] + rest)[i + 1] == rest[i];
  }

  lemma PlanCons(s: State, r: nat, n: nat, root: nat, rest: seq<State>) returns (states: seq<State>)
    requires Wf(s) && StepOk(s, r, n, NewPage(root)) && rest != [] && rest[0] == Apply(s, PageEvent(root, n))
    requires forall i: nat, m: nat | i < |rest| - 1 && m == n + 1 + i :: PlanAt(rest, r, root, i, m)
    ensures |states| == |rest| + 1 && states[0] == s && states[|rest|] == rest[|rest| - 1]
    ensures forall i: nat, m: nat | i < |rest| && m == n + i :: PlanAt(states, r, root, i, m)
  {
    states := [s] + rest;
    forall i: nat, m: nat | i < |rest| && m == n + i
      ensures PlanAt(states, r, root, i, m)
    {
      if i > 0 {
        var h := i - 1;
        PlanShift(s, rest, r, root, h, i, m);
      }
    }
  }

  lemma {:induction false} PlanPages(s: State, r: nat, n: nat, root: nat, k: nat) returns (states: seq<State>)
    requires Wf(s) && StepsOk(s, r, n, NewPages(root, k))
    ensures |states| == k + 1 && states[0] == s && states[k] == RunSteps(s, r, n, NewPages(root, k))
    ensures forall i: nat, m: nat | i < k && m == n + i :: PlanAt(states, r, root, i, m)
    decreases k
  {
    if k == 0 {
      states := [s];
    } else {
      ApplyWf(s, PageEvent(root, n));
      assert NewPages(root, k)[1..] == NewPages(root, k - 1);
      var rest := PlanPages(Apply(s, PageEvent(root, n)), r, n + 1, root, k - 1);
      states := PlanCons(s, r, n, root, rest);
    }
  }

  // ---------------------------------------------------------------- an empty heap at boot

  const CANONICAL := 0xFFFF_0000_0000_0000  // from here on no two pages of the address space share a path

  // The range lies in the upper part of the address space and meets no page of the heap.
  predicate ClearOfHeap(g: Plans.Range) {
    && Plans.RangeOk(g) && CANONICAL <= g.virt
    && (g.virt + g.count * Addresses.PAGE <= HEAP_START || HEAP_END <= g.virt)
  }

  lemma UpperPage(x: nat, a: nat)
    requires a == x * Addresses.PAGE && CANONICAL <= a < Words.WORD
    ensures a / Addresses.PAGE == x && x % Addresses.PAGES == x - 0xF_FFF0_0000_0000
  {
    assert 0xF_FFF0_0000_0000 <= x < 0x10_0000_0000_0000;
  }

  lemma ClearPage(g: Plans.Range, i: nat, j: nat)
    requires ClearOfHeap(g) && i < g.count && j < CAPACITY
    ensures Plans.PageAt(g, i).path != HeapPath(j)
  {
    var x, a := g.virt / Addresses.PAGE + i, g.virt + i * Addresses.PAGE;
    HeapPage(j);
    Addresses.SamePathSamePage(a, HEAP_START + j * Addresses.PAGE);
    UpperPage(x, a);
  }

  lemma {:induction false} NoLeaf(pages: seq<Plans.Page>, q: seq<nat>)
    requires forall page | page in pages :: page.path != q
    ensures Plans.FirstLeaf(pages, q).None?
    decreases |pages|
  {
    if pages != [] {
      NoLeaf(pages[..|pages| - 1], q);
    }
  }

  lemma {:induction false} NotInRanges(ranges: seq<Plans.Range>, j: nat)
    requires (forall g | g in ranges :: ClearOfHeap(g)) && j < CAPACITY
    ensures Plans.FirstIn(ranges, HeapPath(j)).None?
    decreases |ranges|
  {
    if ranges != [] {
      NotInRanges(ranges[..|ranges| - 1], j);
      var g := ranges[|ranges| - 1];
      forall i | 0 <= i < g.count
        ensures Plans.RangePages(g)[i].path != HeapPath(j)
      {
        ClearPage(g, i, j);
      }
      NoLeaf(Plans.RangePages(g), HeapPath(j));
    }
  }

  // A space that maps just what ranges clear of the heap say has an empty heap.
  lemma EmptyHeap(s: State, r: nat, ranges: seq<Plans.Range>)
    requires Wf(s) && IsRoot(s, r) && forall g | g in ranges :: ClearOfHeap(g)
    requires forall q | IsPath(q) :: Translate(s.mem, r, q) == Plans.FirstIn(ranges, q)
    ensures HeapOk(s, r, [])
  {
    forall j: nat | j < CAPACITY
      ensures HeapEntry(s, r, j).None?
    {
      NotInRanges(ranges, j);
    }
  }

  // ---------------------------------------------------------------- the allocator itself

  class KernelHeap {
    const mm: Vmm.MemoryManager
    ghost const home: nat        // root of the space that the heap is described in
    var bump: nat                // next virtual address to hand out
    ghost var frames: seq<nat>   // frames of the pages handed out

    ghost predicate Valid()
      reads this, mm, mm.mem, mm.pmm.bitmap
    {
      mm.Valid() && HeapOk(mm.View(), home, frames) && bump == HEAP_START + |frames| * Addresses.PAGE
    }

    constructor (mm: Vmm.MemoryManager)
      requires mm.Valid() && HeapOk(mm.View(), mm.cr3, [])
      ensures Valid() && this.mm == mm && home == mm.cr3 && frames == []
    {
      this.mm := mm;
      home := mm.cr3;
      bump := HEAP_START;
      frames := [];
    }

    // The address of the lowest free frame, which is taken.
    method FreshFrame() returns (pa: nat)
      requires mm.Valid() && mm.View().free != {}
      modifies mm.pmm.bitmap
      ensures mm.Valid() && mm.View() == TakeFrame(old(mm.View()))
      ensures pa % Pmm.FRAME_SIZE == 0 && pa < Vmm.MAX_FRAMES * Pmm.FRAME_SIZE
      ensures pa / Pmm.FRAME_SIZE == Pmm.Lowest(old(mm.View()).free)
    {
      TakeFrameWf(mm.View());
      var page := mm.pmm.Alloc();
      return page.value;
    }

    // A fresh frame, mapped at `va` in the space that is loaded.
    method MapFresh(va: nat, ghost n: nat)
      requires mm.Valid() && EventOk(mm.View(), PageEvent(mm.cr3, n)) && va < Words.WORD
      requires Addresses.PathOf(va) == HeapPath(n)
      modifies mm`lev, mm.mem, mm.pmm.bitmap
      ensures mm.Valid() && mm.View() == Apply(old(mm.View()), PageEvent(mm.cr3, n))
    {
      ghost var s := mm.View();
      PageEventIs(s, mm.cr3, n);
      var pa := FreshFrame();
      mm.VmmMap(mm.cr3, va, pa, 3);
    }

    // One turn of the loop.
    method TakePage()
      requires Valid() && StepOk(mm.View(), home, |frames|, NewPage(mm.cr3))
      modifies this, mm`lev, mm.mem, mm.pmm.bitmap
      ensures Valid() && mm.View() == Apply(old(mm.View()), PageEvent(mm.cr3, |old(frames)|))
      ensures old(frames) <= frames && |frames| == |old(frames)| + 1
    {
      ghost var s, n := mm.View(), |frames|;
      PageExtendsHeap(s, home, mm.cr3, frames);
      PageAddress(n);
      var va := bump;
      bump := bump + Addresses.PAGE;
      frames := frames + [Pmm.Lowest(s.free)];
      MapFresh(va, n);
    }

    // 0 is the null pointer. A block is the pages from the old bump pointer on, each
    // mapped to a frame of its own; the pages handed out before keep theirs.
    method Kmalloc(size: nat) returns (result: nat)
      requires Valid() && size < Words.WORD
      requires size != 0 ==> StepsOk(mm.View(), home, |frames|, CallSteps(HeapCall.Kmalloc(mm.cr3, size)))
      modifies this, mm`lev, mm.mem, mm.pmm.bitmap
      ensures Valid() && old(frames) <= frames
      ensures size == 0 ==> result == 0 && frames == old(frames) && mm.View() == old(mm.View())
      ensures size != 0 ==>
                result == HEAP_START + |old(frames)| * Addresses.PAGE && |frames| == |old(frames)| + PageCount(size)
      ensures size != 0 ==>
                mm.View() == RunSteps(old(mm.View()), home, |old(frames)|, CallSteps(HeapCall.Kmalloc(mm.cr3, size)))
      ensures forall j | |old(frames)| <= j < |frames| :: HeapEntry(mm.View(), home, j) == Some(Entry(frames[j], 3))
    {
      if size == 0 {
        return 0;
      }
      var numFrames := PageCount(size);
      result := bump;
      ghost var states := PlanPages(mm.View(), home, |frames|, mm.cr3, numFrames);
      TakePages(numFrames, states);
    }

    // The loop of `kmalloc`.
    method TakePages(numFrames: nat, ghost states: seq<State>)
      requires Valid() && |states| == numFrames + 1 && states[0] == mm.View()
      requires forall i: nat, m: nat | i < numFrames && m == |frames| + i :: PlanAt(states, home, mm.cr3, i, m)
      modifies this, mm`lev, mm.mem, mm.pmm.bitmap
      ensures Valid() && old(frames) <= frames && |frames| == |old(frames)| + numFrames
      ensures mm.View() == states[numFrames]
    {
      ghost var space, n := mm.cr3, |frames|;
      for i := 0 to numFrames
        invariant Valid() && mm.cr3 == space && mm.View() == states[i]
        invariant old(frames) <= frames && |frames| == n + i
      {
        assert PlanAt(states, home, space, i, |frames|);
        TakePage();
      }
    }
  }

  // `kmain` from the set-up of the space on: the heap starts empty in it.
  method InitMemory(pmm: Pmm.FrameAllocator, mem: array<Entry>,
                    kernel: Plans.Range, hhdm: nat, regions: seq<Pmm.Region>)
    returns (heap: KernelHeap)
    requires Boot.Zeroed(pmm, mem) && pmm.Free() != {}
    requires var ranges := Boot.InitRanges(hhdm, pmm.totalFrames, kernel, regions);
             && (forall g | g in ranges :: ClearOfHeap(g))
             && |Plans.Needed(mem[..], Pmm.Lowest(pmm.Free()), Plans.AllPages(ranges))| < |pmm.Free()|
    modifies mem, pmm.bitmap
    ensures heap.Valid() && heap.frames == [] && heap.bump == HEAP_START
    ensures heap.mm.pmm == pmm && heap.mm.mem == mem && heap.home == heap.mm.cr3 == Pmm.Lowest(old(pmm.Free()))
    ensures var ranges := Boot.InitRanges(hhdm, pmm.totalFrames, kernel, regions);
            forall q | IsPath(q) :: Translate(heap.mm.View().mem, heap.home, q) == Plans.FirstIn(ranges, q)
  {
    ghost var ranges := Boot.InitRanges(hhdm, pmm.totalFrames, kernel, regions);
    var mm := Boot.VmmInit(pmm, mem, kernel, hhdm, regions);
    EmptyHeap(mm.View(), mm.cr3, ranges);
    heap := new KernelHeap(mm);
  }
}
