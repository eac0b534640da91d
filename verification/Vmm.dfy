// The page-table walker on physical memory: every operation updates frames and
// bitmap in place and is proved against its specification on values.
module Vmm {
  import Addresses
  import opened Mapping
  import opened Options
  import opened PageTables
  import Pmm
  import Spaces
  import Teardown
  import Words

  const MAX_FRAMES := 0x100_0000_0000  // physical addresses have 52 bits

  class MemoryManager {
    const pmm: Pmm.FrameAllocator
    const mem: array<Entry>       // all frames of physical memory, 512 entries to a frame
    var cr3: nat                  // frame of the root table that is loaded
    ghost var lev: map<nat, nat>  // level of every frame that serves as a table

    ghost function View(): State
      reads this, mem, pmm.bitmap
    {
      State(mem[..], pmm.Free(), lev)
    }

    ghost predicate Valid()
      reads this, mem, pmm.bitmap
    {
      && mem.Length == ENTRIES * pmm.totalFrames
      && pmm.totalFrames <= 8 * pmm.bitmap.Length && pmm.totalFrames <= MAX_FRAMES
      && mem as object != pmm.bitmap
      && Wf(View())
      && IsRoot(View(), cr3)
    }

    // Boot: one zeroed root is loaded. That free frames hold zeros is the state
    // the machine is assumed to start in.
    constructor (pmm: Pmm.FrameAllocator, mem: array<Entry>)
      requires mem as object != pmm.bitmap
      requires mem.Length == ENTRIES * pmm.totalFrames && pmm.totalFrames <= 8 * pmm.bitmap.Length
      requires pmm.totalFrames <= MAX_FRAMES && pmm.Free() != {}
      requires forall f | f in pmm.Free() :: f < pmm.totalFrames
      requires forall f, i: nat {:trigger At(mem[..], f, i)} | f in pmm.Free() && i < ENTRIES ::
                 At(mem[..], f, i) == ZERO
      modifies mem, pmm.bitmap
      ensures this.pmm == pmm && this.mem == mem
      ensures Valid() && NoOrphans(View())
      ensures cr3 == Pmm.Lowest(old(pmm.Free())) && lev == map[cr3 := 4]
      ensures pmm.Free() == old(pmm.Free()) - {cr3} && mem[..] == old(mem[..])
    {
      var root := TakeRoot(pmm, mem);
      this.pmm := pmm;
      this.mem := mem;
      cr3 := root;
      lev := map[root := 4];
      new;
      OneRootWf(View(), root);
    }

    // The entry that slot `i` of the table in frame `t` holds, and a store to it.
    function Slot(t: nat, i: nat): (e: Entry)
      requires i < ENTRIES && mem.Length % ENTRIES == 0 && t < mem.Length / ENTRIES
      reads mem
      ensures e == At(mem[..], t, i)
    {
      mem[t * ENTRIES + i]
    }

    method Write(t: nat, i: nat, e: Entry)
      requires i < ENTRIES && mem.Length % ENTRIES == 0 && t < mem.Length / ENTRIES
      modifies mem
      ensures mem[..] == Put(old(mem[..]), t, i, e)
    {
      mem[t * ENTRIES + i] := e;
    }

    // A new table under slot `i` of table `t`, if there is none: the block that
    // `vmm_map` repeats at each of its three upper levels.
    method EnsureTable(t: nat, i: nat, flags: nat) returns (child: nat)
      requires Valid() && t in lev && lev[t] > 1 && i < ENTRIES && flags % 2 == 1
      requires !Present(At(mem[..], t, i)) ==> pmm.Free() != {}
      modifies this`lev, mem, pmm.bitmap
      ensures Valid() && View() == Ensure(old(View()), t, i, flags)
      ensures Step(mem[..], t, i) == Some(child)
    {
      ghost var s := View();
      var entry := Slot(t, i);
      assert entry == At(s.mem, t, i);
      if !Present(entry) {
        var page := pmm.Alloc();
        ghost var c := page.value / Pmm.FRAME_SIZE;
        Write(t, i, Entry(page.value / Pmm.FRAME_SIZE, flags));
        lev := lev[c := lev[t] - 1];
        LinkWf(s, t, i, flags);
        assert View() == Link(s, t, i, flags);
      }
      child := Slot(t, i).frame;
    }

    // The three upper levels of `vmm_map`: the page table on path `p`.
    method EnsurePageTable(space: nat, p: seq<nat>, flags: nat) returns (pt: nat)
      requires Valid() && IsRoot(View(), space) && IsPath(p) && flags % 2 == 1
      requires CanMap(View(), space, p)
      modifies this`lev, mem, pmm.bitmap
      ensures Valid() && View() == Fill(old(View()), space, p, 3, flags)
      ensures Walk(mem[..], space, p[..3]) == Some(pt)
    {
      ghost var s := View();
      NextFill(s, space, p, 0, flags, space);
      var pdpt := EnsureTable(space, p[0], flags);
      NextFill(s, space, p, 1, flags, pdpt);
      var pd := EnsureTable(pdpt, p[1], flags);
      NextFill(s, space, p, 2, flags, pd);
      pt := EnsureTable(pd, p[2], flags);
    }

    method VmmMap(space: nat, va: nat, pa: nat, flags: nat)
      requires Valid() && IsRoot(View(), space)
      requires va < Words.WORD && pa % Pmm.FRAME_SIZE == 0 && pa < MAX_FRAMES * Pmm.FRAME_SIZE && flags < 0x100
      requires flags % 2 == 1
      requires CanMap(View(), space, Addresses.PathOf(va))
      modifies this`lev, mem, pmm.bitmap
      ensures Valid()
      ensures View() == Map(old(View()), space, Addresses.PathOf(va), Entry(pa / Pmm.FRAME_SIZE, flags))
      ensures MapEffect(old(View()), space, Addresses.PathOf(va), Entry(pa / Pmm.FRAME_SIZE, flags), View())
    {
      ghost var s := View();
      var p := Addresses.PathOf(va);  // the four indices
      ghost var e := Entry(pa / Pmm.FRAME_SIZE, flags);
      MapRefinesAll(s, space, p, e);
      MapWf(s, space, p, e);
      var pt := EnsurePageTable(space, p, flags);
      ghost var s3 := View();
      WalkLevel(s3, space, p[..3]);
      if !Present(Slot(pt, p[3])) {
        Write(pt, p[3], Entry(pa / Pmm.FRAME_SIZE, flags));
      }
      assert View() == Map(s, space, p, e);
    }

    // 0 stands for "not mapped", and also for a page mapped to frame 0.
    method VmmGetPaddr(space: nat, va: nat) returns (pa: nat)
      requires Valid() && IsRoot(View(), space) && va < Words.WORD
      ensures pa == match Translate(View().mem, space, Addresses.PathOf(va))
                    case None => 0
                    case Some(e) => e.frame * Pmm.FRAME_SIZE
    {
      ghost var s := View();
      var p := Addresses.PathOf(va);  // the four indices
      WalkThree(s, space, p);
      var e4 := Slot(space, p[0]);
      if !Present(e4) {
        return 0;
      }
      var e3 := Slot(e4.frame, p[1]);
      if !Present(e3) {
        return 0;
      }
      var e2 := Slot(e3.frame, p[2]);
      if !Present(e2) {
        return 0;
      }
      var e1 := Slot(e2.frame, p[3]);
      return e1.frame * Pmm.FRAME_SIZE;
    }

    method VmmUnmap(space: nat, va: nat)
      requires Valid() && IsRoot(View(), space) && va < Words.WORD
      modifies mem
      ensures Valid()
      ensures View() == Unmap(old(View()), space, Addresses.PathOf(va))
      ensures UnmapEffect(old(View()), space, Addresses.PathOf(va), View())
    {
      ghost var s := View();
      var p := Addresses.PathOf(va);  // the four indices
      WalkThree(s, space, p);
      UnmapWf(s, space, p);
      UnmapRefinesAll(s, space, p);
      var e4 := Slot(space, p[0]);
      if !Present(e4) {
        return;
      }
      var e3 := Slot(e4.frame, p[1]);
      if !Present(e3) {
        return;
      }
      var e2 := Slot(e3.frame, p[2]);
      if !Present(e2) {
        return;
      }
      Write(e2.frame, p[3], ZERO);
    }

    method VmmCreate() returns (space: nat)
      requires Valid() && pmm.Free() != {}
      modifies this`lev, mem, pmm.bitmap
      ensures Valid() && space == Pmm.Lowest(old(pmm.Free()))
      ensures View() == Spaces.NewSpace(old(View()), cr3)
    {
      ghost var s := View();
      var page := pmm.Alloc();
      space := page.value / Pmm.FRAME_SIZE;
      ZeroFrame(mem, space);
      CopyUpperHalf(mem, cr3, space);
      CopiedUnique(s.mem, cr3, space, mem[..], Spaces.CopyRoot(s.mem, cr3, space));
      lev := lev[space := 4];
      assert View() == Spaces.NewSpace(s, cr3);
      CreatedWf(s, cr3, View());
    }

    // Load another space.
    method VmmSwitch(space: nat)
      requires Valid() && IsRoot(View(), space)
      modifies this`cr3
      ensures Valid() && cr3 == space && View() == old(View())
    {
      cr3 := space;
    }

    // Tear a space down: four nested loops, the inner ones in methods of their own.
    // `log` is the sequence of frames passed to `pmm_free`.
    method VmmDestroy(space: nat) returns (ghost log: seq<nat>)
      requires mem as object != pmm.bitmap && mem.Length % ENTRIES == 0
      requires Teardown.Scannable(mem[..], space, 4, K_PAGE_START, 8 * pmm.bitmap.Length)
      requires space < 8 * pmm.bitmap.Length
      modifies pmm.bitmap
      ensures log == Teardown.FreedBy(mem[..], space)
      ensures pmm.Free() == old(pmm.Free()) + Teardown.Frees(log)
    {
      ghost var free := pmm.Free();
      log := FreeRoot(mem[..], space, free);
      log := Free(log, space, free);
    }

    // Destroying a space whose lower half is its own frees its frames, each once.
    method DestroyPrivate(space: nat, ghost mine: set<nat>) returns (ghost log: seq<nat>)
      requires Valid() && Teardown.Private(View(), space, mine)
      modifies pmm.bitmap
      ensures Teardown.NoDup(log) && Teardown.Frees(log) == mine && pmm.Free() == old(pmm.Free()) + mine
    {
      Teardown.DestroyIsSafe(View(), space, mine, 8 * pmm.bitmap.Length);
      Teardown.DestroyFreesMine(View(), space, mine);
      log := VmmDestroy(space);
    }

    // The outermost loop, over the lower half of the root.
    method FreeRoot(ghost m: Memory, space: nat, ghost free: set<nat>) returns (ghost log: seq<nat>)
      requires mem as object != pmm.bitmap && mem.Length % ENTRIES == 0
      requires m == mem[..] && Teardown.Scannable(m, space, 4, K_PAGE_START, 8 * pmm.bitmap.Length)
      requires pmm.Free() == free
      modifies pmm.bitmap
      ensures log == Teardown.FreedBelow(m, space, 4, K_PAGE_START) && pmm.Free() == free + Teardown.Frees(log)
    {
      log := [];
      for i4 := 0 to K_PAGE_START
        modifies pmm.bitmap
        invariant log == [] + Teardown.FreedBelow(m, space, 4, i4)
        invariant pmm.Free() == free + Teardown.Frees(log)
      {
        FreedNext(m, space, 4, i4, []);
        if !Present(Slot(space, i4)) {
          continue;
        }
        var pdpt := Slot(space, i4).frame;
        assert Step(m, space, i4) == Some(pdpt);
        log := FreePointers(m, pdpt, log, free);
        log := Free(log, Slot(space, i4).frame, free);
      }
    }

    // The second loop: the directories of one pointer table.
    method FreePointers(ghost m: Memory, pdpt: nat, ghost log: seq<nat>, ghost free: set<nat>)
      returns (ghost log': seq<nat>)
      requires mem as object != pmm.bitmap && mem.Length % ENTRIES == 0
      requires m == mem[..] && Teardown.Scannable(m, pdpt, 3, ENTRIES, 8 * pmm.bitmap.Length)
      requires pmm.Free() == free + Teardown.Frees(log)
      modifies pmm.bitmap
      ensures log' == log + Teardown.FreedBelow(m, pdpt, 3, ENTRIES) && pmm.Free() == free + Teardown.Frees(log')
    {
      log' := log;
      for i3 := 0 to ENTRIES
        modifies pmm.bitmap
        invariant log' == log + Teardown.FreedBelow(m, pdpt, 3, i3)
        invariant pmm.Free() == free + Teardown.Frees(log')
      {
        FreedNext(m, pdpt, 3, i3, log);
        if !Present(Slot(pdpt, i3)) {
          continue;
        }
        var pd := Slot(pdpt, i3).frame;
        assert Step(m, pdpt, i3) == Some(pd);
        log' := FreeDirectory(m, pd, log', free);
        log' := Free(log', Slot(pdpt, i3).frame, free);
      }
    }

    // The third loop: the page tables of one directory.
    method FreeDirectory(ghost m: Memory, pd: nat, ghost log: seq<nat>, ghost free: set<nat>)
      returns (ghost log': seq<nat>)
      requires mem as object != pmm.bitmap && mem.Length % ENTRIES == 0
      requires m == mem[..] && Teardown.Scannable(m, pd, 2, ENTRIES, 8 * pmm.bitmap.Length)
      requires pmm.Free() == free + Teardown.Frees(log)
      modifies pmm.bitmap
      ensures log' == log + Teardown.FreedBelow(m, pd, 2, ENTRIES) && pmm.Free() == free + Teardown.Frees(log')
    {
      log' := log;
      for i2 := 0 to ENTRIES
        modifies pmm.bitmap
        invariant log' == log + Teardown.FreedBelow(m, pd, 2, i2)
        invariant pmm.Free() == free + Teardown.Frees(log')
      {
        FreedNext(m, pd, 2, i2, log);
        if !Present(Slot(pd, i2)) {
          continue;
        }
        var pt := Slot(pd, i2).frame;
        assert Step(m, pd, i2) == Some(pt);
        log' := FreePages(m, pt, log', free);
        log' := Free(log', Slot(pd, i2).frame, free);
      }
    }

    // The innermost loop: the pages of one page table.
    method FreePages(ghost m: Memory, pt: nat, ghost log: seq<nat>, ghost free: set<nat>) returns (ghost log': seq<nat>)
      requires mem as object != pmm.bitmap && mem.Length % ENTRIES == 0
      requires m == mem[..] && Teardown.Scannable(m, pt, 1, ENTRIES, 8 * pmm.bitmap.Length)
      requires pmm.Free() == free + Teardown.Frees(log)
      modifies pmm.bitmap
      ensures log' == log + Teardown.FreedBelow(m, pt, 1, ENTRIES) && pmm.Free() == free + Teardown.Frees(log')
    {
      log' := log;
      for i1 := 0 to ENTRIES
        modifies pmm.bitmap
        invariant log' == log + Teardown.FreedBelow(m, pt, 1, i1)
        invariant pmm.Free() == free + Teardown.Frees(log')
      {
        FreedNext(m, pt, 1, i1, log);
        if !Present(Slot(pt, i1)) {
          continue;
        }
        assert Step(m, pt, i1).Some?;
        log' := Free(log', Slot(pt, i1).frame, free);
      }
    }

    // `pmm_free` of one frame, with the record of the frames freed so far.
    method Free(ghost log: seq<nat>, frame: nat, ghost free: set<nat>) returns (ghost log': seq<nat>)
      requires frame < 8 * pmm.bitmap.Length && pmm.Free() == free + Teardown.Frees(log)
      modifies pmm.bitmap
      ensures log' == log + [frame] && pmm.Free() == free + Teardown.Frees(log')
    {
      pmm.Release(frame * Pmm.FRAME_SIZE);
      log' := log + [frame];
    }
  }

  // One turn of a scan: a slot that is absent adds nothing, one that is present adds
  // what lies below it and then its frame.
  lemma FreedNext(m: Memory, t: nat, k: nat, i: nat, log: seq<nat>)
    requires k >= 1
    ensures Step(m, t, i).None? ==> log + Teardown.FreedBelow(m, t, k, i + 1) == log + Teardown.FreedBelow(m, t, k, i)
    ensures Step(m, t, i).Some? ==>
              var c := Step(m, t, i).value;
              log + Teardown.FreedBelow(m, t, k, i + 1) ==
              if k == 1 then log + Teardown.FreedBelow(m, t, k, i) + [c]
              else log + Teardown.FreedBelow(m, t, k, i) + Teardown.FreedBelow(m, c, k - 1, ENTRIES) + [c]
  {
  }

  method ZeroFrame(mem: array<Entry>, f: nat)
    requires mem.Length % ENTRIES == 0 && f < mem.Length / ENTRIES
    modifies mem
    ensures forall g: nat, j: nat {:trigger At(mem[..], g, j)} | g < mem.Length / ENTRIES && j < ENTRIES ::
              At(mem[..], g, j) == if g == f then ZERO else At(old(mem[..]), g, j)
  {
    ghost var m := mem[..];
    for i := 0 to ENTRIES
      invariant forall g: nat, j: nat {:trigger At(mem[..], g, j)} | g < mem.Length / ENTRIES && j < ENTRIES ::
          At(mem[..], g, j) == if g == f && j < i then ZERO else At(m, g, j)
    {
      ghost var m1 := mem[..];
      mem[f * ENTRIES + i] := ZERO;
      assert mem[..] == Put(m1, f, i, ZERO);
    }
  }

  method CopyUpperHalf(mem: array<Entry>, from: nat, to_: nat)
    requires mem.Length % ENTRIES == 0 && from < mem.Length / ENTRIES && to_ < mem.Length / ENTRIES && from != to_
    modifies mem
    ensures forall g: nat, j: nat {:trigger At(mem[..], g, j)} | g < mem.Length / ENTRIES && j < ENTRIES ::
              At(mem[..], g, j) ==
              if g == to_ && K_PAGE_START <= j then At(old(mem[..]), from, j) else At(old(mem[..]), g, j)
  {
    ghost var m := mem[..];
    for i := K_PAGE_START to ENTRIES
      invariant forall g: nat, j: nat {:trigger At(mem[..], g, j)} | g < mem.Length / ENTRIES && j < ENTRIES ::
          At(mem[..], g, j) == if g == to_ && K_PAGE_START <= j < i then At(m, from, j) else At(m, g, j)
    {
      ghost var m1 := mem[..];
      assert mem[from * ENTRIES + i] == At(m1, from, i);
      mem[to_ * ENTRIES + i] := mem[from * ENTRIES + i];
      assert mem[..] == Put(m1, to_, i, At(m, from, i));
    }
  }

  // A zeroed frame for the first root.
  method TakeRoot(pmm: Pmm.FrameAllocator, mem: array<Entry>) returns (root: nat)
    requires mem as object != pmm.bitmap && pmm.Free() != {}
    requires mem.Length == ENTRIES * pmm.totalFrames && pmm.totalFrames <= 8 * pmm.bitmap.Length
    requires forall f | f in pmm.Free() :: f < pmm.totalFrames
    requires forall f, i: nat {:trigger At(mem[..], f, i)} | f in pmm.Free() && i < ENTRIES :: At(mem[..], f, i) == ZERO
    modifies mem, pmm.bitmap
    ensures root == Pmm.Lowest(old(pmm.Free())) && root in old(pmm.Free())
    ensures pmm.Free() == old(pmm.Free()) - {root} && mem[..] == old(mem[..])
  {
    ghost var m := mem[..];
    var page := pmm.Alloc();
    root := page.value / Pmm.FRAME_SIZE;
    ZeroFrame(mem, root);
    SameEntries(m, mem[..]);
  }

  lemma OneRootWf(s: State, root: nat)
    requires |s.mem| % ENTRIES == 0 && root < Frames(s.mem) && s.lev == map[root := 4]
    requires forall f | f in s.free :: f < Frames(s.mem) && f != root
    requires forall f, i: nat {:trigger At(s.mem, f, i)} | f in s.free + {root} && i < ENTRIES ::
               At(s.mem, f, i) == ZERO
    ensures Wf(s) && NoOrphans(s)
  {
    assert LevelsOk(s) && FreeIsZero(s) && ChildrenOk(s) && Unshared(s);
  }

  lemma SameEntries(m1: Memory, m2: Memory)
    requires |m1| == |m2| && |m1| % ENTRIES == 0
    requires forall f: nat, i: nat {:trigger At(m2, f, i)} | f < Frames(m1) && i < ENTRIES ::
               At(m2, f, i) == At(m1, f, i)
    ensures m1 == m2
  {
    forall k | 0 <= k < |m1|
      ensures m1[k] == m2[k]
    {
      var f, i := k / ENTRIES, k % ENTRIES;
      assert k == f * ENTRIES + i && f < Frames(m1);
      assert At(m2, f, i) == At(m1, f, i);
    }
  }

  lemma CopiedUnique(m: Memory, cur: nat, r: nat, m1: Memory, m2: Memory)
    requires |m| % ENTRIES == 0 && cur < Frames(m) && r < Frames(m) && |m1| == |m| == |m2|
    requires CopiedRoot(m, cur, r, m1) && CopiedRoot(m, cur, r, m2)
    ensures m1 == m2
  {
    SameEntries(m1, m2);
  }

  // The first three steps of a walk, table by table.
  lemma WalkThree(s: State, r: nat, p: seq<nat>)
    requires Wf(s) && IsRoot(s, r) && IsPath(p)
    ensures Walk(s.mem, r, p[..1]) == Step(s.mem, r, p[0])
    ensures Walk(s.mem, r, p[..1]).None? ==> Walk(s.mem, r, p[..2]).None?
    ensures Walk(s.mem, r, p[..2]).None? ==> Walk(s.mem, r, p[..3]).None?
    ensures Walk(s.mem, r, p[..1]).Some? ==>
              var t := Walk(s.mem, r, p[..1]).value;
              t in s.lev && s.lev[t] == 3 && Walk(s.mem, r, p[..2]) == Step(s.mem, t, p[1])
    ensures Walk(s.mem, r, p[..2]).Some? ==>
              var t := Walk(s.mem, r, p[..2]).value;
              t in s.lev && s.lev[t] == 2 && Walk(s.mem, r, p[..3]) == Step(s.mem, t, p[2])
    ensures Walk(s.mem, r, p[..3]).Some? ==>
              var t := Walk(s.mem, r, p[..3]).value;
              t in s.lev && s.lev[t] == 1
  {
    assert Init(p[..1]) == [] && Init(p[..2]) == p[..1] && Init(p[..3]) == p[..2];
    assert Walk(s.mem, r, []) == Some(r);
    if Walk(s.mem, r, p[..1]).Some? { WalkLevel(s, r, p[..1]); }
    if Walk(s.mem, r, p[..2]).Some? { WalkLevel(s, r, p[..2]); }
    if Walk(s.mem, r, p[..3]).Some? { WalkLevel(s, r, p[..3]); }
  }

  // Making the next table leaves the walk to the present one as it is.
  lemma EnsureKeepsWalk(s: State, r: nat, p: seq<nat>, d: nat, flags: nat)
    requires Wf(s) && IsRoot(s, r) && IsPath(p) && d < 3 && flags % 2 == 1
    requires Walk(s.mem, r, p[..d]).Some?
    requires var t := Walk(s.mem, r, p[..d]).value;
             t in s.lev && s.lev[t] > 1 && (!Present(At(s.mem, t, p[d])) ==> s.free != {})
    ensures Walk(Ensure(s, Walk(s.mem, r, p[..d]).value, p[d], flags).mem, r, p[..d]) == Walk(s.mem, r, p[..d])
  {
    var t := Walk(s.mem, r, p[..d]).value;
    WalkLevel(s, r, p[..d]);
    if !Present(At(s.mem, t, p[d])) {
      LinkWalks(s, t, p[d], flags);
    }
  }

  // Each call of `EnsureTable` in `VmmMap` takes `Fill` one level further.
  lemma NextFill(s: State, r: nat, p: seq<nat>, d: nat, flags: nat, t: nat)
    requires Wf(s) && IsRoot(s, r) && IsPath(p) && flags % 2 == 1 && d < 3 && CanMap(s, r, p)
    ensures Missing(s.mem, r, p, d) <= |s.free| && Missing(s.mem, r, p, d + 1) <= |s.free|
    ensures Walk(Fill(s, r, p, d, flags).mem, r, p[..d]) == Some(t) ==>
              var s' := Fill(s, r, p, d, flags);
              && t in s'.lev && s'.lev[t] > 1
              && (!Present(At(s'.mem, t, p[d])) ==> s'.free != {})
              && Fill(s, r, p, d + 1, flags) == Ensure(s', t, p[d], flags)
              && Walk(Fill(s, r, p, d + 1, flags).mem, r, p[..d + 1]) == Step(Fill(s, r, p, d + 1, flags).mem, t, p[d])
  {
    MissingGrows(s.mem, r, p);
    var s' := Fill(s, r, p, d, flags);
    if Walk(s'.mem, r, p[..d]) == Some(t) {
      FillStep(s, r, p, d + 1, flags, s');
      EnsureKeepsWalk(s', r, p, d, flags);
      var s'' := Fill(s, r, p, d + 1, flags);
      assert s'' == Ensure(s', t, p[d], flags);
      assert Init(p[..d + 1]) == p[..d] && Last(p[..d + 1]) == p[d];
    }
  }

  lemma MissingGrows(m: Memory, r: nat, p: seq<nat>)
    requires |p| == 4
    ensures 0 == Missing(m, r, p, 0) <= Missing(m, r, p, 1) <= Missing(m, r, p, 2) <= Missing(m, r, p, 3)
  {
  }
}
