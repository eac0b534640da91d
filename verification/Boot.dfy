// Setting up the kernel's space at boot: the direct map of physical memory, the kernel
// image and the device regions, page by page. The first mapping of a page wins.
module Boot {
  import Addresses
  import Mapping
  import opened Options
  import opened PageTables
  import opened Plans
  import Pmm
  import Vmm
  import Words

  // ---------------------------------------------------------------- the space at boot

  function DirectMap(hhdm: nat, frames: nat): Range {
    Range(hhdm, 0, frames)
  }

  function CountFrames(size: nat): nat {
    (size + Pmm.FRAME_SIZE - 1) / Pmm.FRAME_SIZE
  }

  function Device(r: Pmm.Region, hhdm: nat): Range {
    Range(r.offset + hhdm, r.offset / Pmm.FRAME_SIZE, CountFrames(r.size))
  }

  predicate IsDevice(r: Pmm.Region) {
    r.kind !in {Pmm.Usable, Pmm.RegionType.Kernel, Pmm.Reserved, Pmm.Bad}
  }

  function Devices(regions: seq<Pmm.Region>, hhdm: nat): seq<Range> {
    if regions == [] then [] else
      var before, last := Devices(regions[..|regions| - 1], hhdm), regions[|regions| - 1];
      if IsDevice(last) then before + [Device(last, hhdm)] else before
  }

  // Everything that `vmm_init` maps, in order.
  function InitRanges(hhdm: nat, frames: nat, kernel: Range, regions: seq<Pmm.Region>): seq<Range> {
    [DirectMap(hhdm, frames), kernel] + Devices(regions, hhdm)
  }

  // Every physical address below the end of memory is mapped at its place in the direct
  // map, whatever else is mapped.
  lemma DirectMapFirst(hhdm: nat, frames: nat, kernel: Range, regions: seq<Pmm.Region>, f: nat)
    requires RangeOk(DirectMap(hhdm, frames)) && f < frames
    ensures FirstIn(InitRanges(hhdm, frames, kernel, regions), Addresses.PathOf(hhdm + f * Addresses.PAGE)) ==
            Some(Entry(f, 3))
  {
    var g := DirectMap(hhdm, frames);
    RangeFirst(g, frames, f);
    assert RangePages(g)[..frames] == RangePages(g);
    FirstInPrefix(g, [kernel] + Devices(regions, hhdm), Addresses.PathOf(hhdm + f * Addresses.PAGE));
    assert InitRanges(hhdm, frames, kernel, regions) == [g] + ([kernel] + Devices(regions, hhdm));
  }

  // A range decides over its pages that no range before it has.
  lemma {:induction false} RangeDecides(before: seq<Range>, g: Range, after: seq<Range>, i: nat)
    requires RangeOk(g) && i < g.count && FirstIn(before, PageAt(g, i).path).None?
    ensures FirstIn(before + [g] + after, PageAt(g, i).path) == Some(PageAt(g, i).leaf)
    decreases |after|
  {
    var all := before + [g] + after;
    if after == [] {
      assert all == before + [g] && all[..|all| - 1] == before;
      RangeFirst(g, g.count, i);
      assert RangePages(g)[..g.count] == RangePages(g);
    } else {
      RangeDecides(before, g, after[..|after| - 1], i);
      assert all[..|all| - 1] == before + [g] + after[..|after| - 1];
    }
  }

  // Every page of the kernel image is mapped to its frame, unless the direct map has it.
  lemma KernelMapped(hhdm: nat, frames: nat, kernel: Range, regions: seq<Pmm.Region>, i: nat)
    requires RangeOk(kernel) && i < kernel.count
    requires FirstIn([DirectMap(hhdm, frames)], Addresses.PathOf(kernel.virt + i * Addresses.PAGE)).None?
    ensures FirstIn(InitRanges(hhdm, frames, kernel, regions), Addresses.PathOf(kernel.virt + i * Addresses.PAGE)) ==
            Some(Entry(kernel.frame + i, 3))
  {
    RangeDecides([DirectMap(hhdm, frames)], kernel, Devices(regions, hhdm), i);
    assert InitRanges(hhdm, frames, kernel, regions) ==
           [DirectMap(hhdm, frames)] + [kernel] + Devices(regions, hhdm);
  }

  lemma {:induction false} DevicesSplit(regions: seq<Pmm.Region>, hhdm: nat, k: nat)
    requires k <= |regions|
    ensures Devices(regions[..k], hhdm) <= Devices(regions, hhdm)
    decreases |regions|
  {
    if k == |regions| {
      assert regions[..k] == regions;
    } else {
      DevicesSplit(regions[..|regions| - 1], hhdm, k);
      assert regions[..|regions| - 1][..k] == regions[..k];
    }
  }

  // Every page of a framebuffer, ACPI or bootloader region is mapped, in the direct map's
  // place, to its frame, unless something before the region has it.
  lemma DeviceMapped(hhdm: nat, frames: nat, kernel: Range, regions: seq<Pmm.Region>, k: nat, i: nat)
    requires k < |regions| && regions[k].kind in {Pmm.Framebuffer, Pmm.Acpi, Pmm.Bootloader}
    requires RangeOk(Device(regions[k], hhdm)) && i * Addresses.PAGE < regions[k].size
    requires FirstIn(InitRanges(hhdm, frames, kernel, regions[..k]),
                     Addresses.PathOf(regions[k].offset + hhdm + i * Addresses.PAGE)).None?
    ensures FirstIn(InitRanges(hhdm, frames, kernel, regions),
                    Addresses.PathOf(regions[k].offset + hhdm + i * Addresses.PAGE)) ==
            Some(Entry(regions[k].offset / Pmm.FRAME_SIZE + i, 3))
  {
    var g, all := Device(regions[k], hhdm), Devices(regions, hhdm);
    var before, upTo := Devices(regions[..k], hhdm), Devices(regions[..k + 1], hhdm);
    assert regions[..k + 1][..k] == regions[..k];
    assert upTo == before + [g];
    DevicesSplit(regions, hhdm, k + 1);
    assert all == before + [g] + all[|upTo|..];
    RangeDecides(InitRanges(hhdm, frames, kernel, regions[..k]), g, all[|upTo|..], i);
    assert InitRanges(hhdm, frames, kernel, regions) ==
           InitRanges(hhdm, frames, kernel, regions[..k]) + [g] + all[|upTo|..];
  }

  // The page `q`, mapped as `e`, is page `f` of memory, page `i` of the kernel image, or
  // page `i` of region `k`.
  predicate MemoryPage(hhdm: nat, frames: nat, f: nat, q: seq<nat>, e: Entry) {
    f < frames && q == Addresses.PathOf(hhdm + f * Addresses.PAGE) && e == Entry(f, 3)
  }

  predicate KernelPage(kernel: Range, i: nat, q: seq<nat>, e: Entry) {
    i < kernel.count && q == Addresses.PathOf(kernel.virt + i * Addresses.PAGE) && e == Entry(kernel.frame + i, 3)
  }

  predicate DevicePage(hhdm: nat, regions: seq<Pmm.Region>, k: nat, i: nat, q: seq<nat>, e: Entry) {
    && k < |regions| && regions[k].kind in {Pmm.Framebuffer, Pmm.Acpi, Pmm.Bootloader}
    && i * Addresses.PAGE < regions[k].size
    && q == Addresses.PathOf(regions[k].offset + hhdm + i * Addresses.PAGE)
    && e == Entry(regions[k].offset / Pmm.FRAME_SIZE + i, 3)
  }

  lemma {:induction false} LeafFrom(pages: seq<Page>, q: seq<nat>) returns (i: nat)
    requires FirstLeaf(pages, q).Some?
    ensures i < |pages| && pages[i] == Page(q, FirstLeaf(pages, q).value)
    decreases |pages|
  {
    if FirstLeaf(pages[..|pages| - 1], q).Some? {
      i := LeafFrom(pages[..|pages| - 1], q);
    } else {
      i := |pages| - 1;
    }
  }

  lemma {:induction false} RangeFrom(ranges: seq<Range>, q: seq<nat>) returns (g: Range, i: nat)
    requires FirstIn(ranges, q).Some?
    ensures g in ranges && i < g.count && PageAt(g, i) == Page(q, FirstIn(ranges, q).value)
    decreases |ranges|
  {
    if FirstIn(ranges[..|ranges| - 1], q).Some? {
      g, i := RangeFrom(ranges[..|ranges| - 1], q);
    } else {
      g := ranges[|ranges| - 1];
      i := LeafFrom(RangePages(g), q);
    }
  }

  lemma {:induction false} DeviceFrom(regions: seq<Pmm.Region>, hhdm: nat, g: Range) returns (k: nat)
    requires g in Devices(regions, hhdm)
    ensures k < |regions| && IsDevice(regions[k]) && g == Device(regions[k], hhdm)
    decreases |regions|
  {
    if g in Devices(regions[..|regions| - 1], hhdm) {
      k := DeviceFrom(regions[..|regions| - 1], hhdm, g);
    } else {
      k := |regions| - 1;
    }
  }

  lemma IsDevicePage(hhdm: nat, regions: seq<Pmm.Region>, k: nat, i: nat)
    requires k < |regions| && IsDevice(regions[k]) && i < Device(regions[k], hhdm).count
    ensures var page := PageAt(Device(regions[k], hhdm), i); DevicePage(hhdm, regions, k, i, page.path, page.leaf)
  {
    assert i < (regions[k].size + Pmm.FRAME_SIZE - 1) / Pmm.FRAME_SIZE;
    assert i * Pmm.FRAME_SIZE < regions[k].size;
    match regions[k].kind {
      case Framebuffer =>
      case Acpi =>
      case Bootloader =>
      case _ => assert false;
    }
  }

  // Nothing else is mapped.
  lemma OnlyThesePages(hhdm: nat, frames: nat, kernel: Range, regions: seq<Pmm.Region>, q: seq<nat>, e: Entry)
    requires FirstIn(InitRanges(hhdm, frames, kernel, regions), q) == Some(e)
    ensures (exists f: nat :: MemoryPage(hhdm, frames, f, q, e)) || (exists i: nat :: KernelPage(kernel, i, q, e))
            || exists k: nat, i: nat :: DevicePage(hhdm, regions, k, i, q, e)
  {
    var g, i := RangeFrom(InitRanges(hhdm, frames, kernel, regions), q);
    if g == DirectMap(hhdm, frames) {
      assert MemoryPage(hhdm, frames, i, q, e);
    } else if g == kernel {
      assert KernelPage(kernel, i, q, e);
    } else {
      var k := DeviceFrom(regions, hhdm, g);
      IsDevicePage(hhdm, regions, k, i);
    }
  }

  lemma PageWords(g: Range, i: nat)
    requires RangeOk(g) && i < g.count
    ensures var va, pa := g.virt + i * Addresses.PAGE, (g.frame + i) * Pmm.FRAME_SIZE;
            && va < Words.WORD && pa % Pmm.FRAME_SIZE == 0 && pa < Vmm.MAX_FRAMES * Pmm.FRAME_SIZE
            && PageAt(g, i) == Page(Addresses.PathOf(va), Entry(pa / Pmm.FRAME_SIZE, 3))
  {
  }

  method MapOne(mm: Vmm.MemoryManager, va: nat, pa: nat, ghost p: seq<nat>, ghost e: Entry)
    requires mm.Valid() && va < Words.WORD && pa % Pmm.FRAME_SIZE == 0 && pa < Vmm.MAX_FRAMES * Pmm.FRAME_SIZE
    requires p == Addresses.PathOf(va) && e == Entry(pa / Pmm.FRAME_SIZE, 3) && Mapping.CanMap(mm.View(), mm.cr3, p)
    modifies mm`lev, mm.mem, mm.pmm.bitmap
    ensures mm.Valid() && mm.View() == Mapping.Map(old(mm.View()), mm.cr3, p, e)
  {
    mm.VmmMap(mm.cr3, va, pa, 3);
  }

  method MapNext(mm: Vmm.MemoryManager, g: Range, i: nat, ghost plan: Plan)
    requires mm.Valid() && RangeOk(g) && i < g.count && PlanOk(plan, mm.cr3)
    requires i < |plan.pages| && i < |plan.states| && plan.pages[i] == PageAt(g, i) && mm.View() == plan.states[i]
    modifies mm`lev, mm.mem, mm.pmm.bitmap
    ensures mm.Valid() && i + 1 < |plan.states| && mm.View() == plan.states[i + 1]
  {
    var va, pa := g.virt + i * Addresses.PAGE, (g.frame + i) * Pmm.FRAME_SIZE;
    PageWords(g, i);
    PlanPage(plan, mm.cr3, i, Page(Addresses.PathOf(va), Entry(pa / Pmm.FRAME_SIZE, 3)));
    MapOne(mm, va, pa, plan.pages[i].path, plan.pages[i].leaf);
  }

  // One of the loops of `vmm_init`.
  method MapRange(mm: Vmm.MemoryManager, g: Range, ghost plan: Plan, ghost from: State, ghost to_: State)
    requires mm.Valid() && RangeOk(g) && StageOk(plan, mm.cr3, g, from, to_) && mm.View() == from
    modifies mm`lev, mm.mem, mm.pmm.bitmap
    ensures mm.Valid() && mm.View() == to_
  {
    ghost var space := mm.cr3;
    for i := 0 to g.count
      invariant mm.Valid() && mm.cr3 == space && mm.View() == plan.states[i]
    {
      MapNext(mm, g, i, plan);
    }
  }

  // The loop as stage `j` of a schedule.
  method MapStage(mm: Vmm.MemoryManager, g: Range, ghost schedule: Schedule, ghost j: nat)
    requires mm.Valid() && ScheduleOk(schedule, mm.cr3) && forall h | h in schedule.ranges :: RangeOk(h)
    requires j < |schedule.ranges| && schedule.ranges[j] == g
    requires j < |schedule.stages| && mm.View() == schedule.stages[j]
    modifies mm`lev, mm.mem, mm.pmm.bitmap
    ensures mm.Valid() && j + 1 < |schedule.stages| && mm.View() == schedule.stages[j + 1]
  {
    StageAt(schedule, mm.cr3, j, g);
    MapRange(mm, g, schedule.plans[j], schedule.stages[j], schedule.stages[j + 1]);
  }

  // The ranges of the first `i` regions come first, that of region `i` next.
  lemma {:induction false} DeviceStep(regions: seq<Pmm.Region>, hhdm: nat, i: nat)
    requires i < |regions|
    ensures var k := |Devices(regions[..i], hhdm)|;
            if IsDevice(regions[i])
            then |Devices(regions[..i + 1], hhdm)| == k + 1 <= |Devices(regions, hhdm)|
                 && Devices(regions, hhdm)[k] == Device(regions[i], hhdm)
            else |Devices(regions[..i + 1], hhdm)| == k
    ensures Devices(regions[..i + 1], hhdm) <= Devices(regions, hhdm)
    decreases |regions|
  {
    assert regions[..i + 1][..i] == regions[..i];
    if i + 1 < |regions| {
      var init := regions[..|regions| - 1];
      DeviceStep(init, hhdm, i);
      assert init[..i + 1] == regions[..i + 1] && init[..i] == regions[..i];
    } else {
      assert regions[..i + 1] == regions;
    }
  }

  // The stage at which region `i` is reached.
  ghost function StageOf(regions: seq<Pmm.Region>, hhdm: nat, base: nat, i: nat): nat
    requires i <= |regions|
  {
    base + |Devices(regions[..i], hhdm)|
  }

  lemma NextStageOf(regions: seq<Pmm.Region>, hhdm: nat, schedule: Schedule, base: nat, i: nat)
    requires i < |regions| && base <= |schedule.ranges| && schedule.ranges[base..] == Devices(regions, hhdm)
    ensures var j, j' := StageOf(regions, hhdm, base, i), StageOf(regions, hhdm, base, i + 1);
            if IsDevice(regions[i]) then
              j' == j + 1 <= |schedule.ranges| && schedule.ranges[j] == Device(regions[i], hhdm)
            else j' == j
  {
    DeviceStep(regions, hhdm, i);
    if IsDevice(regions[i]) {
      var done := |Devices(regions[..i], hhdm)|;
      assert schedule.ranges[base + done] == schedule.ranges[base..][done];
    }
  }

  // The loop over the device regions, from stage `base` on.
  method MapDevices(mm: Vmm.MemoryManager, regions: seq<Pmm.Region>, hhdm: nat,
                    ghost schedule: Schedule, ghost base: nat)
    requires mm.Valid() && ScheduleOk(schedule, mm.cr3) && forall g | g in schedule.ranges :: RangeOk(g)
    requires base <= |schedule.ranges| < |schedule.stages| && schedule.ranges[base..] == Devices(regions, hhdm)
    requires mm.View() == schedule.stages[base]
    modifies mm`lev, mm.mem, mm.pmm.bitmap
    ensures mm.Valid() && mm.View() == schedule.stages[|schedule.ranges|]
  {
    ghost var space, j: nat := mm.cr3, base;
    for i := 0 to |regions|
      invariant mm.Valid() && mm.cr3 == space
      invariant j == StageOf(regions, hhdm, base, i) <= |schedule.ranges| && mm.View() == schedule.stages[j]
    {
      NextStageOf(regions, hhdm, schedule, base, i);
      if !IsDevice(regions[i]) {
        continue;
      }
      MapStage(mm, Device(regions[i], hhdm), schedule, j);
      j := j + 1;
    }
    assert regions[..|regions|] == regions;
  }

  lemma {:induction false} NothingBelow(m: Memory, r: nat, q: seq<nat>)
    requires r < Frames(m) && (forall i: nat | i < ENTRIES :: At(m, r, i) == ZERO) && q != []
    ensures Walk(m, r, q).None?
    decreases |q|
  {
    if |q| == 1 {
      assert Walk(m, r, Init(q)) == Some(r);
    } else {
      NothingBelow(m, r, Init(q));
    }
  }

  lemma ScheduleTranslates(schedule: Schedule, r: nat)
    requires ScheduleOk(schedule, r) && schedule.stages != []
    requires r < Frames(schedule.stages[0].mem) && forall i: nat | i < ENTRIES ::
               At(schedule.stages[0].mem, r, i) == ZERO
    ensures |schedule.ranges| < |schedule.stages|
    ensures forall q | IsPath(q) ::
              Translate(schedule.stages[|schedule.ranges|].mem, r, q) == FirstIn(schedule.ranges, q)
  {
    forall q | IsPath(q)
      ensures Translate(schedule.stages[|schedule.ranges|].mem, r, q) == FirstIn(schedule.ranges, q)
    {
      NothingBelow(schedule.stages[0].mem, r, q[..3]);
      RangesTranslate(schedule, r, |schedule.ranges|, q);
      assert schedule.ranges[..|schedule.ranges|] == schedule.ranges;
    }
  }

  // The three loops of `vmm_init`.
  method MapAll(mm: Vmm.MemoryManager, kernel: Range, hhdm: nat, regions: seq<Pmm.Region>, ghost schedule: Schedule)
    requires mm.Valid() && forall g | g in schedule.ranges :: RangeOk(g)
    requires IsSchedule(schedule, mm.View(), mm.cr3, InitRanges(hhdm, mm.pmm.totalFrames, kernel, regions))
    modifies mm`lev, mm.mem, mm.pmm.bitmap
    ensures mm.Valid() && |schedule.ranges| < |schedule.stages| && mm.View() == schedule.stages[|schedule.ranges|]
  {
    MapStage(mm, DirectMap(hhdm, mm.pmm.totalFrames), schedule, 0);
    MapStage(mm, kernel, schedule, 1);
    assert schedule.ranges[2..] == Devices(regions, hhdm);
    MapDevices(mm, regions, hhdm, schedule, 2);
  }

  // The memory that the machine starts with: free frames hold zeros.
  ghost predicate Zeroed(pmm: Pmm.FrameAllocator, mem: array<Entry>)
    reads pmm, pmm.bitmap, mem
  {
    && mem as object != pmm.bitmap && mem.Length == ENTRIES * pmm.totalFrames
    && pmm.totalFrames <= 8 * pmm.bitmap.Length && pmm.totalFrames <= Vmm.MAX_FRAMES
    && (forall f | f in pmm.Free() :: f < pmm.totalFrames)
    && forall f, i: nat {:trigger At(mem[..], f, i)} | f in pmm.Free() && i < ENTRIES :: At(mem[..], f, i) == ZERO
  }

  // `vmm_init`, when frames are left for the root and for the tables that its pages need:
  // afterwards every page is mapped as the first of the ranges that has it says, and
  // nothing else is mapped. With fewer frames the kernel panics (`ScheduleExistsIff`).
  method VmmInit(pmm: Pmm.FrameAllocator, mem: array<Entry>, kernel: Range, hhdm: nat, regions: seq<Pmm.Region>)
    returns (mm: Vmm.MemoryManager)
    requires Zeroed(pmm, mem) && pmm.Free() != {}
    requires var ranges := InitRanges(hhdm, pmm.totalFrames, kernel, regions);
             && (forall g | g in ranges :: RangeOk(g))
             && |Needed(mem[..], Pmm.Lowest(pmm.Free()), AllPages(ranges))| < |pmm.Free()|
    modifies mem, pmm.bitmap
    ensures mm.Valid() && mm.pmm == pmm && mm.mem == mem && mm.cr3 == Pmm.Lowest(old(pmm.Free()))
    ensures var ranges := InitRanges(hhdm, pmm.totalFrames, kernel, regions);
            forall q | IsPath(q) :: Translate(mm.View().mem, mm.cr3, q) == FirstIn(ranges, q)
  {
    mm := new Vmm.MemoryManager(pmm, mem);
    ghost var schedule := MakeSchedule(mm.View(), mm.cr3, InitRanges(hhdm, pmm.totalFrames, kernel, regions));
    ScheduleTranslates(schedule, mm.cr3);
    MapAll(mm, kernel, hhdm, regions, schedule);
  }
}
