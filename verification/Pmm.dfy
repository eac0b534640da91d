// The physical frame allocator: one bit per 4 KiB frame, set while the frame is in use.
module Pmm {
  import opened Bits
  import opened Options
  import Words

  const FRAME_SIZE := 4096

  datatype RegionType = Usable | Reserved | Kernel | Bad | Framebuffer | Acpi | Bootloader

  datatype Region = Region(offset: nat, size: nat, kind: RegionType)

  // ---------------------------------------------------------------- the bitmap

  predicate Used(b: seq<bv8>, f: nat)
    requires f < 8 * |b|
  {
    Bit(b[f / 8], f % 8)
  }

  lemma SetUsedBit(b: seq<bv8>, f: nat, g: nat)
    requires f < 8 * |b| && g < 8 * |b|
    ensures Used(b[f / 8 := b[f / 8] | Mask(f % 8)], g) <==> g == f || Used(b, g)
  {
    SetBit(b[f / 8], f % 8, g % 8);
  }

  function SetUsed(b: seq<bv8>, f: nat): (r: seq<bv8>)
    requires f < 8 * |b|
    ensures |r| == |b|
    ensures forall g: nat {:trigger Used(r, g)} | g < 8 * |b| :: Used(r, g) <==> g == f || Used(b, g)
  {
    var r := b[f / 8 := b[f / 8] | Mask(f % 8)];
    assert forall g: nat {:trigger Used(r, g)} | g < 8 * |b| :: Used(r, g) <==> g == f || Used(b, g) by {
      forall g: nat | g < 8 * |b|
        ensures Used(r, g) <==> g == f || Used(b, g)
      {
        SetUsedBit(b, f, g);
      }
    }
    r
  }

  lemma ClearUsedBit(b: seq<bv8>, f: nat, g: nat)
    requires f < 8 * |b| && g < 8 * |b|
    ensures Used(b[f / 8 := b[f / 8] & !Mask(f % 8)], g) <==> g != f && Used(b, g)
  {
    if g / 8 == f / 8 {
      ClearBit(b[f / 8], f % 8, g % 8);
      assert g == f <==> g % 8 == f % 8;
    }
  }

  function ClearUsed(b: seq<bv8>, f: nat): (r: seq<bv8>)
    requires f < 8 * |b|
    ensures |r| == |b|
    ensures forall g: nat {:trigger Used(r, g)} | g < 8 * |b| :: Used(r, g) <==> g != f && Used(b, g)
  {
    var r := b[f / 8 := b[f / 8] & !Mask(f % 8)];
    assert forall g: nat {:trigger Used(r, g)} | g < 8 * |b| :: Used(r, g) <==> g != f && Used(b, g) by {
      forall g: nat | g < 8 * |b|
        ensures Used(r, g) <==> g != f && Used(b, g)
      {
        ClearUsedBit(b, f, g);
      }
    }
    r
  }

  ghost function FreeSet(b: seq<bv8>): set<nat> {
    set f: nat | f < 8 * |b| && !Used(b, f)
  }

  // Freeing the frame just allocated restores the bitmap bit for bit.
  lemma AllocThenFree(b: seq<bv8>, f: nat)
    requires f in FreeSet(b)
    ensures ClearUsed(SetUsed(b, f), f) == b
  {
    var r := ClearUsed(SetUsed(b, f), f);
    forall i | 0 <= i < |b|
      ensures r[i] == b[i]
    {
      forall j: nat | j < 8
        ensures Bit(r[i], j) == Bit(b[i], j)
      {
        assert (8 * i + j) / 8 == i && (8 * i + j) % 8 == j;
        assert Used(r, 8 * i + j) == Used(b, 8 * i + j);
      }
      SameBits(r[i], b[i]);
    }
  }

  // The lowest member of a set of frames: what the scan returns.
  ghost predicate IsLowest(free: set<nat>, f: nat) {
    f in free && forall g | g in free :: f <= g
  }

  lemma LowestExists(free: set<nat>)
    requires free != {}
    ensures exists f :: IsLowest(free, f)
  {
    var f :| f in free;
    var rest := free - {f};
    if rest == {} {
      assert free == {f};
      assert IsLowest(free, f);
    } else {
      LowestExists(rest);
      var g :| IsLowest(rest, g);
      var m := if f <= g then f else g;
      assert free == rest + {f};
      assert IsLowest(free, m);
    }
  }

  ghost function Lowest(free: set<nat>): (f: nat)
    requires free != {}
    ensures IsLowest(free, f)
  {
    LowestExists(free);
    var f :| IsLowest(free, f);
    f
  }

  // ---------------------------------------------------------------- boot regions

  // The next frame boundary from `a` up and from `a` down.
  function AlignUp(a: nat): nat {
    (a + FRAME_SIZE - 1) / FRAME_SIZE * FRAME_SIZE
  }

  function AlignDown(a: nat): nat {
    a / FRAME_SIZE * FRAME_SIZE
  }

  // The end of a region, computed in 64 bits.
  function RegionEnd(r: Region): nat {
    (r.offset + r.size) % Words.WORD
  }

  predicate Counts(r: Region) {
    r.kind == Usable || r.kind == Kernel
  }

  // Memory lies below the last frame of the address space, and a usable region has a
  // frame boundary in it: between the ends of one that has none the kernel would count
  // 2^52 frames.
  ghost predicate RegionsOk(regions: seq<Region>) {
    forall i | 0 <= i < |regions| ::
      && (Counts(regions[i]) ==> regions[i].offset + regions[i].size + FRAME_SIZE <= Words.WORD)
      && (regions[i].kind == Usable ==> AlignUp(regions[i].offset) <= AlignDown(regions[i].offset + regions[i].size))
  }

  // `top` is the end of the highest usable or kernel region, or 0.
  ghost predicate IsTop(regions: seq<Region>, top: nat) {
    && (forall i | 0 <= i < |regions| && Counts(regions[i]) :: RegionEnd(regions[i]) <= top)
    && (top == 0 || exists i :: 0 <= i < |regions| && Counts(regions[i]) && RegionEnd(regions[i]) == top)
  }

  function FrameCount(top: nat): nat {
    (top + FRAME_SIZE - 1) / FRAME_SIZE
  }

  function BitmapBytes(top: nat): nat {
    (FrameCount(top) + 7) / 8
  }

  // The next boundary up and down, a frame for every byte below the top, and a bit for
  // every frame.
  lemma Roundings(a: nat)
    ensures AlignUp(a) % FRAME_SIZE == 0 && a <= AlignUp(a) < a + FRAME_SIZE
    ensures AlignDown(a) % FRAME_SIZE == 0 && AlignDown(a) <= a < AlignDown(a) + FRAME_SIZE
    ensures a <= FrameCount(a) * FRAME_SIZE < a + FRAME_SIZE
    ensures FrameCount(a) <= 8 * BitmapBytes(a) < FrameCount(a) + 8
  {
  }

  // `home` is the first usable region with more bytes than the bitmap.
  ghost predicate IsHome(regions: seq<Region>, bitmapSize: nat, home: nat) {
    && home < |regions| && regions[home].kind == Usable && regions[home].size > bitmapSize
    && forall i | 0 <= i < home :: !(regions[i].kind == Usable && regions[i].size > bitmapSize)
  }

  // The bitmap does not run out of its region once it starts on a frame boundary.
  predicate HasRoom(r: Region, bitmapSize: nat) {
    AlignUp(r.offset) + bitmapSize <= r.offset + r.size
  }

  ghost predicate HasHome(regions: seq<Region>, bitmapSize: nat) {
    exists home: nat :: IsHome(regions, bitmapSize, home) && HasRoom(regions[home], bitmapSize)
  }

  // The whole frame lies in the usable region.
  ghost predicate InRegion(r: Region, f: nat) {
    r.kind == Usable && r.offset <= f * FRAME_SIZE && (f + 1) * FRAME_SIZE <= r.offset + r.size
  }

  ghost predicate InUsable(regions: seq<Region>, f: nat) {
    exists i :: 0 <= i < |regions| && InRegion(regions[i], f)
  }

  method TotalMemorySize(regions: seq<Region>) returns (top: nat)
    ensures IsTop(regions, top)
    ensures forall r | r in regions && r.kind in {Usable, Kernel} :: (r.offset + r.size) % Words.WORD <= top
    ensures top == 0 || exists r ::
              r in regions && r.kind in {Usable, Kernel} && (r.offset + r.size) % Words.WORD == top
  {
    top := 0;
    for i := 0 to |regions|
      invariant IsTop(regions[..i], top)
    {
      ghost var before := top;
      assert regions[..i + 1] == regions[..i] + [regions[i]];
      assert forall k | 0 <= k < i :: regions[..i][k] == regions[..i + 1][k];
      if !Counts(regions[i]) {
        continue;
      }
      var end := RegionEnd(regions[i]);
      assert regions[..i + 1][i] == regions[i];
      if end > top {
        top := end;
      }
      assert IsTop(regions[..i + 1], top);
    }
    assert regions[..|regions|] == regions;
  }

  lemma BitIndex(i: nat, j: nat)
    requires j < 8
    ensures (8 * i + j) / 8 == i && (8 * i + j) % 8 == j
    ensures (i * 8 + j) * FRAME_SIZE % FRAME_SIZE == 0 && (i * 8 + j) * FRAME_SIZE / FRAME_SIZE == 8 * i + j
  {
  }

  lemma TakeFree(b: seq<bv8>, f: nat)
    requires f < 8 * |b|
    ensures FreeSet(SetUsed(b, f)) == FreeSet(b) - {f}
    ensures FreeSet(ClearUsed(b, f)) == FreeSet(b) + {f}
  {
  }

  lemma FullBelow(b: seq<bv8>, i: nat)
    requires i <= |b| && forall k | 0 <= k < i :: b[k] == 0xFF
    ensures forall f: nat | f < 8 * i :: Used(b, f)
  {
    FullByte(0xFF);
  }

  lemma AllFull(b: seq<bv8>)
    requires forall k | 0 <= k < |b| :: b[k] == 0xFF
    ensures FreeSet(b) == {}
  {
    FullBelow(b, |b|);
  }

  // The first clear bit of the first byte that is not full is the lowest free frame.
  lemma FirstClear(b: seq<bv8>, i: nat, j: nat)
    requires i < |b| && j < 8 && !Bit(b[i], j)
    requires forall k | 0 <= k < i :: b[k] == 0xFF
    requires forall k: nat | k < j :: Bit(b[i], k)
    ensures IsLowest(FreeSet(b), 8 * i + j)
  {
    BitIndex(i, j);
    FullBelow(b, i);
    assert !Used(b, 8 * i + j);
    forall f: nat | f < 8 * i + j
      ensures Used(b, f)
    {
      if 8 * i <= f {
        BitIndex(i, f - 8 * i);
      }
    }
  }

  class FrameAllocator {
    const bitmap: array<bv8>
    const totalFrames: nat
    const physical: nat  // physical address of the bitmap

    ghost function Free(): set<nat>
      reads bitmap
    {
      FreeSet(bitmap[..])
    }

    ghost predicate InBitmap(f: nat) {
      physical / FRAME_SIZE <= f < physical / FRAME_SIZE + (bitmap.Length + FRAME_SIZE - 1) / FRAME_SIZE
    }

    // These are the frames that a byte of the bitmap lies in.
    lemma HoldsBitmap(f: nat)
      requires physical % FRAME_SIZE == 0
      ensures InBitmap(f) <==> exists x :: physical <= x < physical + bitmap.Length && x / FRAME_SIZE == f
    {
      if InBitmap(f) {
        var x := f * FRAME_SIZE;
        assert physical <= x < physical + bitmap.Length && x / FRAME_SIZE == f;
      }
    }

    // Boot: a frame ends up free exactly when it lies in a usable region and holds no
    // part of the bitmap, which itself lies in the first usable region that has more
    // bytes. The map must offer that region: without one the kernel writes through a
    // null bitmap.
    constructor Init(regions: seq<Region>)
      requires RegionsOk(regions)
      requires forall top: nat | IsTop(regions, top) :: HasHome(regions, BitmapBytes(top))
      ensures fresh(bitmap)
      ensures exists top: nat ::
                IsTop(regions, top) && totalFrames == FrameCount(top) && bitmap.Length == BitmapBytes(top)
      ensures exists home: nat ::
                && IsHome(regions, bitmap.Length, home)
                && physical == AlignUp(regions[home].offset)
                && physical + bitmap.Length <= regions[home].offset + regions[home].size
      ensures forall f: nat :: f in Free() <==> InUsable(regions, f) && !InBitmap(f)
      ensures forall f: nat :: f in Free() ==> f < totalFrames
    {
      var top := TotalMemorySize(regions);
      var size := BitmapBytes(top);
      var home := FindHome(regions, size);
      totalFrames := FrameCount(top);
      physical := AlignUp(regions[home].offset);
      bitmap := new bv8[size];
      new;
      UsableBelow(regions, top);
      FillUsed(bitmap);
      ClearUsable(bitmap, regions);
      FitsHome(regions[home], top);
      MarkBitmap(bitmap, physical);
    }

    method TakeBit(i: nat, j: nat) returns (addr: nat)
      requires i < bitmap.Length && j < 8
      modifies bitmap
      ensures addr % FRAME_SIZE == 0 && addr / FRAME_SIZE == 8 * i + j
      ensures bitmap[..] == SetUsed(old(bitmap[..]), 8 * i + j)
      ensures Free() == old(Free()) - {8 * i + j}
    {
      BitIndex(i, j);
      TakeFree(bitmap[..], 8 * i + j);
      bitmap[i] := bitmap[i] | Mask(j);
      assert bitmap[..] == SetUsed(old(bitmap[..]), 8 * i + j);
      return (i * 8 + j) * FRAME_SIZE;
    }

    // The first clear bit, or None where the kernel panics.
    method Alloc() returns (r: Option<nat>)
      modifies bitmap
      ensures r.None? <==> old(Free()) == {}
      ensures r.None? ==> bitmap[..] == old(bitmap[..])
      ensures r.Some? ==>
                && r.value % FRAME_SIZE == 0
                && IsLowest(old(Free()), r.value / FRAME_SIZE)
                && bitmap[..] == SetUsed(old(bitmap[..]), r.value / FRAME_SIZE)
                && Free() == old(Free()) - {r.value / FRAME_SIZE}
    {
      ghost var b := bitmap[..];
      for i := 0 to bitmap.Length
        invariant bitmap[..] == b
        invariant forall k | 0 <= k < i :: b[k] == 0xFF
      {
        if bitmap[i] == 0xFF {
          continue;
        }
        var j := FirstClearBit(bitmap[i]);
        FirstClear(b, i, j);
        var addr := TakeBit(i, j);
        return Some(addr);
      }
      AllFull(b);
      return None;
    }

    method Release(addr: nat)
      requires addr / FRAME_SIZE < 8 * bitmap.Length
      modifies bitmap
      ensures bitmap[..] == ClearUsed(old(bitmap[..]), addr / FRAME_SIZE)
      ensures Free() == old(Free()) + {addr / FRAME_SIZE}
    {
      var frame := addr / FRAME_SIZE;
      var j := frame % 8;
      var i := frame / 8;
      bitmap[i] := bitmap[i] & !Mask(j);
      TakeFree(old(bitmap[..]), frame);
      assert bitmap[..] == ClearUsed(old(bitmap[..]), frame);
    }
  }

  method FindHome(regions: seq<Region>, bitmapSize: nat) returns (home: nat)
    requires HasHome(regions, bitmapSize)
    ensures IsHome(regions, bitmapSize, home) && HasRoom(regions[home], bitmapSize)
  {
    home := 0;
    while !(regions[home].kind == Usable && regions[home].size > bitmapSize)
      invariant home < |regions|
      invariant forall k | 0 <= k < home :: !(regions[k].kind == Usable && regions[k].size > bitmapSize)
      decreases |regions| - home
    {
      home := home + 1;
    }
  }

  // The inner loop of the scan, over the bits of a byte that is not full.
  method FirstClearBit(b: bv8) returns (j: nat)
    requires b != 0xFF
    ensures j < 8 && !Bit(b, j) && forall k: nat | k < j :: Bit(b, k)
  {
    j := 0;
    while j < 8
      invariant j <= 8 && forall k: nat | k < j :: Bit(b, k)
    {
      if !Bit(b, j) {
        return;
      }
      j := j + 1;
    }
    FullByte(b);
    assert false;
  }

  method FillUsed(bitmap: array<bv8>)
    modifies bitmap
    ensures forall f: nat | f < 8 * bitmap.Length :: Used(bitmap[..], f)
  {
    for i := 0 to bitmap.Length
      invariant forall k | 0 <= k < i :: bitmap[k] == 0xFF
    {
      bitmap[i] := 0xFF;
    }
    FullByte(0xFF);
  }

  // The frames from the first boundary of the region up to the last are those in it.
  lemma WholeFrames(r: Region, f: nat)
    requires r.kind == Usable
    ensures AlignUp(r.offset) / FRAME_SIZE <= f < AlignDown(r.offset + r.size) / FRAME_SIZE <==> InRegion(r, f)
  {
  }

  method ClearRegion(bitmap: array<bv8>, r: Region)
    requires r.kind == Usable && AlignUp(r.offset) <= AlignDown(r.offset + r.size)
    requires r.offset + r.size <= 8 * bitmap.Length * FRAME_SIZE
    modifies bitmap
    ensures forall f: nat | f < 8 * bitmap.Length ::
              !Used(bitmap[..], f) <==> !Used(old(bitmap[..]), f) || InRegion(r, f)
  {
    var base := AlignUp(r.offset);
    var end := AlignDown(r.offset + r.size);
    ClearFrames(bitmap, base / FRAME_SIZE, (end - base) / FRAME_SIZE);
    forall f: nat | f < 8 * bitmap.Length
      ensures !Used(bitmap[..], f) <==> !Used(old(bitmap[..]), f) || InRegion(r, f)
    {
      WholeFrames(r, f);
    }
  }

  method ClearFrames(bitmap: array<bv8>, start: nat, count: nat)
    requires start + count <= 8 * bitmap.Length
    modifies bitmap
    ensures forall f: nat | f < 8 * bitmap.Length ::
              !Used(bitmap[..], f) <==> !Used(old(bitmap[..]), f) || start <= f < start + count
  {
    for f := start to start + count
      invariant forall g: nat | g < 8 * bitmap.Length ::
          !Used(bitmap[..], g) <==> !Used(old(bitmap[..]), g) || start <= g < f
    {
      ghost var b := bitmap[..];
      bitmap[f / 8] := bitmap[f / 8] & !Mask(f % 8);
      assert bitmap[..] == ClearUsed(b, f);
    }
  }

  method ClearUsable(bitmap: array<bv8>, regions: seq<Region>)
    requires RegionsOk(regions)
    requires forall i | 0 <= i < |regions| && regions[i].kind == Usable ::
               regions[i].offset + regions[i].size <= 8 * bitmap.Length * FRAME_SIZE
    requires forall f: nat | f < 8 * bitmap.Length :: Used(bitmap[..], f)
    modifies bitmap
    ensures forall f: nat | f < 8 * bitmap.Length :: !Used(bitmap[..], f) <==> InUsable(regions, f)
  {
    for i := 0 to |regions|
      invariant forall f: nat | f < 8 * bitmap.Length :: !Used(bitmap[..], f) <==> InUsable(regions[..i], f)
    {
      UsableSnoc(regions, i);
      if regions[i].kind != Usable {
        continue;
      }
      ClearRegion(bitmap, regions[i]);
    }
    assert regions[..|regions|] == regions;
  }

  method MarkBitmap(bitmap: array<bv8>, physical: nat)
    requires physical / FRAME_SIZE + (bitmap.Length + FRAME_SIZE - 1) / FRAME_SIZE <= 8 * bitmap.Length
    modifies bitmap
    ensures forall f: nat | f < 8 * bitmap.Length ::
              Used(bitmap[..], f) <==> (
                Used(old(bitmap[..]), f) ||
                physical / FRAME_SIZE <= f < physical / FRAME_SIZE + (bitmap.Length + FRAME_SIZE - 1) / FRAME_SIZE)
  {
    var start := physical / FRAME_SIZE;
    var count := (bitmap.Length + FRAME_SIZE - 1) / FRAME_SIZE;
    for f := start to start + count
      invariant forall g: nat | g < 8 * bitmap.Length ::
          Used(bitmap[..], g) <==> Used(old(bitmap[..]), g) || start <= g < f
    {
      ghost var b := bitmap[..];
      bitmap[f / 8] := bitmap[f / 8] | Mask(f % 8);
      assert bitmap[..] == SetUsed(b, f);
    }
  }

  lemma UsableSnoc(regions: seq<Region>, i: nat)
    requires i < |regions|
    ensures forall f: nat :: InUsable(regions[..i + 1], f) <==> InUsable(regions[..i], f) || InRegion(regions[i], f)
  {
    forall f: nat
      ensures InUsable(regions[..i + 1], f) <==> InUsable(regions[..i], f) || InRegion(regions[i], f)
    {
      if InRegion(regions[i], f) {
        assert regions[..i + 1][i] == regions[i];
      }
      if InUsable(regions[..i], f) {
        var k :| 0 <= k < i && InRegion(regions[..i][k], f);
        assert regions[..i + 1][k] == regions[..i][k];
      }
      if InUsable(regions[..i + 1], f) {
        var k :| 0 <= k <= i && InRegion(regions[..i + 1][k], f);
        assert k < i ==> regions[..i][k] == regions[..i + 1][k];
      }
    }
  }

  lemma UsableBelow(regions: seq<Region>, top: nat)
    requires RegionsOk(regions) && IsTop(regions, top)
    ensures forall f: nat | InUsable(regions, f) :: f < FrameCount(top)
    ensures forall i | 0 <= i < |regions| && regions[i].kind == Usable ::
              regions[i].offset + regions[i].size <= top <= 8 * BitmapBytes(top) * FRAME_SIZE
  {
    forall i | 0 <= i < |regions| && regions[i].kind == Usable
      ensures regions[i].offset + regions[i].size <= top
    {
      assert Counts(regions[i]);
    }
  }

  // The bitmap's own frames have bits in it.
  lemma FitsHome(r: Region, top: nat)
    requires HasRoom(r, BitmapBytes(top)) && r.offset + r.size <= top
    ensures AlignUp(r.offset) / FRAME_SIZE + (BitmapBytes(top) + FRAME_SIZE - 1) / FRAME_SIZE <= 8 * BitmapBytes(top)
  {
  }
}

// Runs of allocations and releases by clients that free only what they hold.
module PmmRuns {
  import opened Pmm

  datatype FrameOp = AllocFrame | FreeFrame(frame: nat)

  // The bitmap together with the frames its clients hold.
  datatype Ledger = Ledger(bitmap: seq<bv8>, held: set<nat>)

  ghost predicate Enabled(s: Ledger, op: FrameOp) {
    match op
    case AllocFrame => FreeSet(s.bitmap) != {}
    case FreeFrame(f) => f in s.held && f < 8 * |s.bitmap|
  }

  ghost function Apply(s: Ledger, op: FrameOp): Ledger
    requires Enabled(s, op)
  {
    match op
    case AllocFrame =>
      var f := Lowest(FreeSet(s.bitmap));
      Ledger(SetUsed(s.bitmap, f), s.held + {f})
    case FreeFrame(f) => Ledger(ClearUsed(s.bitmap, f), s.held - {f})
  }

  ghost predicate RunOk(s: Ledger, ops: seq<FrameOp>)
    decreases |ops|
  {
    ops == [] || (Enabled(s, ops[0]) && RunOk(Apply(s, ops[0]), ops[1..]))
  }

  ghost function Run(s: Ledger, ops: seq<FrameOp>): Ledger
    requires RunOk(s, ops)
    decreases |ops|
  {
    if ops == [] then s else Run(Apply(s, ops[0]), ops[1..])
  }

  // Over every run the free frames and the held frames split the frames that were
  // free at the start, so no reserved or padding frame is ever handed out.
  lemma {:induction false} RunConserves(s: Ledger, ops: seq<FrameOp>)
    requires RunOk(s, ops) && s.held !! FreeSet(s.bitmap)
    ensures Run(s, ops).held !! FreeSet(Run(s, ops).bitmap)
    ensures Run(s, ops).held + FreeSet(Run(s, ops).bitmap) == s.held + FreeSet(s.bitmap)
    decreases |ops|
  {
    if ops != [] {
      var s' := Apply(s, ops[0]);
      match ops[0] {
        case AllocFrame =>
          assert FreeSet(s'.bitmap) == FreeSet(s.bitmap) - {Lowest(FreeSet(s.bitmap))};
        case FreeFrame(f) =>
          assert FreeSet(s'.bitmap) == FreeSet(s.bitmap) + {f};
      }
      RunConserves(s', ops[1..]);
    }
  }

  // The frame an allocation returns after any run: the lowest one that was free at
  // the start and is not held now.
  lemma AllocReturnsLowestUnheld(b: seq<bv8>, ops: seq<FrameOp>)
    requires RunOk(Ledger(b, {}), ops)
    requires Enabled(Run(Ledger(b, {}), ops), AllocFrame)
    ensures var s := Run(Ledger(b, {}), ops); IsLowest(FreeSet(b) - s.held, Lowest(FreeSet(s.bitmap)))
  {
    RunConserves(Ledger(b, {}), ops);
    var s := Run(Ledger(b, {}), ops);
    assert FreeSet(s.bitmap) == FreeSet(b) - s.held;
  }
}
