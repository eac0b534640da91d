// Runs of the memory manager: any interleaving of allocations, mappings,
// unmappings, new spaces and stores keeps the ownership of table frames, and
// keeps the kernel half of a space equal to that of the space it was made from.
module Spaces {
  import opened Mapping
  import opened Options
  import opened PageTables
  import Pmm

  datatype Event =
    | Alloc                                                    // a caller takes a frame
    | MapPage(root: nat, path: seq<nat>, leaf: Entry)          // map a page to a given frame
    | Build(root: nat, path: seq<nat>, flags: nat)             // take a frame and map a page to it
    | UnmapPage(root: nat, path: seq<nat>)
    | Create(cur: nat)                                         // a new space made from root `cur`
    | Store(frame: nat, slot: nat, value: Entry)               // a store to a data frame

  ghost function TakeFrame(s: State): State
    requires s.free != {}
  {
    s.(free := s.free - {Pmm.Lowest(s.free)})
  }

  ghost predicate CanBuild(s: State, r: nat, p: seq<nat>)
    requires IsPath(p)
  {
    s.free != {} && CanMap(TakeFrame(s), r, p)
  }

  ghost predicate EventOk(s: State, ev: Event) {
    match ev
    case Alloc => s.free != {}
    case MapPage(r, p, e) => IsRoot(s, r) && IsPath(p) && Present(e) && CanMap(s, r, p)
    case Build(r, p, flags) => IsRoot(s, r) && IsPath(p) && flags % 2 == 1 && CanBuild(s, r, p)
    case UnmapPage(r, p) => IsRoot(s, r) && IsPath(p)
    case Create(cur) => IsRoot(s, cur) && s.free != {}
    case Store(f, i, _) => IsData(s, f) && i < ENTRIES
  }

  lemma TakeFrameWf(s: State)
    requires Wf(s) && s.free != {}
    ensures Wf(TakeFrame(s))
  {
  }

  function CopyRoot(m: Memory, cur: nat, r: nat): (m': Memory)
    requires cur < Frames(m) && r < Frames(m)
    ensures |m'| == |m| && CopiedRoot(m, cur, r, m')
  {
    seq(|m|, k requires 0 <= k < |m| =>
      if k / ENTRIES != r then m[k] else if k % ENTRIES < K_PAGE_START then ZERO else m[cur * ENTRIES + k % ENTRIES])
  }

  ghost function NewSpace(s: State, cur: nat): (s': State)
    requires Wf(s) && IsRoot(s, cur) && s.free != {}
    ensures Created(s, cur, s')
  {
    var r := Pmm.Lowest(s.free);
    State(CopyRoot(s.mem, cur, r), s.free - {r}, s.lev[r := 4])
  }

  ghost function Apply(s: State, ev: Event): State
    requires Wf(s) && EventOk(s, ev)
  {
    match ev
    case Alloc => TakeFrame(s)
    case MapPage(r, p, e) => Map(s, r, p, e)
    case Build(r, p, flags) => TakeFrameWf(s); Map(TakeFrame(s), r, p, Entry(Pmm.Lowest(s.free), flags))
    case UnmapPage(r, p) => Unmap(s, r, p)
    case Create(cur) => NewSpace(s, cur)
    case Store(f, i, e) => SetLeaf(s, f, i, e)
  }

  lemma ApplyWf(s: State, ev: Event)
    requires Wf(s) && EventOk(s, ev)
    ensures Wf(Apply(s, ev))
    ensures forall r | IsRoot(s, r) :: IsRoot(Apply(s, ev), r)
  {
    match ev {
      case Alloc => TakeFrameWf(s);
      case MapPage(r, p, e) => MapWf(s, r, p, e);
      case Build(r, p, flags) =>
        TakeFrameWf(s);
        MapWf(TakeFrame(s), r, p, Entry(Pmm.Lowest(s.free), flags));
      case UnmapPage(r, p) => UnmapWf(s, r, p);
      case Create(cur) => CreatedWf(s, cur, NewSpace(s, cur));
      case Store(f, i, e) => StoreWf(s, f, i, e);
    }
  }

  ghost predicate RunOk(s: State, evs: seq<Event>)
    requires Wf(s)
    decreases |evs|
  {
    evs == [] || (EventOk(s, evs[0]) && (ApplyWf(s, evs[0]); RunOk(Apply(s, evs[0]), evs[1..])))
  }

  ghost function Run(s: State, evs: seq<Event>): State
    requires Wf(s) && RunOk(s, evs)
    decreases |evs|
  {
    if evs == [] then s else ApplyWf(s, evs[0]); Run(Apply(s, evs[0]), evs[1..])
  }

  // ---------------------------------------------------------------- ownership

  lemma LinkNoOrphans(s: State, t: nat, i: nat, flags: nat)
    requires Linkable(s, t, i, flags) && LevelsOk(Link(s, t, i, flags)) && NoOrphans(s)
    ensures NoOrphans(Link(s, t, i, flags))
  {
    var s' := Link(s, t, i, flags);
    assert At(s'.mem, t, i) == Entry(Pmm.Lowest(s.free), flags);
    forall d | d in s'.lev && s'.lev[d] < 4
      ensures HasParent(s', d)
    {
      if d != Pmm.Lowest(s.free) {
        KeepsParent(s, s', d);
      }
    }
  }

  // A parent survives when slots above level 1 are only filled, never rewritten.
  lemma KeepsParent(s: State, s': State, c: nat)
    requires LevelsOk(s) && LevelsOk(s') && |s.mem| == |s'.mem| && HasParent(s, c)
    requires forall f | f in s.lev :: f in s'.lev && s'.lev[f] == s.lev[f]
    requires forall f, i: nat {:trigger At(s'.mem, f, i)} |
               f in s.lev && s.lev[f] > 1 && i < ENTRIES && Present(At(s.mem, f, i)) ::
               At(s'.mem, f, i) == At(s.mem, f, i)
    ensures HasParent(s', c)
  {
    var f, i: nat :|
      f in s.lev && i < ENTRIES && s.lev[f] > 1 && Present(At(s.mem, f, i)) && At(s.mem, f, i).frame == c;
    assert At(s'.mem, f, i) == At(s.mem, f, i);
  }

  lemma {:induction false} FillNoOrphans(s: State, r: nat, p: seq<nat>, d: nat, flags: nat)
    requires Wf(s) && IsRoot(s, r) && IsPath(p) && d <= 3 && flags % 2 == 1
    requires Missing(s.mem, r, p, d) <= |s.free| && NoOrphans(s)
    ensures NoOrphans(Fill(s, r, p, d, flags))
    decreases d
  {
    if d > 0 {
      FillNoOrphans(s, r, p, d - 1, flags);
      var s0 := Fill(s, r, p, d - 1, flags);
      FillStep(s, r, p, d, flags, s0);
      var t := Walk(s0.mem, r, p[..d - 1]).value;
      if !Present(At(s0.mem, t, p[d - 1])) {
        LinkWf(s0, t, p[d - 1], flags);
        LinkNoOrphans(s0, t, p[d - 1], flags);
      }
    }
  }

  // A leaf or data write fills no slot above level 1.
  lemma SetLeafNoOrphans(s: State, t: nat, i: nat, e: Entry)
    requires LevelsOk(s) && NoOrphans(s) && t < Frames(s.mem) && i < ENTRIES && (t in s.lev ==> s.lev[t] == 1)
    ensures LevelsOk(SetLeaf(s, t, i, e)) && NoOrphans(SetLeaf(s, t, i, e))
  {
    var s' := SetLeaf(s, t, i, e);
    forall c | c in s'.lev && s'.lev[c] < 4
      ensures HasParent(s', c)
    {
      KeepsParent(s, s', c);
    }
  }

  lemma MapNoOrphans(s: State, r: nat, p: seq<nat>, e: Entry)
    requires Wf(s) && IsRoot(s, r) && IsPath(p) && Present(e) && CanMap(s, r, p) && NoOrphans(s)
    ensures LevelsOk(Map(s, r, p, e)) && NoOrphans(Map(s, r, p, e))
  {
    FillNoOrphans(s, r, p, 3, e.flags);
    var s3 := Fill(s, r, p, 3, e.flags);
    WalkLevel(s3, r, p[..3]);
    SetLeafNoOrphans(s3, Walk(s3.mem, r, p[..3]).value, p[3], e);
  }

  lemma NewSpaceNoOrphans(s: State, cur: nat)
    requires Wf(s) && IsRoot(s, cur) && s.free != {} && NoOrphans(s)
    ensures LevelsOk(NewSpace(s, cur)) && NoOrphans(NewSpace(s, cur))
  {
    var s' := NewSpace(s, cur);
    forall c | c in s'.lev && s'.lev[c] < 4
      ensures HasParent(s', c)
    {
      assert HasParent(s, c);
      KeepsParent(s, s', c);
    }
  }

  lemma TakeNoOrphans(s: State)
    requires Wf(s) && NoOrphans(s) && s.free != {}
    ensures LevelsOk(TakeFrame(s)) && NoOrphans(TakeFrame(s))
  {
    forall c | c in s.lev && s.lev[c] < 4
      ensures HasParent(TakeFrame(s), c)
    {
      KeepsParent(s, TakeFrame(s), c);
    }
  }

  lemma ApplyNoOrphans(s: State, ev: Event)
    requires Wf(s) && NoOrphans(s) && EventOk(s, ev)
    ensures LevelsOk(Apply(s, ev)) && NoOrphans(Apply(s, ev))
  {
    match ev {
      case Alloc => TakeNoOrphans(s);
      case MapPage(r, p, e) => MapNoOrphans(s, r, p, e);
      case Build(r, p, flags) =>
        TakeNoOrphans(s);
        TakeFrameWf(s);
        MapNoOrphans(TakeFrame(s), r, p, Entry(Pmm.Lowest(s.free), flags));
      case UnmapPage(r, p) =>
        if Walk(s.mem, r, p[..3]).Some? {
          WalkLevel(s, r, p[..3]);
          SetLeafNoOrphans(s, Walk(s.mem, r, p[..3]).value, p[3], ZERO);
        }
      case Create(cur) => NewSpaceNoOrphans(s, cur);
      case Store(f, i, e) => SetLeafNoOrphans(s, f, i, e);
    }
  }

  // Over every run: a table is allocated, has one level, and below the roots has a
  // parent slot, which is its only one unless both are the same upper-half slot of
  // two roots. The frame handed out next serves as no table.
  lemma {:induction false} RunKeepsOwnership(s: State, evs: seq<Event>)
    requires Wf(s) && NoOrphans(s) && RunOk(s, evs)
    ensures var s' := Run(s, evs);
            && Wf(s') && NoOrphans(s')
            && (s'.free != {} ==> Pmm.Lowest(s'.free) !in s'.lev)
            && (forall r | IsRoot(s, r) :: IsRoot(s', r))
    decreases |evs|
  {
    if evs != [] {
      ApplyWf(s, evs[0]);
      ApplyNoOrphans(s, evs[0]);
      RunKeepsOwnership(Apply(s, evs[0]), evs[1..]);
    }
  }

  // ---------------------------------------------------------------- kernel-half coherence

  // Present slots of roots are never rewritten.
  ghost predicate KeepsTop(s: State, s': State) {
    forall r, i: nat {:trigger Step(s'.mem, r, i)} {:trigger Step(s.mem, r, i)} |
      IsRoot(s, r) && Step(s.mem, r, i).Some? ::
      IsRoot(s', r) && Step(s'.mem, r, i) == Step(s.mem, r, i)
  }

  lemma {:induction false} FillKeepsTop(s: State, r: nat, p: seq<nat>, d: nat, flags: nat)
    requires Wf(s) && IsRoot(s, r) && IsPath(p) && d <= 3 && flags % 2 == 1
    requires Missing(s.mem, r, p, d) <= |s.free|
    ensures KeepsTop(s, Fill(s, r, p, d, flags))
    decreases d
  {
    if d > 0 {
      FillKeepsTop(s, r, p, d - 1, flags);
      var s0 := Fill(s, r, p, d - 1, flags);
      FillStep(s, r, p, d, flags, s0);
      var t := Walk(s0.mem, r, p[..d - 1]).value;
      if !Present(At(s0.mem, t, p[d - 1])) {
        var s1 := Link(s0, t, p[d - 1], flags);
        forall r2, i: nat | IsRoot(s, r2) && Step(s.mem, r2, i).Some?
          ensures IsRoot(s1, r2) && Step(s1.mem, r2, i) == Step(s.mem, r2, i)
        {
          assert Step(s0.mem, r2, i) == Step(s.mem, r2, i);
          assert At(s1.mem, r2, i) == At(s0.mem, r2, i);
        }
      }
    }
  }

  lemma SetLeafKeepsTop(s: State, t: nat, i: nat, e: Entry)
    requires LevelsOk(s) && t < Frames(s.mem) && i < ENTRIES && (t in s.lev ==> s.lev[t] == 1)
    ensures KeepsTop(s, SetLeaf(s, t, i, e))
  {
    var s' := SetLeaf(s, t, i, e);
    forall r, j: nat | IsRoot(s, r) && Step(s.mem, r, j).Some?
      ensures Step(s'.mem, r, j) == Step(s.mem, r, j)
    {
      assert At(s'.mem, r, j) == At(s.mem, r, j);
    }
  }

  lemma MapKeepsTop(s: State, r: nat, p: seq<nat>, e: Entry)
    requires Wf(s) && IsRoot(s, r) && IsPath(p) && Present(e) && CanMap(s, r, p)
    ensures KeepsTop(s, Map(s, r, p, e))
  {
    FillKeepsTop(s, r, p, 3, e.flags);
    var s3 := Fill(s, r, p, 3, e.flags);
    WalkLevel(s3, r, p[..3]);
    SetLeafKeepsTop(s3, Walk(s3.mem, r, p[..3]).value, p[3], e);
  }

  lemma ApplyKeepsTop(s: State, ev: Event)
    requires Wf(s) && EventOk(s, ev)
    ensures KeepsTop(s, Apply(s, ev))
  {
    match ev {
      case Alloc =>
      case MapPage(r, p, e) => MapKeepsTop(s, r, p, e);
      case Build(r, p, flags) =>
        TakeFrameWf(s);
        MapKeepsTop(TakeFrame(s), r, p, Entry(Pmm.Lowest(s.free), flags));
      case UnmapPage(r, p) =>
        if Walk(s.mem, r, p[..3]).Some? {
          WalkLevel(s, r, p[..3]);
          SetLeafKeepsTop(s, Walk(s.mem, r, p[..3]).value, p[3], ZERO);
        }
      case Create(cur) =>
        var s' := NewSpace(s, cur);
        forall r, i: nat | IsRoot(s, r) && Step(s.mem, r, i).Some?
          ensures Step(s'.mem, r, i) == Step(s.mem, r, i)
        {
          assert At(s'.mem, r, i) == At(s.mem, r, i);
        }
      case Store(f, i, e) => SetLeafKeepsTop(s, f, i, e);
    }
  }

  lemma {:induction false} RunKeepsTop(s: State, evs: seq<Event>)
    requires Wf(s) && RunOk(s, evs)
    ensures KeepsTop(s, Run(s, evs)) && Wf(Run(s, evs))
    ensures forall r | IsRoot(s, r) :: IsRoot(Run(s, evs), r)
    decreases |evs|
  {
    if evs != [] {
      ApplyWf(s, evs[0]);
      ApplyKeepsTop(s, evs[0]);
      RunKeepsTop(Apply(s, evs[0]), evs[1..]);
    }
  }

  // A space made from `cur` translates every page under an upper-half slot that was
  // present at its creation exactly as `cur` does, after every later run.
  lemma KernelHalfCoherent(s: State, cur: nat, evs: seq<Event>, q: seq<nat>)
    requires Wf(s) && IsRoot(s, cur) && s.free != {} && Wf(NewSpace(s, cur)) && RunOk(NewSpace(s, cur), evs)
    requires IsPath(q) && q[0] >= K_PAGE_START && Step(s.mem, cur, q[0]).Some?
    ensures var s' := Run(NewSpace(s, cur), evs);
            Translate(s'.mem, Pmm.Lowest(s.free), q) == Translate(s'.mem, cur, q)
  {
    var s1 := NewSpace(s, cur);
    var r := Pmm.Lowest(s.free);
    CreatedWf(s, cur, s1);
    assert At(s1.mem, r, q[0]) == At(s.mem, cur, q[0]) && At(s1.mem, cur, q[0]) == At(s.mem, cur, q[0]);
    RunKeepsTop(s1, evs);
    var s' := Run(s1, evs);
    assert Step(s'.mem, r, q[0]) == Step(s'.mem, cur, q[0]);
    SameTopSameWalk(s'.mem, r, cur, q[..3]);
  }

  // ---------------------------------------------------------------- what is shared, exactly

  // Two roots that were there share a top slot afterwards exactly when they did before.
  ghost predicate KeepsSharing(s: State, s': State, a: nat, b: nat, i: nat) {
    SameTop(s'.mem, a, b, i) == SameTop(s.mem, a, b, i)
  }

  lemma {:induction false} FillKeepsSharing(s: State, r: nat, p: seq<nat>, d: nat, flags: nat, a: nat, b: nat, i: nat)
    requires Wf(s) && IsRoot(s, r) && IsPath(p) && d <= 3 && flags % 2 == 1
    requires Missing(s.mem, r, p, d) <= |s.free| && IsRoot(s, a) && IsRoot(s, b) && i < ENTRIES
    ensures KeepsSharing(s, Fill(s, r, p, d, flags), a, b, i)
    decreases d
  {
    if d > 0 {
      FillKeepsSharing(s, r, p, d - 1, flags, a, b, i);
      var s0 := Fill(s, r, p, d - 1, flags);
      FillStep(s, r, p, d, flags, s0);
      var t := Walk(s0.mem, r, p[..d - 1]).value;
      if !Present(At(s0.mem, t, p[d - 1])) {
        LinkSameTop(s0, t, p[d - 1], flags, a, b, i);
      }
    }
  }

  lemma SameSlotsKeepSharing(s: State, s': State, a: nat, b: nat, i: nat)
    requires |s'.mem| == |s.mem| && a < Frames(s.mem) && b < Frames(s.mem) && i < ENTRIES
    requires At(s'.mem, a, i) == At(s.mem, a, i) && At(s'.mem, b, i) == At(s.mem, b, i)
    ensures KeepsSharing(s, s', a, b, i)
  {
  }

  lemma MapKeepsSharing(s: State, r: nat, p: seq<nat>, e: Entry, a: nat, b: nat, i: nat)
    requires Wf(s) && IsRoot(s, r) && IsPath(p) && Present(e) && CanMap(s, r, p)
    requires IsRoot(s, a) && IsRoot(s, b) && i < ENTRIES
    ensures KeepsSharing(s, Map(s, r, p, e), a, b, i)
  {
    FillKeepsSharing(s, r, p, 3, e.flags, a, b, i);
    var s3 := Fill(s, r, p, 3, e.flags);
    WalkLevel(s3, r, p[..3]);
    SameSlotsKeepSharing(s3, Map(s, r, p, e), a, b, i);
  }

  lemma ApplyKeepsSharing(s: State, ev: Event, a: nat, b: nat, i: nat)
    requires Wf(s) && EventOk(s, ev) && IsRoot(s, a) && IsRoot(s, b) && i < ENTRIES
    ensures KeepsSharing(s, Apply(s, ev), a, b, i)
  {
    match ev {
      case Alloc =>
      case MapPage(r, p, e) => MapKeepsSharing(s, r, p, e, a, b, i);
      case Build(r, p, flags) =>
        TakeFrameWf(s);
        MapKeepsSharing(TakeFrame(s), r, p, Entry(Pmm.Lowest(s.free), flags), a, b, i);
      case UnmapPage(r, p) =>
        if Walk(s.mem, r, p[..3]).Some? {
          WalkLevel(s, r, p[..3]);
          SameSlotsKeepSharing(s, Unmap(s, r, p), a, b, i);
        }
      case Create(cur) => SameSlotsKeepSharing(s, NewSpace(s, cur), a, b, i);
      case Store(f, j, e) => SameSlotsKeepSharing(s, SetLeaf(s, f, j, e), a, b, i);
    }
  }

  lemma {:induction false} RunKeepsSharing(s: State, evs: seq<Event>, a: nat, b: nat, i: nat)
    requires Wf(s) && RunOk(s, evs) && IsRoot(s, a) && IsRoot(s, b) && i < ENTRIES
    ensures KeepsSharing(s, Run(s, evs), a, b, i)
    decreases |evs|
  {
    if evs != [] {
      ApplyWf(s, evs[0]);
      ApplyKeepsSharing(s, evs[0], a, b, i);
      RunKeepsSharing(Apply(s, evs[0]), evs[1..], a, b, i);
    }
  }

  // Which top slots a space shares with the one it was made from is settled when it is
  // made: after every later run, exactly the upper-half slots that were present then.
  lemma SharedIffPresentThen(s: State, cur: nat, evs: seq<Event>, i: nat)
    requires Wf(s) && IsRoot(s, cur) && s.free != {} && Wf(NewSpace(s, cur)) && RunOk(NewSpace(s, cur), evs)
    requires i < ENTRIES
    ensures SameTop(Run(NewSpace(s, cur), evs).mem, Pmm.Lowest(s.free), cur, i) <==>
            i >= K_PAGE_START && Step(s.mem, cur, i).Some?
  {
    var s1, r := NewSpace(s, cur), Pmm.Lowest(s.free);
    CreatedWf(s, cur, s1);
    assert At(s1.mem, cur, i) == At(s.mem, cur, i);
    assert At(s1.mem, r, i) == if i < K_PAGE_START then ZERO else At(s.mem, cur, i);
    RunKeepsSharing(s1, evs, r, cur, i);
  }

  // So under a slot that was absent then the two spaces part: a page that is mapped in
  // one of them later stays unmapped in the other.
  lemma UnsharedDiverge(s: State, cur: nat, evs: seq<Event>, q: seq<nat>, e: Entry)
    requires Wf(s) && IsRoot(s, cur) && s.free != {} && Wf(NewSpace(s, cur)) && RunOk(NewSpace(s, cur), evs)
    requires IsPath(q) && Step(s.mem, cur, q[0]).None? && Present(e)
    requires var s' := Run(NewSpace(s, cur), evs); CanMap(s', cur, q) && Translate(s'.mem, cur, q).None?
    ensures var s', r := Run(NewSpace(s, cur), evs), Pmm.Lowest(s.free);
            && Wf(s') && IsRoot(s', cur)
            && Translate(Map(s', cur, q, e).mem, cur, q) == Some(e)
            && Translate(Map(s', cur, q, e).mem, r, q) == Translate(s'.mem, r, q)
  {
    var s', r := Run(NewSpace(s, cur), evs), Pmm.Lowest(s.free);
    RunKeepsTop(NewSpace(s, cur), evs);
    CreatedWf(s, cur, NewSpace(s, cur));
    SharedIffPresentThen(s, cur, evs, q[0]);
    MapRefines(s', cur, q, e, cur, q);
    MapRefines(s', cur, q, e, r, q);
  }
}
