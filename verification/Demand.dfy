// The tables that mapping a page makes: exactly those missing on its path.
module Demand {
  import opened Mapping
  import opened Options
  import opened PageTables
  import Pmm

  // The missing tables of the first `d` levels down `p`, by the indices that lead to them.
  function MissingTables(m: Memory, r: nat, p: seq<nat>, d: nat): set<seq<nat>>
    requires d <= |p|
  {
    if d == 0 then {} else MissingTables(m, r, p, d - 1) + if Walk(m, r, p[..d]).None? then {p[..d]} else {}
  }

  lemma {:induction false} MissingCount(m: Memory, r: nat, p: seq<nat>, d: nat)
    requires d <= |p|
    ensures forall x | x in MissingTables(m, r, p, d) :: |x| <= d
    ensures |MissingTables(m, r, p, d)| == Missing(m, r, p, d)
    decreases d
  {
    if d > 0 {
      MissingCount(m, r, p, d - 1);
      assert p[..d] !in MissingTables(m, r, p, d - 1);
      MissingStep(m, r, p, d);
    }
  }

  lemma MissingStep(m: Memory, r: nat, p: seq<nat>, d: nat)
    requires 0 < d <= |p|
    ensures MissingTables(m, r, p, d) ==
            MissingTables(m, r, p, d - 1) + if Walk(m, r, p[..d]).None? then {p[..d]} else {}
  {
  }

  // Below root `r`, `m'` has the given tables and those of `m`, and no others.
  ghost predicate Makes(m: Memory, r: nat, tables: set<seq<nat>>, m': Memory) {
    forall x: seq<nat> {:trigger Walk(m', r, x)} | |x| <= 3 ::
      Walk(m', r, x).None? <==> Walk(m, r, x).None? && x !in tables
  }

  lemma MakesBoth(m: Memory, r: nat, a: set<seq<nat>>, m1: Memory, b: set<seq<nat>>, m2: Memory)
    requires Makes(m, r, a, m1) && Makes(m1, r, b, m2)
    ensures Makes(m, r, a + b, m2)
  {
  }

  lemma LinkMakes(s: State, r: nat, u: seq<nat>, i: nat, flags: nat)
    requires Wf(s) && IsRoot(s, r) && |u| <= 2 && Walk(s.mem, r, u).Some? && flags % 2 == 1
    requires Linkable(s, Walk(s.mem, r, u).value, i, flags)
    ensures Makes(s.mem, r, {u + [i]}, Link(s, Walk(s.mem, r, u).value, i, flags).mem)
  {
    var t := Walk(s.mem, r, u).value;
    LinkWalks(s, t, i, flags);
    forall x: seq<nat> | |x| <= 3
      ensures x != [] && Walk(s.mem, r, Init(x)) == Some(t) && Last(x) == i <==> x == u + [i]
    {
      if x == u + [i] {
        assert Init(x) == u;
      } else if x != [] && Walk(s.mem, r, Init(x)) == Some(t) {
        WalkLevel(s, r, Init(x));
        WalkLevel(s, r, u);
        UniquePath(s, r, Init(x), r, u);
        assert x == Init(x) + [Last(x)];
      }
    }
    assert Walk(s.mem, r, u + [i]).None? by {
      assert Init(u + [i]) == u;
    }
  }

  lemma EnsureMakes(s: State, r: nat, p: seq<nat>, d: nat, flags: nat, s0: State)
    requires IsPath(p) && 0 < d <= 3 && flags % 2 == 1 && Filled(s, r, p, d - 1, s0) && IsRoot(s, r)
    requires var t := Walk(s0.mem, r, p[..d - 1]).value;
             t in s0.lev && s0.lev[t] > 1 && (!Present(At(s0.mem, t, p[d - 1])) ==> s0.free != {})
    requires Makes(s.mem, r, MissingTables(s.mem, r, p, d - 1), s0.mem)
    ensures var t := Walk(s0.mem, r, p[..d - 1]).value;
            Makes(s.mem, r, MissingTables(s.mem, r, p, d), Ensure(s0, t, p[d - 1], flags).mem)
  {
    var u, i := p[..d - 1], p[d - 1];
    var t := Walk(s0.mem, r, u).value;
    assert p[..d] == u + [i] && Init(p[..d]) == u;
    assert Walk(s0.mem, r, p[..d]) == Walk(s.mem, r, p[..d]);
    MissingStep(s.mem, r, p, d);
    if !Present(At(s0.mem, t, i)) {
      LinkMakes(s0, r, u, i, flags);
      MakesBoth(s.mem, r, MissingTables(s.mem, r, p, d - 1), s0.mem, {p[..d]}, Link(s0, t, i, flags).mem);
    }
  }

  lemma {:induction false} FillMakes(s: State, r: nat, p: seq<nat>, d: nat, flags: nat)
    requires Wf(s) && IsRoot(s, r) && IsPath(p) && d <= 3 && flags % 2 == 1
    requires Missing(s.mem, r, p, d) <= |s.free|
    ensures Makes(s.mem, r, MissingTables(s.mem, r, p, d), Fill(s, r, p, d, flags).mem)
    decreases d
  {
    if d > 0 {
      FillMakes(s, r, p, d - 1, flags);
      var s0 := Fill(s, r, p, d - 1, flags);
      FillStep(s, r, p, d, flags, s0);
      EnsureMakes(s, r, p, d, flags, s0);
    }
  }

  // Mapping a page makes the tables missing on its path, from as many frames.
  lemma MapMakes(s: State, r: nat, p: seq<nat>, e: Entry)
    requires Wf(s) && IsRoot(s, r) && IsPath(p) && Present(e) && CanMap(s, r, p)
    ensures Makes(s.mem, r, MissingTables(s.mem, r, p, 3), Map(s, r, p, e).mem)
    ensures |Map(s, r, p, e).free| == |s.free| - |MissingTables(s.mem, r, p, 3)|
  {
    MissingCount(s.mem, r, p, 3);
    FillMakes(s, r, p, 3, e.flags);
    var s3 := Fill(s, r, p, 3, e.flags);
    WalkLevel(s3, r, p[..3]);
    LeafMakesNothing(s3, Walk(s3.mem, r, p[..3]).value, p[3], e, r);
  }

  lemma LeafMakesNothing(s: State, t: nat, i: nat, e: Entry, r: nat)
    requires Wf(s) && t in s.lev && s.lev[t] == 1 && i < ENTRIES && IsRoot(s, r)
    ensures forall x: seq<nat> {:trigger Walk(SetLeaf(s, t, i, e).mem, r, x)} | |x| <= 3 ::
              Walk(SetLeaf(s, t, i, e).mem, r, x) == Walk(s.mem, r, x)
  {
    forall x: seq<nat> | |x| <= 3
      ensures Walk(SetLeaf(s, t, i, e).mem, r, x) == Walk(s.mem, r, x)
    {
      PutWalk(s, t, i, e, r, x);
      if x != [] && Walk(s.mem, r, Init(x)).Some? {
        WalkLevel(s, r, Init(x));
      }
    }
  }
}
