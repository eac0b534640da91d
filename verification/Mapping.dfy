// What mapping, unmapping and creating an address space do to well-formed page
// tables, and how they refine a flat map from pages to leaf entries.
module Mapping {
  import opened Options
  import opened PageTables
  import Pmm

  // ---------------------------------------------------------------- one new table

  // Give slot `i` of table `t` a new table, taken from the lowest free frame.
  ghost function Link(s: State, t: nat, i: nat, flags: nat): State
    requires Wf(s) && t in s.lev && s.lev[t] > 1 && i < ENTRIES && s.free != {}
  {
    var c := Pmm.Lowest(s.free);
    State(Put(s.mem, t, i, Entry(c, flags)), s.free - {c}, s.lev[c := s.lev[t] - 1])
  }

  // What `Link` needs of the slot it fills.
  ghost predicate Linkable(s: State, t: nat, i: nat, flags: nat) {
    && Wf(s) && t in s.lev && s.lev[t] > 1 && i < ENTRIES && s.free != {}
    && !Present(At(s.mem, t, i)) && flags % 2 == 1
  }

  lemma LinkChildren(s: State, t: nat, i: nat, flags: nat)
    requires Linkable(s, t, i, flags)
    ensures LevelsOk(Link(s, t, i, flags)) && FreeIsZero(Link(s, t, i, flags)) && ChildrenOk(Link(s, t, i, flags))
  {
    var c := Pmm.Lowest(s.free);
    var s' := Link(s, t, i, flags);
    forall f, j: nat | f in s'.lev && j < ENTRIES
      ensures var e := At(s'.mem, f, j);
              if Present(e) then s'.lev[f] > 1 ==> e.frame in s'.lev && s'.lev[e.frame] == s'.lev[f] - 1
              else e == ZERO
    {
      assert At(s'.mem, f, j) == if f == t && j == i then Entry(c, flags) else At(s.mem, f, j);
    }
  }

  lemma LinkUnshared(s: State, t: nat, i: nat, flags: nat)
    requires Linkable(s, t, i, flags) && LevelsOk(Link(s, t, i, flags))
    ensures Unshared(Link(s, t, i, flags))
  {
    var c := Pmm.Lowest(s.free);
    var s' := Link(s, t, i, flags);
    forall f, j: nat | f in s'.lev && s'.lev[f] > 1 && j < ENTRIES && Present(At(s'.mem, f, j)) && !(f == t && j == i)
      ensures f in s.lev && s.lev[f] == s'.lev[f] && At(s'.mem, f, j) == At(s.mem, f, j) && At(s'.mem, f, j).frame != c
    {
      assert At(s'.mem, f, j) == At(s.mem, f, j);
      assert f != c;
      assert At(s.mem, f, j).frame in s.lev;
    }
    assert At(s'.mem, t, i).frame == c;
  }

  lemma LinkWf(s: State, t: nat, i: nat, flags: nat)
    requires Linkable(s, t, i, flags)
    ensures Wf(Link(s, t, i, flags))
  {
    LinkChildren(s, t, i, flags);
    LinkUnshared(s, t, i, flags);
  }

  // ---------------------------------------------------------------- tables down a path

  // How many tables of the first `d` levels down `p` are missing.
  function Missing(m: Memory, r: nat, p: seq<nat>, d: nat): nat
    requires d <= |p|
  {
    if d == 0 then 0 else Missing(m, r, p, d - 1) + if Walk(m, r, p[..d]).None? then 1 else 0
  }

  // Table `t` with a table under slot `i`, which is made if it is missing.
  ghost function Ensure(s: State, t: nat, i: nat, flags: nat): State
    requires Wf(s) && t in s.lev && s.lev[t] > 1 && i < ENTRIES
    requires !Present(At(s.mem, t, i)) ==> s.free != {}
  {
    if Present(At(s.mem, t, i)) then s else Link(s, t, i, flags)
  }

  // `s'` is `s` with the tables for the first `d` indices of `p` in place.
  ghost predicate Filled(s: State, r: nat, p: seq<nat>, d: nat, s': State)
    requires IsPath(p) && d <= 3
  {
    && Wf(s') && IsRoot(s', r) && Walk(s'.mem, r, p[..d]).Some?
    && |s'.mem| == |s.mem| && s'.free <= s.free && |s'.free| == |s.free| - Missing(s.mem, r, p, d)
    && (forall r2 | IsRoot(s, r2) :: IsRoot(s', r2))
    && (forall r2, q: seq<nat> {:trigger Walk(s'.mem, r2, q)} | IsRoot(s, r2) && d < |q| <= 4 ::
          Walk(s'.mem, r2, q) == Walk(s.mem, r2, q))
  }

  ghost function Fill(s: State, r: nat, p: seq<nat>, d: nat, flags: nat): (s': State)
    requires Wf(s) && IsRoot(s, r) && IsPath(p) && d <= 3 && flags % 2 == 1
    requires Missing(s.mem, r, p, d) <= |s.free|
    ensures Filled(s, r, p, d, s')
  {
    if d == 0 then s else
      var s0 := Fill(s, r, p, d - 1, flags);
      FillStep(s, r, p, d, flags, s0);
      Ensure(s0, Walk(s0.mem, r, p[..d - 1]).value, p[d - 1], flags)
  }

  lemma FillStep(s: State, r: nat, p: seq<nat>, d: nat, flags: nat, s0: State)
    requires Wf(s) && IsRoot(s, r) && IsPath(p) && 0 < d <= 3 && flags % 2 == 1
    requires Missing(s.mem, r, p, d) <= |s.free|
    requires Filled(s, r, p, d - 1, s0)
    ensures var t := Walk(s0.mem, r, p[..d - 1]).value;
            && t in s0.lev && s0.lev[t] > 1 && (!Present(At(s0.mem, t, p[d - 1])) ==> s0.free != {})
            && Filled(s, r, p, d, Ensure(s0, t, p[d - 1], flags))
  {
    var t := Walk(s0.mem, r, p[..d - 1]).value;
    WalkLevel(s0, r, p[..d - 1]);
    assert Init(p[..d]) == p[..d - 1] && Last(p[..d]) == p[d - 1];
    assert Walk(s0.mem, r, p[..d]) == Walk(s.mem, r, p[..d]);
    if !Present(At(s0.mem, t, p[d - 1])) {
      LinkWf(s0, t, p[d - 1], flags);
      LinkWalks(s0, t, p[d - 1], flags);
    }
  }

  // Linking changes no walk but those that end in the new slot.
  lemma LinkWalks(s: State, t: nat, i: nat, flags: nat)
    requires Wf(s) && t in s.lev && s.lev[t] > 1 && i < ENTRIES && s.free != {}
    requires !Present(At(s.mem, t, i)) && flags % 2 == 1
    ensures forall r2, q: seq<nat> {:trigger Walk(Link(s, t, i, flags).mem, r2, q)} | IsRoot(s, r2) && |q| <= 4 ::
              Walk(Link(s, t, i, flags).mem, r2, q) ==
              if q != [] && Walk(s.mem, r2, Init(q)) == Some(t) && Last(q) == i
              then Some(Pmm.Lowest(s.free))
              else Walk(s.mem, r2, q)
    ensures forall r2, q: seq<nat> {:trigger Walk(Link(s, t, i, flags).mem, r2, q)} |
              IsRoot(s, r2) && |q| <= 4 && |q| != 5 - s.lev[t] ::
              Walk(Link(s, t, i, flags).mem, r2, q) == Walk(s.mem, r2, q)
  {
    forall r2, q: seq<nat> | IsRoot(s, r2) && |q| <= 4
      ensures Walk(Link(s, t, i, flags).mem, r2, q) ==
              if q != [] && Walk(s.mem, r2, Init(q)) == Some(t) && Last(q) == i
              then Some(Pmm.Lowest(s.free))
              else Walk(s.mem, r2, q)
      ensures |q| != 5 - s.lev[t] ==> Walk(Link(s, t, i, flags).mem, r2, q) == Walk(s.mem, r2, q)
    {
      PutWalk(s, t, i, Entry(Pmm.Lowest(s.free), flags), r2, q);
      if q != [] && Walk(s.mem, r2, Init(q)) == Some(t) {
        WalkLevel(s, r2, Init(q));
      }
    }
  }

  // ---------------------------------------------------------------- leaves

  ghost function SetLeaf(s: State, t: nat, i: nat, e: Entry): State
    requires t < Frames(s.mem) && i < ENTRIES
  {
    s.(mem := Put(s.mem, t, i, e))
  }

  lemma SetLeafWf(s: State, t: nat, i: nat, e: Entry)
    requires Wf(s) && t in s.lev && s.lev[t] == 1 && i < ENTRIES && (Present(e) || e == ZERO)
    ensures Wf(SetLeaf(s, t, i, e))
  {
    var s' := SetLeaf(s, t, i, e);
    forall f: nat, j: nat | f < Frames(s.mem) && j < ENTRIES
      ensures At(s'.mem, f, j) == if f == t && j == i then e else At(s.mem, f, j)
    {
    }
    assert LevelsOk(s') && FreeIsZero(s') && ChildrenOk(s');
  }

  // A leaf write changes the translation of one page, in the spaces that share its table.
  lemma SetLeafTranslate(s: State, r: nat, p: seq<nat>, e: Entry, r2: nat, q: seq<nat>)
    requires Wf(s) && IsRoot(s, r) && IsRoot(s, r2) && IsPath(p) && IsPath(q)
    requires Walk(s.mem, r, p[..3]).Some?
    ensures Walk(s.mem, r, p[..3]).value < Frames(s.mem)
    ensures Translate(SetLeaf(s, Walk(s.mem, r, p[..3]).value, p[3], e).mem, r2, q) ==
            if q == p && SameTop(s.mem, r, r2, p[0])
            then if Present(e) then Some(e) else None
            else Translate(s.mem, r2, q)
  {
    WalkLevel(s, r, p[..3]);
    var t := Walk(s.mem, r, p[..3]).value;
    PutWalk(s, t, p[3], e, r2, q[..3]);
    if Walk(s.mem, r2, Init(q[..3])).Some? {
      WalkLevel(s, r2, Init(q[..3]));
    }
    assert Walk(SetLeaf(s, t, p[3], e).mem, r2, q[..3]) == Walk(s.mem, r2, q[..3]);
    if Walk(s.mem, r2, q[..3]) == Some(t) {
      UniquePath(s, r, p[..3], r2, q[..3]);
      assert q[..3] == p[..3];
      assert p[..3][0] == p[0];
      assert q[3] == p[3] ==> q == p[..3] + [p[3]] == p;
    }
    if q == p && SameTop(s.mem, r, r2, p[0]) && r != r2 {
      SameTopSameWalk(s.mem, r, r2, p[..3]);
    }
    if Walk(s.mem, r2, q[..3]).Some? {
      WalkLevel(s, r2, q[..3]);
    }
  }

  // ---------------------------------------------------------------- making tables maps nothing

  lemma LinkTranslate(s: State, t: nat, i: nat, flags: nat, r2: nat, q: seq<nat>)
    requires Linkable(s, t, i, flags) && IsRoot(s, r2) && IsPath(q)
    ensures Translate(Link(s, t, i, flags).mem, r2, q) == Translate(s.mem, r2, q)
  {
    var s' := Link(s, t, i, flags);
    var c := Pmm.Lowest(s.free);
    LinkWalks(s, t, i, flags);
    if Walk(s.mem, r2, Init(q[..3])) == Some(t) && q[2] == i {
      WalkLevel(s, r2, Init(q[..3]));
      assert Walk(s.mem, r2, q[..3]).None?;
      assert At(s'.mem, c, q[3]) == At(s.mem, c, q[3]) == ZERO;
    } else if Walk(s.mem, r2, q[..3]).Some? {
      WalkLevel(s, r2, q[..3]);
    }
  }

  lemma LinkSameTop(s: State, t: nat, i: nat, flags: nat, r: nat, r2: nat, j: nat)
    requires Linkable(s, t, i, flags) && IsRoot(s, r) && IsRoot(s, r2) && j < ENTRIES
    ensures SameTop(Link(s, t, i, flags).mem, r, r2, j) == SameTop(s.mem, r, r2, j)
  {
    var m' := Link(s, t, i, flags).mem;
    assert At(m', r, j) == if r == t && i == j then Entry(Pmm.Lowest(s.free), flags) else At(s.mem, r, j);
    assert At(m', r2, j) == if r2 == t && i == j then Entry(Pmm.Lowest(s.free), flags) else At(s.mem, r2, j);
  }

  lemma {:induction false} FillTranslate(s: State, r: nat, p: seq<nat>, d: nat, flags: nat, r2: nat, q: seq<nat>)
    requires Wf(s) && IsRoot(s, r) && IsRoot(s, r2) && IsPath(p) && IsPath(q) && d <= 3 && flags % 2 == 1
    requires Missing(s.mem, r, p, d) <= |s.free|
    ensures Translate(Fill(s, r, p, d, flags).mem, r2, q) == Translate(s.mem, r2, q)
    ensures SameTop(Fill(s, r, p, d, flags).mem, r, r2, p[0]) == SameTop(s.mem, r, r2, p[0])
    decreases d
  {
    if d > 0 {
      FillTranslate(s, r, p, d - 1, flags, r2, q);
      var s0 := Fill(s, r, p, d - 1, flags);
      FillStep(s, r, p, d, flags, s0);
      var t := Walk(s0.mem, r, p[..d - 1]).value;
      if !Present(At(s0.mem, t, p[d - 1])) {
        LinkTranslate(s0, t, p[d - 1], flags, r2, q);
        LinkSameTop(s0, t, p[d - 1], flags, r, r2, p[0]);
      }
    }
  }

  // ---------------------------------------------------------------- the operations

  // Enough free frames for the missing tables; otherwise the kernel panics.
  ghost predicate CanMap(s: State, r: nat, p: seq<nat>)
    requires IsPath(p)
  {
    Missing(s.mem, r, p, 3) <= |s.free|
  }

  // Map page `p` to the leaf `e`, unless the page is already mapped.
  ghost function Map(s: State, r: nat, p: seq<nat>, e: Entry): State
    requires Wf(s) && IsRoot(s, r) && IsPath(p) && Present(e) && CanMap(s, r, p)
  {
    var s3 := Fill(s, r, p, 3, e.flags);
    WalkLevel(s3, r, p[..3]);
    var t := Walk(s3.mem, r, p[..3]).value;
    if Present(At(s3.mem, t, p[3])) then s3 else SetLeaf(s3, t, p[3], e)
  }

  ghost function Unmap(s: State, r: nat, p: seq<nat>): State
    requires Wf(s) && IsRoot(s, r) && IsPath(p)
  {
    match Walk(s.mem, r, p[..3])
    case None => s
    case Some(t) =>
      WalkLevel(s, r, p[..3]);
      SetLeaf(s, t, p[3], ZERO)
  }

  // Mapping adds exactly one binding, and none when the page is mapped already;
  // another space sees it only through a shared upper-half table.
  lemma MapRefines(s: State, r: nat, p: seq<nat>, e: Entry, r2: nat, q: seq<nat>)
    requires Wf(s) && IsRoot(s, r) && IsRoot(s, r2) && IsPath(p) && IsPath(q) && Present(e) && CanMap(s, r, p)
    ensures Translate(Map(s, r, p, e).mem, r2, q) ==
            if q == p && SameTop(s.mem, r, r2, p[0]) && Translate(s.mem, r, p).None? then Some(e)
            else Translate(s.mem, r2, q)
  {
    var s3 := Fill(s, r, p, 3, e.flags);
    FillTranslate(s, r, p, 3, e.flags, r2, q);
    FillTranslate(s, r, p, 3, e.flags, r, p);
    SetLeafTranslate(s3, r, p, e, r2, q);
  }

  lemma MapWf(s: State, r: nat, p: seq<nat>, e: Entry)
    requires Wf(s) && IsRoot(s, r) && IsPath(p) && Present(e) && CanMap(s, r, p)
    ensures Wf(Map(s, r, p, e)) && |Map(s, r, p, e).mem| == |s.mem|
    ensures Map(s, r, p, e).free <= s.free
    ensures forall r2 | IsRoot(s, r2) :: IsRoot(Map(s, r, p, e), r2)
  {
    var s3 := Fill(s, r, p, 3, e.flags);
    WalkLevel(s3, r, p[..3]);
    SetLeafWf(s3, Walk(s3.mem, r, p[..3]).value, p[3], e);
  }

  // Unmapping removes exactly one binding.
  lemma UnmapRefines(s: State, r: nat, p: seq<nat>, r2: nat, q: seq<nat>)
    requires Wf(s) && IsRoot(s, r) && IsRoot(s, r2) && IsPath(p) && IsPath(q)
    ensures Translate(Unmap(s, r, p).mem, r2, q) ==
            if q == p && SameTop(s.mem, r, r2, p[0]) then None else Translate(s.mem, r2, q)
  {
    if Walk(s.mem, r, p[..3]).Some? {
      SetLeafTranslate(s, r, p, ZERO, r2, q);
    } else if q == p && SameTop(s.mem, r, r2, p[0]) && r != r2 {
      SameTopSameWalk(s.mem, r, r2, p[..3]);
    }
  }

  lemma UnmapWf(s: State, r: nat, p: seq<nat>)
    requires Wf(s) && IsRoot(s, r) && IsPath(p)
    ensures Wf(Unmap(s, r, p))
  {
    if Walk(s.mem, r, p[..3]).Some? {
      WalkLevel(s, r, p[..3]);
      SetLeafWf(s, Walk(s.mem, r, p[..3]).value, p[3], ZERO);
    }
  }

  // ---------------------------------------------------------------- a new space

  // The memory after root `r` got a zeroed lower half and the upper half of `cur`.
  ghost predicate CopiedRoot(m: Memory, cur: nat, r: nat, m': Memory)
    requires cur < Frames(m) && r < Frames(m) && |m'| == |m|
  {
    forall f: nat, i: nat {:trigger At(m', f, i)} | f < Frames(m) && i < ENTRIES ::
      At(m', f, i) == if f != r then At(m, f, i) else if i < K_PAGE_START then ZERO else At(m, cur, i)
  }

  // Create a space: `s'` is `s` with root `Lowest(s.free)` made from root `cur`.
  ghost predicate Created(s: State, cur: nat, s': State)
    requires Wf(s) && IsRoot(s, cur) && s.free != {}
  {
    var r := Pmm.Lowest(s.free);
    && |s'.mem| == |s.mem| && CopiedRoot(s.mem, cur, r, s'.mem)
    && s'.free == s.free - {r} && s'.lev == s.lev[r := 4]
  }

  lemma CreatedWf(s: State, cur: nat, s': State)
    requires Wf(s) && IsRoot(s, cur) && s.free != {} && Created(s, cur, s')
    ensures Wf(s') && IsRoot(s', Pmm.Lowest(s.free))
  {
    var r := Pmm.Lowest(s.free);
    assert LevelsOk(s');
    assert FreeIsZero(s');
    assert ChildrenOk(s');
    forall f, i: nat | f in s'.lev && s'.lev[f] > 1 && i < ENTRIES && Present(At(s'.mem, f, i))
      ensures var g := if f == r then cur else f;
              && g in s.lev && s.lev[g] == s'.lev[f] && At(s'.mem, f, i) == At(s.mem, g, i)
              && (f == r ==> i >= K_PAGE_START)
    {
    }
    assert Unshared(s');
  }

  // The new space maps what `cur` maps in the upper half and nothing below;
  // the spaces that were there translate as before.
  lemma {:induction false} CreatedWalk(s: State, cur: nat, s': State, r2: nat, q: seq<nat>)
    requires Wf(s) && IsRoot(s, cur) && s.free != {} && Created(s, cur, s')
    requires IsRoot(s', r2) && 1 <= |q| <= 4
    ensures Walk(s'.mem, r2, q) ==
            if r2 != Pmm.Lowest(s.free) then Walk(s.mem, r2, q)
            else if q[0] < K_PAGE_START then None
            else Walk(s.mem, cur, q)
    decreases |q|
  {
    var r := Pmm.Lowest(s.free);
    var g := if r2 == r then cur else r2;
    if |q| == 1 {
      assert Walk(s'.mem, r2, Init(q)) == Some(r2) && Walk(s.mem, g, Init(q)) == Some(g);
      assert q[0] < ENTRIES ==>
               At(s'.mem, r2, q[0]) == if r2 == r && q[0] < K_PAGE_START then ZERO else At(s.mem, g, q[0]);
    } else {
      CreatedWalk(s, cur, s', r2, Init(q));
      if Walk(s.mem, g, Init(q)).Some? {
        WalkLevel(s, g, Init(q));
      }
    }
  }

  lemma CreatedTranslate(s: State, cur: nat, s': State, r2: nat, q: seq<nat>)
    requires Wf(s) && IsRoot(s, cur) && s.free != {} && Created(s, cur, s')
    requires IsRoot(s', r2) && IsPath(q)
    ensures Translate(s'.mem, r2, q) ==
            if r2 != Pmm.Lowest(s.free) then Translate(s.mem, r2, q)
            else if q[0] < K_PAGE_START then None
            else Translate(s.mem, cur, q)
  {
    CreatedWalk(s, cur, s', r2, q[..3]);
    var g := if r2 == Pmm.Lowest(s.free) then cur else r2;
    if Walk(s.mem, g, q[..3]).Some? {
      WalkLevel(s, g, q[..3]);
    }
  }

  // ---------------------------------------------------------------- data

  // A store through the direct map to a frame that is in use but is no table.
  ghost predicate IsData(s: State, f: nat) {
    f < Frames(s.mem) && f !in s.free && f !in s.lev
  }

  lemma StoreWf(s: State, f: nat, i: nat, e: Entry)
    requires Wf(s) && IsData(s, f) && i < ENTRIES
    ensures Wf(SetLeaf(s, f, i, e))
  {
    var s' := SetLeaf(s, f, i, e);
    assert LevelsOk(s') && FreeIsZero(s') && ChildrenOk(s') && Unshared(s');
  }

  lemma {:induction false} StoreWalk(s: State, f: nat, i: nat, e: Entry, r: nat, q: seq<nat>)
    requires Wf(s) && IsData(s, f) && i < ENTRIES && IsRoot(s, r) && |q| <= 4
    ensures Walk(SetLeaf(s, f, i, e).mem, r, q) == Walk(s.mem, r, q)
    decreases |q|
  {
    if q != [] {
      StoreWalk(s, f, i, e, r, Init(q));
      if Walk(s.mem, r, Init(q)).Some? {
        WalkLevel(s, r, Init(q));
      }
    }
  }

  lemma StoreTranslate(s: State, f: nat, i: nat, e: Entry, r: nat, q: seq<nat>)
    requires Wf(s) && IsData(s, f) && i < ENTRIES && IsRoot(s, r) && IsPath(q)
    ensures Translate(SetLeaf(s, f, i, e).mem, r, q) == Translate(s.mem, r, q)
  {
    StoreWalk(s, f, i, e, r, q[..3]);
    if Walk(s.mem, r, q[..3]).Some? {
      WalkLevel(s, r, q[..3]);
    }
  }

  // ---------------------------------------------------------------- effects on every space

  ghost predicate MapEffect(s: State, r: nat, p: seq<nat>, e: Entry, s': State)
    requires IsPath(p)
  {
    forall r2, q {:trigger Translate(s'.mem, r2, q)} | IsRoot(s, r2) && IsPath(q) ::
      Translate(s'.mem, r2, q) ==
      if q == p && SameTop(s.mem, r, r2, p[0]) && Translate(s.mem, r, p).None? then Some(e) else Translate(s.mem, r2, q)
  }

  lemma MapRefinesAll(s: State, r: nat, p: seq<nat>, e: Entry)
    requires Wf(s) && IsRoot(s, r) && IsPath(p) && Present(e) && CanMap(s, r, p)
    ensures MapEffect(s, r, p, e, Map(s, r, p, e))
  {
    forall r2, q | IsRoot(s, r2) && IsPath(q)
      ensures Translate(Map(s, r, p, e).mem, r2, q) ==
              if q == p && SameTop(s.mem, r, r2, p[0]) && Translate(s.mem, r, p).None? then Some(e)
              else Translate(s.mem, r2, q)
    {
      MapRefines(s, r, p, e, r2, q);
    }
  }

  ghost predicate UnmapEffect(s: State, r: nat, p: seq<nat>, s': State)
    requires IsPath(p)
  {
    forall r2, q {:trigger Translate(s'.mem, r2, q)} | IsRoot(s, r2) && IsPath(q) ::
      Translate(s'.mem, r2, q) ==
      if q == p && SameTop(s.mem, r, r2, p[0]) then None else Translate(s.mem, r2, q)
  }

  lemma UnmapRefinesAll(s: State, r: nat, p: seq<nat>)
    requires Wf(s) && IsRoot(s, r) && IsPath(p)
    ensures UnmapEffect(s, r, p, Unmap(s, r, p))
  {
    forall r2, q | IsRoot(s, r2) && IsPath(q)
      ensures Translate(Unmap(s, r, p).mem, r2, q) ==
              if q == p && SameTop(s.mem, r, r2, p[0]) then None else Translate(s.mem, r2, q)
    {
      UnmapRefines(s, r, p, r2, q);
    }
  }
}
