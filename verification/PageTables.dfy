// Four-level page tables as values: what the frames of physical memory hold, the
// walk from a root, and the well-formedness every operation keeps.
module PageTables {
  import opened Options

  const ENTRIES := 512
  const K_PAGE_START := 256

  // A page-table entry without its ignored bits: `frame` is the address divided
  // by 4096 and bit 0 of `flags` is the present bit.
  datatype Entry = Entry(frame: nat, flags: nat)

  const ZERO := Entry(0, 0)

  predicate Present(e: Entry) {
    e.flags % 2 == 1
  }

  // Physical memory seen as entries, 512 to a frame.
  type Memory = seq<Entry>

  function Frames(m: Memory): nat {
    |m| / ENTRIES
  }

  function At(m: Memory, f: nat, i: nat): Entry
    requires f < Frames(m) && i < ENTRIES
  {
    m[f * ENTRIES + i]
  }

  function Put(m: Memory, f: nat, i: nat, e: Entry): (r: Memory)
    requires f < Frames(m) && i < ENTRIES
    ensures |r| == |m| && Frames(r) == Frames(m)
    ensures forall g: nat, j: nat {:trigger At(r, g, j)} | g < Frames(m) && j < ENTRIES ::
              At(r, g, j) == if g == f && j == i then e else At(m, g, j)
  {
    m[f * ENTRIES + i := e]
  }

  // One step of a walk: the frame that slot `i` of table `t` points to.
  function Step(m: Memory, t: nat, i: nat): Option<nat> {
    if t < Frames(m) && i < ENTRIES && Present(At(m, t, i)) then Some(At(m, t, i).frame) else None
  }

  function Init(q: seq<nat>): seq<nat>
    requires q != []
  {
    q[..|q| - 1]
  }

  function Last(q: seq<nat>): nat
    requires q != []
  {
    q[|q| - 1]
  }

  // The frame reached from root `r` by the indices `q`, highest level first.
  function Walk(m: Memory, r: nat, q: seq<nat>): Option<nat>
    decreases |q|
  {
    if q == [] then Some(r) else
      match Walk(m, r, Init(q))
      case None => None
      case Some(t) => Step(m, t, Last(q))
  }

  predicate IsPath(p: seq<nat>) {
    |p| == 4 && forall k | 0 <= k < 4 :: p[k] < ENTRIES
  }

  // The flat map of an address space: page (as its four indices) to leaf entry.
  function Translate(m: Memory, r: nat, p: seq<nat>): Option<Entry>
    requires IsPath(p)
  {
    match Walk(m, r, p[..3])
    case None => None
    case Some(t) => if t < Frames(m) && Present(At(m, t, p[3])) then Some(At(m, t, p[3])) else None
  }

  // The frames of memory, the frames the allocator has free, and the level of
  // every frame that serves as a table (4 for a root).
  datatype State = State(mem: Memory, free: set<nat>, lev: map<nat, nat>)

  ghost predicate IsRoot(s: State, r: nat) {
    r in s.lev && s.lev[r] == 4
  }

  ghost predicate LevelsOk(s: State) {
    && (forall f | f in s.free :: f < Frames(s.mem) && f !in s.lev)
    && (forall f | f in s.lev :: f < Frames(s.mem) && 1 <= s.lev[f] <= 4)
  }

  ghost predicate FreeIsZero(s: State)
    requires LevelsOk(s)
  {
    forall f, i: nat {:trigger At(s.mem, f, i)} | f in s.free && i < ENTRIES :: At(s.mem, f, i) == ZERO
  }

  // An entry of a table is zero or present, and below level 1 leads one level down.
  ghost predicate ChildrenOk(s: State)
    requires LevelsOk(s)
  {
    forall f, i: nat {:trigger At(s.mem, f, i)} | f in s.lev && i < ENTRIES ::
      var e := At(s.mem, f, i);
      if Present(e) then s.lev[f] > 1 ==> e.frame in s.lev && s.lev[e.frame] == s.lev[f] - 1
      else e == ZERO
  }

  // Below the roots a table has at most one parent slot; a level 3 table may be
  // shared between roots, but only through the same upper-half slot.
  ghost predicate Unshared(s: State)
    requires LevelsOk(s)
  {
    forall f, i: nat, g, j: nat {:trigger At(s.mem, f, i), At(s.mem, g, j)} |
      && f in s.lev && s.lev[f] > 1 && i < ENTRIES && Present(At(s.mem, f, i))
      && g in s.lev && s.lev[g] > 1 && j < ENTRIES && Present(At(s.mem, g, j))
      && At(s.mem, f, i).frame == At(s.mem, g, j).frame ::
      i == j && (f == g || (s.lev[f] == 4 && i >= K_PAGE_START))
  }

  ghost predicate HasParent(s: State, c: nat)
    requires LevelsOk(s)
  {
    exists f, i: nat {:trigger At(s.mem, f, i)} ::
      f in s.lev && i < ENTRIES && s.lev[f] > 1 && Present(At(s.mem, f, i)) && At(s.mem, f, i).frame == c
  }

  ghost predicate NoOrphans(s: State)
    requires LevelsOk(s)
  {
    forall c | c in s.lev && s.lev[c] < 4 :: HasParent(s, c)
  }

  ghost predicate Wf(s: State) {
    && |s.mem| % ENTRIES == 0
    && LevelsOk(s)
    && FreeIsZero(s)
    && ChildrenOk(s)
    && Unshared(s)
  }

  // ---------------------------------------------------------------- walks

  // A walk of up to three steps ends in a table of the matching level.
  lemma {:induction false} WalkLevel(s: State, r: nat, q: seq<nat>)
    requires Wf(s) && IsRoot(s, r) && |q| <= 3 && Walk(s.mem, r, q).Some?
    ensures var t := Walk(s.mem, r, q).value; t in s.lev && s.lev[t] == 4 - |q|
    decreases |q|
  {
    if q != [] {
      WalkLevel(s, r, Init(q));
    }
  }

  // `r` and `r'` use one and the same table below slot `i`.
  ghost predicate SameTop(m: Memory, r: nat, r': nat, i: nat) {
    r == r' || (Step(m, r, i).Some? && Step(m, r, i) == Step(m, r', i))
  }

  // Two walks that meet in a table took the same indices, from the same root or
  // through the shared upper half.
  lemma {:induction false} UniquePath(s: State, r: nat, u: seq<nat>, r': nat, v: seq<nat>)
    requires Wf(s) && IsRoot(s, r) && IsRoot(s, r') && |u| == |v| <= 3
    requires Walk(s.mem, r, u).Some? && Walk(s.mem, r, u) == Walk(s.mem, r', v)
    ensures u == v
    ensures r == r' || (u != [] && u[0] >= K_PAGE_START && SameTop(s.mem, r, r', u[0]))
    decreases |u|
  {
    if u != [] {
      WalkLevel(s, r, Init(u));
      WalkLevel(s, r', Init(v));
      var t, t' := Walk(s.mem, r, Init(u)).value, Walk(s.mem, r', Init(v)).value;
      assert At(s.mem, t, Last(u)).frame == At(s.mem, t', Last(v)).frame;
      assert Last(u) == Last(v);
      if |u| == 1 {
        assert Walk(s.mem, r, Init(u)) == Some(r) && Walk(s.mem, r', Init(v)) == Some(r');
        assert u == [Last(u)] && v == [Last(v)];
      } else {
        assert t == t';
        UniquePath(s, r, Init(u), r', Init(v));
        assert u == Init(u) + [Last(u)] && v == Init(v) + [Last(v)];
      }
    }
  }

  // Roots with the same first step agree on everything below it.
  lemma {:induction false} SameTopSameWalk(m: Memory, r: nat, r': nat, q: seq<nat>)
    requires q != [] && Step(m, r, q[0]) == Step(m, r', q[0])
    ensures Walk(m, r, q) == Walk(m, r', q)
    decreases |q|
  {
    if |q| == 1 {
      assert Walk(m, r, Init(q)) == Some(r) && Walk(m, r', Init(q)) == Some(r');
    } else {
      SameTopSameWalk(m, r, r', Init(q));
    }
  }

  // A walk can be split after its first step.
  lemma {:induction false} WalkCons(m: Memory, r: nat, i: nat, q: seq<nat>)
    ensures Walk(m, r, [i] + q) == match Step(m, r, i) case None => None case Some(t) => Walk(m, t, q)
    decreases |q|
  {
    if q == [] {
      assert Init([i] + q) == [] && Last([i] + q) == i;
      assert Walk(m, r, []) == Some(r);
    } else {
      assert Init([i] + q) == [i] + Init(q) && Last([i] + q) == Last(q);
      WalkCons(m, r, i, Init(q));
    }
  }

  // The write of one slot: a leaf entry, or a fresh empty table under an absent slot.
  ghost predicate Writable(s: State, t: nat, i: nat, e: Entry)
    requires Wf(s)
  {
    && t in s.lev && i < ENTRIES
    && (s.lev[t] > 1 ==> !Present(At(s.mem, t, i)) && Present(e) && e.frame in s.free)
  }

  // It changes exactly the walks that end in that slot.
  lemma {:induction false} PutWalk(s: State, t: nat, i: nat, e: Entry, r: nat, q: seq<nat>)
    requires Wf(s) && Writable(s, t, i, e) && IsRoot(s, r) && |q| <= 4
    ensures Walk(Put(s.mem, t, i, e), r, q) ==
            if q != [] && Walk(s.mem, r, Init(q)) == Some(t) && Last(q) == i
            then if Present(e) then Some(e.frame) else None
            else Walk(s.mem, r, q)
    decreases |q|
  {
    var m' := Put(s.mem, t, i, e);
    if q != [] {
      var u := Init(q);
      PutWalk(s, t, i, e, r, u);
      if Walk(s.mem, r, u).Some? {
        WalkLevel(s, r, u);
      }
      if u != [] && Walk(s.mem, r, Init(u)) == Some(t) && Last(u) == i {
        WalkLevel(s, r, Init(u));
        assert Walk(s.mem, r, u).None?;
        assert Last(q) < ENTRIES ==> At(m', e.frame, Last(q)) == At(s.mem, e.frame, Last(q));
      }
    }
  }
}
