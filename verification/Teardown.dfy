// Tearing a space down: the frames the four nested loops free are exactly the
// frames the space was given, each freed once.
module Teardown {
  import Mapping
  import opened Options
  import opened PageTables
  import Pmm
  import opened Spaces

  // ---------------------------------------------------------------- what the loops free

  // The frames freed for slot `i` of the level `k` table `t`: everything below the
  // slot, then the frame it points to.
  function FreedSlot(m: Memory, t: nat, k: nat, i: nat): seq<nat>
    requires k >= 1
    decreases k, i, |m|
  {
    match Step(m, t, i)
    case None => []
    case Some(c) => (if k == 1 then [] else FreedBelow(m, c, k - 1, ENTRIES)) + [c]
  }

  // The frames freed by scanning the first `n` slots, in the order of the loops.
  function FreedBelow(m: Memory, t: nat, k: nat, n: nat): seq<nat>
    requires k >= 1
    decreases k, n, |m|
  {
    if n == 0 then [] else FreedBelow(m, t, k, n - 1) + FreedSlot(m, t, k, n - 1)
  }

  function FreedBy(m: Memory, r: nat): seq<nat> {
    FreedBelow(m, r, 4, K_PAGE_START) + [r]
  }

  ghost function Frees(log: seq<nat>): set<nat> {
    set f | f in log
  }

  ghost predicate NoDup(l: seq<nat>) {
    forall i, j | 0 <= i < j < |l| :: l[i] != l[j]
  }

  // Paths of the scan: at most `k` indices, the first below `n`.
  ghost predicate Scanned(q: seq<nat>, k: nat, n: nat) {
    1 <= |q| <= k && q[0] < n && q[0] < ENTRIES
  }

  // `Walk` under a name of its own, so that unfolding a walk instantiates nothing below.
  function Reach(m: Memory, t: nat, q: seq<nat>): Option<nat> {
    Walk(m, t, q)
  }

  lemma ReachCons(m: Memory, t: nat, i: nat, u: seq<nat>)
    ensures Reach(m, t, [i] + u) == match Step(m, t, i) case None => None case Some(c) => Reach(m, c, u)
  {
    WalkCons(m, t, i, u);
  }

  lemma ReachOne(m: Memory, t: nat, i: nat)
    ensures Reach(m, t, [i]) == Step(m, t, i)
  {
    ReachCons(m, t, i, []);
    assert [i] + [] == [i];
    assert Reach(m, t, []) == Some(t);
  }

  // Every frame the scan frees lies at the end of a scanned path ...
  lemma {:induction false} SlotHasPath(m: Memory, t: nat, k: nat, i: nat, f: nat) returns (q: seq<nat>)
    requires 1 <= k && i < ENTRIES && f in FreedSlot(m, t, k, i)
    ensures Scanned(q, k, i + 1) && q[0] == i && Reach(m, t, q) == Some(f)
    decreases k, i
  {
    var c := Step(m, t, i).value;
    if f == c {
      q := [i];
      ReachOne(m, t, i);
    } else {
      var u := FreedHasPath(m, c, k - 1, ENTRIES, f);
      q := [i] + u;
      ReachCons(m, t, i, u);
    }
  }

  lemma {:induction false} FreedHasPath(m: Memory, t: nat, k: nat, n: nat, f: nat) returns (q: seq<nat>)
    requires 1 <= k && n <= ENTRIES && f in FreedBelow(m, t, k, n)
    ensures Scanned(q, k, n) && Reach(m, t, q) == Some(f)
    decreases k, n
  {
    if f in FreedBelow(m, t, k, n - 1) {
      q := FreedHasPath(m, t, k, n - 1, f);
    } else {
      q := SlotHasPath(m, t, k, n - 1, f);
    }
  }

  // ... and every frame at the end of a scanned path is freed.
  lemma {:induction false} PathIsFreed(m: Memory, t: nat, k: nat, n: nat, q: seq<nat>)
    requires 1 <= k && n <= ENTRIES && Scanned(q, k, n) && Reach(m, t, q).Some?
    ensures Reach(m, t, q).value in FreedBelow(m, t, k, n)
    decreases k, n
  {
    if q[0] < n - 1 {
      PathIsFreed(m, t, k, n - 1, q);
    } else {
      var u := q[1..];
      assert q == [n - 1] + u;
      ReachCons(m, t, n - 1, u);
      var c := Step(m, t, n - 1).value;
      if u == [] {
        assert Reach(m, c, u) == Some(c);
      } else {
        FirstStepExists(m, c, u);
        PathIsFreed(m, c, k - 1, ENTRIES, u);
      }
    }
  }

  lemma FirstStepExists(m: Memory, t: nat, q: seq<nat>)
    requires q != [] && Reach(m, t, q).Some?
    ensures q[0] < ENTRIES && Step(m, t, q[0]).Some?
  {
    assert q == [q[0]] + q[1..];
    ReachCons(m, t, q[0], q[1..]);
  }

  ghost predicate WalkInjective(m: Memory, t: nat, k: nat, n: nat) {
    forall q: seq<nat>, q': seq<nat> {:trigger Reach(m, t, q), Reach(m, t, q')} |
      Scanned(q, k, n) && Scanned(q', k, n) && Reach(m, t, q).Some? && Reach(m, t, q) == Reach(m, t, q') :: q == q'
  }

  lemma InjectiveBelow(m: Memory, t: nat, k: nat, i: nat, c: nat)
    requires k > 1 && i < ENTRIES && Step(m, t, i) == Some(c) && WalkInjective(m, t, k, i + 1)
    ensures WalkInjective(m, c, k - 1, ENTRIES)
  {
    forall q: seq<nat>, q': seq<nat> |
      && Scanned(q, k - 1, ENTRIES) && Scanned(q', k - 1, ENTRIES)
      && Reach(m, c, q).Some? && Reach(m, c, q) == Reach(m, c, q')
      ensures q == q'
    {
      ReachCons(m, t, i, q);
      ReachCons(m, t, i, q');
      assert Reach(m, t, [i] + q) == Reach(m, t, [i] + q');
      assert q == ([i] + q)[1..] && q' == ([i] + q')[1..];
    }
  }

  // No frame is freed twice when no two scanned paths end in the same frame.
  lemma {:induction false} FreedOnce(m: Memory, t: nat, k: nat, n: nat)
    requires 1 <= k && n <= ENTRIES && WalkInjective(m, t, k, n)
    ensures NoDup(FreedBelow(m, t, k, n))
    decreases k, n
  {
    if n > 0 {
      FreedOnce(m, t, k, n - 1);
      SlotFreedOnce(m, t, k, n - 1);
      var left := FreedBelow(m, t, k, n - 1);
      forall f | f in left
        ensures f !in FreedSlot(m, t, k, n - 1)
      {
        if f in FreedSlot(m, t, k, n - 1) {
          var q := FreedHasPath(m, t, k, n - 1, f);
          var u := SlotHasPath(m, t, k, n - 1, f);
          assert false;
        }
      }
      NoDupConcat(left, FreedSlot(m, t, k, n - 1));
    }
  }

  lemma NoDupConcat(a: seq<nat>, b: seq<nat>)
    requires NoDup(a) && NoDup(b) && forall f | f in a :: f !in b
    ensures NoDup(a + b)
  {
    var l := a + b;
    forall i, j | 0 <= i < j < |l|
      ensures l[i] != l[j]
    {
      if i < |a| <= j {
        assert l[i] in a && l[j] in b;
      }
    }
  }

  lemma {:induction false} SlotFreedOnce(m: Memory, t: nat, k: nat, i: nat)
    requires 1 <= k && i < ENTRIES && WalkInjective(m, t, k, i + 1)
    ensures NoDup(FreedSlot(m, t, k, i))
    decreases k, i
  {
    if Step(m, t, i).Some? && k > 1 {
      var c := Step(m, t, i).value;
      InjectiveBelow(m, t, k, i, c);
      FreedOnce(m, c, k - 1, ENTRIES);
      if c in FreedBelow(m, c, k - 1, ENTRIES) {
        var u := FreedHasPath(m, c, k - 1, ENTRIES, c);
        ReachCons(m, t, i, u);
        ReachOne(m, t, i);
        assert false;
      }
    }
  }

  // ---------------------------------------------------------------- a private lower half

  // Paths of the lower half.
  ghost predicate Low(q: seq<nat>) {
    Scanned(q, 4, K_PAGE_START)
  }

  // `mine` is the root `r` and every frame its lower half leads to; no frame is led
  // to twice, and the pages among them serve as no table.
  ghost predicate Private(s: State, r: nat, mine: set<nat>) {
    && IsRoot(s, r) && r in mine && mine !! s.free
    && (forall f | f in mine :: f < Frames(s.mem))
    && (forall q: seq<nat> {:trigger Reach(s.mem, r, q)} | Low(q) && Reach(s.mem, r, q).Some? ::
          Reach(s.mem, r, q).value in mine - {r} && (|q| == 4 ==> Reach(s.mem, r, q).value !in s.lev))
    && WalkInjective(s.mem, r, 4, K_PAGE_START)
    && (forall f | f in mine && f != r :: LeadsTo(s.mem, r, f))
  }

  ghost predicate LeadsTo(m: Memory, r: nat, f: nat) {
    exists q: seq<nat> {:trigger Reach(m, r, q)} :: Low(q) && Reach(m, r, q) == Some(f)
  }

  // Destroying a private space frees its frames, each exactly once.
  lemma DestroyFreesMine(s: State, r: nat, mine: set<nat>)
    requires Wf(s) && Private(s, r, mine)
    ensures NoDup(FreedBy(s.mem, r))
    ensures Frees(FreedBy(s.mem, r)) == mine
  {
    var below := FreedBelow(s.mem, r, 4, K_PAGE_START);
    FreedOnce(s.mem, r, 4, K_PAGE_START);
    forall f | f in below
      ensures f in mine && f != r
    {
      var q := FreedHasPath(s.mem, r, 4, K_PAGE_START, f);
      assert Low(q);
    }
    forall f | f in mine && f != r
      ensures f in below
    {
      assert LeadsTo(s.mem, r, f);
      var q: seq<nat> :| Low(q) && Reach(s.mem, r, q) == Some(f);
      PathIsFreed(s.mem, r, 4, K_PAGE_START, q);
    }
  }

  // No other space, and no upper half, walks through a frame of `mine`.
  lemma MineIsNobodysTable(s: State, r: nat, mine: set<nat>, r2: nat, q: seq<nat>)
    requires Wf(s) && Private(s, r, mine) && IsRoot(s, r2) && |q| <= 3 && Walk(s.mem, r2, q).Some?
    requires if r2 == r then q != [] && q[0] >= K_PAGE_START else true
    ensures Walk(s.mem, r2, q).value !in mine
  {
    var f := Walk(s.mem, r2, q).value;
    WalkLevel(s, r2, q);
    if f == r {
      UniquePath(s, r, [], r2, q);
    } else if f in mine {
      assert LeadsTo(s.mem, r, f);
      var u: seq<nat> :| Low(u) && Reach(s.mem, r, u) == Some(f);
      if |u| <= 3 {
        WalkLevel(s, r, u);
        UniquePath(s, r, u, r2, q);
      }
    }
  }

  // What the loops read and free is in range: tables are frames of memory and every
  // frame freed has a bit below `bound`.
  ghost predicate Scannable(m: Memory, t: nat, k: nat, n: nat, bound: nat)
    requires k >= 1
    decreases k, |m|
  {
    && t < Frames(m)
    && forall i: nat {:trigger Step(m, t, i)} | i < n && Step(m, t, i).Some? ::
         Step(m, t, i).value < bound && (k > 1 ==> Scannable(m, Step(m, t, i).value, k - 1, ENTRIES, bound))
  }

  lemma {:induction false} PrivateScannable(s: State, r: nat, mine: set<nat>, u: seq<nat>, t: nat, n: nat, bound: nat)
    requires Wf(s) && Private(s, r, mine) && Frames(s.mem) <= bound && |u| <= 3 && Reach(s.mem, r, u) == Some(t)
    requires n <= ENTRIES
    requires if u == [] then n <= K_PAGE_START else u[0] < K_PAGE_START
    ensures Scannable(s.mem, t, 4 - |u|, n, bound)
    decreases 4 - |u|
  {
    WalkLevel(s, r, u);
    forall i: nat | i < n && Step(s.mem, t, i).Some?
      ensures var c := Step(s.mem, t, i).value;
              c < bound && (|u| < 3 ==> Scannable(s.mem, c, 3 - |u|, ENTRIES, bound))
    {
      var q := u + [i];
      assert Init(q) == u && Last(q) == i;
      assert Low(q) && Reach(s.mem, r, q) == Step(s.mem, t, i);
      if |u| < 3 {
        PrivateScannable(s, r, mine, q, Step(s.mem, t, i).value, ENTRIES, bound);
      }
    }
  }

  // A private space can be torn down: the loops stay inside memory and bitmap.
  lemma DestroyIsSafe(s: State, r: nat, mine: set<nat>, bound: nat)
    requires Wf(s) && Private(s, r, mine) && Frames(s.mem) <= bound
    ensures Scannable(s.mem, r, 4, K_PAGE_START, bound) && r < bound
  {
    assert Reach(s.mem, r, []) == Some(r);
    PrivateScannable(s, r, mine, [], r, K_PAGE_START, bound);
  }

  // ---------------------------------------------------------------- how a space stays private

  // A state in which every lower-half walk from `r` is as in `s` keeps `r` private.
  lemma SameLowWalks(s: State, s': State, r: nat, mine: set<nat>)
    requires Private(s, r, mine) && IsRoot(s', r) && s'.free <= s.free && |s'.mem| == |s.mem|
    requires forall q: seq<nat> {:trigger Reach(s'.mem, r, q)} | Low(q) :: Reach(s'.mem, r, q) == Reach(s.mem, r, q)
    requires forall f | f in s'.lev && f !in s.lev :: f in s.free
    ensures Private(s', r, mine)
  {
    forall f | f in mine && f != r
      ensures LeadsTo(s'.mem, r, f)
    {
      assert LeadsTo(s.mem, r, f);
      var q: seq<nat> :| Low(q) && Reach(s.mem, r, q) == Some(f);
      assert Reach(s'.mem, r, q) == Some(f);
    }
  }

  // One new end `f` of a lower-half walk `q0` makes `f` part of the space.
  lemma OneNewWalk(s: State, s': State, r: nat, mine: set<nat>, q0: seq<nat>, f: nat)
    requires Private(s, r, mine) && IsRoot(s', r) && s'.free <= s.free - {f} && |s'.mem| == |s.mem| && f < Frames(s.mem)
    requires Low(q0) && Reach(s.mem, r, q0).None? && Reach(s'.mem, r, q0) == Some(f) && f !in mine
    requires |q0| == 4 ==> f !in s'.lev
    requires forall q: seq<nat> {:trigger Reach(s'.mem, r, q)} | Low(q) && q != q0 ::
               Reach(s'.mem, r, q) == Reach(s.mem, r, q)
    requires forall g | g in s'.lev && g !in s.lev :: g in s.free
    ensures Private(s', r, mine + {f})
  {
    forall g | g in mine + {f} && g != r
      ensures LeadsTo(s'.mem, r, g)
    {
      if g != f {
        assert LeadsTo(s.mem, r, g);
        var q: seq<nat> :| Low(q) && Reach(s.mem, r, q) == Some(g);
        assert Reach(s'.mem, r, q) == Some(g);
      }
    }
  }

  // The slot that continues a walk of root `r2` lies on a lower-half walk of `r`
  // only if it is the same walk.
  lemma SlotOnLowWalk(s: State, r: nat, r2: nat, p: seq<nat>, d: nat, q: seq<nat>)
    requires Wf(s) && IsRoot(s, r) && IsRoot(s, r2) && IsPath(p) && d < 4 && Low(q)
    requires Walk(s.mem, r2, p[..d]).Some? && Walk(s.mem, r, Init(q)) == Walk(s.mem, r2, p[..d]) && Last(q) == p[d]
    ensures r == r2 && q == p[..d + 1]
  {
    WalkLevel(s, r2, p[..d]);
    WalkLevel(s, r, Init(q));
    UniquePath(s, r, Init(q), r2, p[..d]);
    assert q == Init(q) + [Last(q)] && p[..d + 1] == p[..d] + [p[d]];
  }

  lemma PrivateLink(s: State, r: nat, mine: set<nat>, r2: nat, p: seq<nat>, d: nat, flags: nat)
    requires Wf(s) && Private(s, r, mine) && IsRoot(s, r2) && IsPath(p) && d < 3
    requires Walk(s.mem, r2, p[..d]).Some?
    requires Mapping.Linkable(s, Walk(s.mem, r2, p[..d]).value, p[d], flags)
    ensures var s' := Mapping.Link(s, Walk(s.mem, r2, p[..d]).value, p[d], flags);
            Private(s', r, if r2 == r && p[0] < K_PAGE_START then mine + {Pmm.Lowest(s.free)} else mine)
  {
    var t := Walk(s.mem, r2, p[..d]).value;
    var s' := Mapping.Link(s, t, p[d], flags);
    var c := Pmm.Lowest(s.free);
    Mapping.LinkWalks(s, t, p[d], flags);
    Mapping.LinkWf(s, t, p[d], flags);
    var q0 := p[..d + 1];
    assert Init(q0) == p[..d] && Last(q0) == p[d];
    forall q: seq<nat> | Low(q) && !(r == r2 && q == q0)
      ensures Reach(s'.mem, r, q) == Reach(s.mem, r, q)
    {
      if Walk(s.mem, r, Init(q)) == Some(t) && Last(q) == p[d] {
        SlotOnLowWalk(s, r, r2, p, d, q);
      }
    }
    if r2 == r && p[0] < K_PAGE_START {
      assert Low(q0) && Reach(s'.mem, r, q0) == Some(c);
      OneNewWalk(s, s', r, mine, q0, c);
    } else {
      assert r2 == r ==> !Low(q0);
      SameLowWalks(s, s', r, mine);
    }
  }

  // The frames the space owns once a call on path `p` of root `r2` has run.
  ghost function Grown(s: State, s': State, r: nat, mine: set<nat>, r2: nat, p: seq<nat>): set<nat>
    requires IsPath(p)
  {
    if r2 == r && p[0] < K_PAGE_START then mine + (s.free - s'.free) else mine
  }

  lemma PrivateFillStep(s: State, r: nat, mine: set<nat>, r2: nat, p: seq<nat>, d: nat, flags: nat, s0: State)
    requires IsPath(p) && d < 3 && flags % 2 == 1 && s0.free <= s.free
    requires Wf(s0) && IsRoot(s0, r2) && Walk(s0.mem, r2, p[..d]).Some?
    requires var t := Walk(s0.mem, r2, p[..d]).value;
             t in s0.lev && s0.lev[t] > 1 && (!Present(At(s0.mem, t, p[d])) ==> s0.free != {})
    requires Private(s0, r, Grown(s, s0, r, mine, r2, p))
    ensures var s1 := Mapping.Ensure(s0, Walk(s0.mem, r2, p[..d]).value, p[d], flags);
            Private(s1, r, Grown(s, s1, r, mine, r2, p))
  {
    var t := Walk(s0.mem, r2, p[..d]).value;
    if !Present(At(s0.mem, t, p[d])) {
      PrivateLink(s0, r, Grown(s, s0, r, mine, r2, p), r2, p, d, flags);
      var s1 := Mapping.Link(s0, t, p[d], flags);
      assert mine + (s.free - s1.free) == mine + (s.free - s0.free) + {Pmm.Lowest(s0.free)};
    }
  }

  lemma {:induction false} PrivateFill(s: State, r: nat, mine: set<nat>, r2: nat, p: seq<nat>, d: nat, flags: nat)
    requires Wf(s) && Private(s, r, mine) && IsRoot(s, r2) && IsPath(p) && d <= 3 && flags % 2 == 1
    requires Mapping.Missing(s.mem, r2, p, d) <= |s.free|
    ensures var s' := Mapping.Fill(s, r2, p, d, flags); Private(s', r, Grown(s, s', r, mine, r2, p))
    decreases d
  {
    if d == 0 {
      assert Grown(s, s, r, mine, r2, p) == mine;
    } else {
      PrivateFill(s, r, mine, r2, p, d - 1, flags);
      var s0 := Mapping.Fill(s, r2, p, d - 1, flags);
      Mapping.FillStep(s, r2, p, d, flags, s0);
      PrivateFillStep(s, r, mine, r2, p, d - 1, flags, s0);
    }
  }

  // A leaf write on a path of another space or of the upper half.
  lemma PrivateOtherLeaf(s: State, r: nat, mine: set<nat>, r2: nat, p: seq<nat>, e: Entry)
    requires Wf(s) && Private(s, r, mine) && IsRoot(s, r2) && IsPath(p) && !(r2 == r && p[0] < K_PAGE_START)
    requires Walk(s.mem, r2, p[..3]).Some?
    ensures Walk(s.mem, r2, p[..3]).value < Frames(s.mem)
    ensures Private(Mapping.SetLeaf(s, Walk(s.mem, r2, p[..3]).value, p[3], e), r, mine)
  {
    WalkLevel(s, r2, p[..3]);
    var t := Walk(s.mem, r2, p[..3]).value;
    var s' := Mapping.SetLeaf(s, t, p[3], e);
    forall q: seq<nat> | Low(q)
      ensures Reach(s'.mem, r, q) == Reach(s.mem, r, q)
    {
      PutWalk(s, t, p[3], e, r, q);
      if Walk(s.mem, r, Init(q)) == Some(t) && Last(q) == p[3] {
        SlotOnLowWalk(s, r, r2, p, 3, q);
      }
    }
    SameLowWalks(s, s', r, mine);
  }

  // The leaf write that gives the space a page it did not have, on a fresh frame.
  lemma PrivateNewLeaf(s: State, r: nat, mine: set<nat>, p: seq<nat>, e: Entry)
    requires Wf(s) && Private(s, r, mine) && IsPath(p) && p[0] < K_PAGE_START && Present(e)
    requires Walk(s.mem, r, p[..3]).Some? && Translate(s.mem, r, p).None?
    requires e.frame !in s.free && e.frame !in s.lev && e.frame !in mine && e.frame < Frames(s.mem)
    ensures Walk(s.mem, r, p[..3]).value < Frames(s.mem)
    ensures Private(Mapping.SetLeaf(s, Walk(s.mem, r, p[..3]).value, p[3], e), r, mine + {e.frame})
  {
    WalkLevel(s, r, p[..3]);
    var t := Walk(s.mem, r, p[..3]).value;
    var s' := Mapping.SetLeaf(s, t, p[3], e);
    assert Init(p) == p[..3] && Last(p) == p[3] && p[..4] == p;
    PutWalk(s, t, p[3], e, r, p);
    assert Low(p) && Reach(s.mem, r, p).None? && Reach(s'.mem, r, p) == Some(e.frame);
    forall q: seq<nat> | Low(q) && q != p
      ensures Reach(s'.mem, r, q) == Reach(s.mem, r, q)
    {
      PutWalk(s, t, p[3], e, r, q);
      if Walk(s.mem, r, Init(q)) == Some(t) && Last(q) == p[3] {
        SlotOnLowWalk(s, r, r, p, 3, q);
      }
    }
    OneNewWalk(s, s', r, mine, p, e.frame);
  }

  // ---------------------------------------------------------------- whole runs

  ghost predicate LowOf(r2: nat, p: seq<nat>, r: nat)
    requires IsPath(p)
  {
    r2 == r && p[0] < K_PAGE_START
  }

  // Events that touch the lower half of `r` only by building pages it has not got.
  ghost predicate Respects(s: State, ev: Event, r: nat)
    requires EventOk(s, ev)
  {
    match ev
    case MapPage(r2, p, _) => !LowOf(r2, p, r)
    case Build(r2, p, _) => LowOf(r2, p, r) ==> Translate(s.mem, r, p).None?
    case UnmapPage(r2, p) => !LowOf(r2, p, r)
    case _ => true
  }

  ghost function MineAfter(s: State, ev: Event, r: nat, mine: set<nat>): set<nat>
    requires Wf(s) && EventOk(s, ev)
  {
    match ev
    case Build(r2, p, _) => if LowOf(r2, p, r) then mine + (s.free - Apply(s, ev).free) else mine
    case _ => mine
  }

  lemma PrivateOtherMap(s: State, r: nat, mine: set<nat>, r2: nat, p: seq<nat>, e: Entry)
    requires Wf(s) && Private(s, r, mine) && IsRoot(s, r2) && IsPath(p) && !LowOf(r2, p, r)
    requires Present(e) && Mapping.CanMap(s, r2, p)
    ensures Private(Mapping.Map(s, r2, p, e), r, mine)
  {
    PrivateFill(s, r, mine, r2, p, 3, e.flags);
    var s3 := Mapping.Fill(s, r2, p, 3, e.flags);
    PrivateOtherLeaf(s3, r, mine, r2, p, e);
  }

  lemma PrivateTake(s: State, r: nat, mine: set<nat>)
    requires Wf(s) && Private(s, r, mine) && s.free != {}
    ensures Wf(TakeFrame(s)) && Private(TakeFrame(s), r, mine)
  {
    SameLowWalks(s, TakeFrame(s), r, mine);
  }

  lemma PrivateNewMap(s: State, r: nat, mine: set<nat>, p: seq<nat>, e: Entry)
    requires Wf(s) && Private(s, r, mine) && IsPath(p) && p[0] < K_PAGE_START && Present(e) && Mapping.CanMap(s, r, p)
    requires Translate(s.mem, r, p).None? && Mapping.IsData(s, e.frame) && e.frame !in mine
    ensures var s' := Mapping.Map(s, r, p, e); Private(s', r, mine + (s.free - s'.free) + {e.frame})
  {
    PrivateFill(s, r, mine, r, p, 3, e.flags);
    var s3 := Mapping.Fill(s, r, p, 3, e.flags);
    Mapping.FillTranslate(s, r, p, 3, e.flags, r, p);
    FillLevels(s, r, p, 3, e.flags);
    PrivateNewLeaf(s3, r, mine + (s.free - s3.free), p, e);
  }

  lemma TakenAndLinked(mine: set<nat>, free: set<nat>, f: nat, free': set<nat>)
    requires f in free && free' <= free - {f}
    ensures mine + (free - free') == mine + (free - {f} - free') + {f}
  {
  }

  lemma PrivateBuild(s: State, r: nat, mine: set<nat>, p: seq<nat>, flags: nat)
    requires Wf(s) && Private(s, r, mine) && EventOk(s, Build(r, p, flags)) && p[0] < K_PAGE_START
    requires Translate(s.mem, r, p).None?
    ensures var s' := Apply(s, Build(r, p, flags)); Private(s', r, mine + (s.free - s'.free))
  {
    var f := Pmm.Lowest(s.free);
    var s0 := TakeFrame(s);
    PrivateTake(s, r, mine);
    PrivateNewMap(s0, r, mine, p, Entry(f, flags));
    var s' := Mapping.Map(s0, r, p, Entry(f, flags));
    Mapping.MapWf(s0, r, p, Entry(f, flags));
    TakenAndLinked(mine, s.free, f, s'.free);
  }

  // Frames become tables only by leaving the free set.
  lemma {:induction false} FillLevels(s: State, r: nat, p: seq<nat>, d: nat, flags: nat)
    requires Wf(s) && IsRoot(s, r) && IsPath(p) && d <= 3 && flags % 2 == 1
    requires Mapping.Missing(s.mem, r, p, d) <= |s.free|
    ensures forall f | f in Mapping.Fill(s, r, p, d, flags).lev && f !in s.lev :: f in s.free
    decreases d
  {
    if d > 0 {
      FillLevels(s, r, p, d - 1, flags);
      Mapping.FillStep(s, r, p, d, flags, Mapping.Fill(s, r, p, d - 1, flags));
    }
  }

  lemma PrivateEvent(s: State, r: nat, mine: set<nat>, ev: Event)
    requires Wf(s) && Private(s, r, mine) && EventOk(s, ev) && Respects(s, ev, r)
    ensures Private(Apply(s, ev), r, MineAfter(s, ev, r, mine))
  {
    match ev {
      case Alloc => PrivateTake(s, r, mine);
      case MapPage(r2, p, e) => PrivateOtherMap(s, r, mine, r2, p, e);
      case Build(r2, p, flags) =>
        if LowOf(r2, p, r) {
          PrivateBuild(s, r, mine, p, flags);
        } else {
          PrivateTake(s, r, mine);
          PrivateOtherMap(TakeFrame(s), r, mine, r2, p, Entry(Pmm.Lowest(s.free), flags));
        }
      case UnmapPage(r2, p) =>
        if Walk(s.mem, r2, p[..3]).Some? {
          PrivateOtherLeaf(s, r, mine, r2, p, ZERO);
        }
      case Create(cur) =>
        var s' := NewSpace(s, cur);
        forall q: seq<nat> | Low(q)
          ensures Reach(s'.mem, r, q) == Reach(s.mem, r, q)
        {
          Mapping.CreatedWalk(s, cur, s', r, q);
        }
        SameLowWalks(s, s', r, mine);
      case Store(f, i, e) =>
        var s' := Mapping.SetLeaf(s, f, i, e);
        forall q: seq<nat> | Low(q)
          ensures Reach(s'.mem, r, q) == Reach(s.mem, r, q)
        {
          Mapping.StoreWalk(s, f, i, e, r, q);
        }
        SameLowWalks(s, s', r, mine);
    }
  }

  lemma PrivateAtBirth(s: State, cur: nat)
    requires Wf(s) && IsRoot(s, cur) && s.free != {}
    ensures Wf(NewSpace(s, cur)) && Private(NewSpace(s, cur), Pmm.Lowest(s.free), {Pmm.Lowest(s.free)})
  {
    var s' := NewSpace(s, cur);
    var r := Pmm.Lowest(s.free);
    Mapping.CreatedWf(s, cur, s');
    forall q: seq<nat> | Low(q)
      ensures Reach(s'.mem, r, q).None?
    {
      Mapping.CreatedWalk(s, cur, s', r, q);
    }
  }

  ghost predicate RunRespects(s: State, evs: seq<Event>, r: nat)
    requires Wf(s) && RunOk(s, evs)
    decreases |evs|
  {
    evs == [] || (Respects(s, evs[0], r) && (ApplyWf(s, evs[0]); RunRespects(Apply(s, evs[0]), evs[1..], r)))
  }

  // Everything the space takes over a run: itself, its pages and its tables.
  ghost function RunMine(s: State, evs: seq<Event>, r: nat, mine: set<nat>): set<nat>
    requires Wf(s) && RunOk(s, evs)
    decreases |evs|
  {
    if evs == [] then mine else
      ApplyWf(s, evs[0]);
      RunMine(Apply(s, evs[0]), evs[1..], r, MineAfter(s, evs[0], r, mine))
  }

  lemma {:induction false} RunPrivate(s: State, evs: seq<Event>, r: nat, mine: set<nat>)
    requires Wf(s) && RunOk(s, evs) && RunRespects(s, evs, r) && Private(s, r, mine)
    ensures Wf(Run(s, evs)) && Private(Run(s, evs), r, RunMine(s, evs, r, mine))
    decreases |evs|
  {
    if evs != [] {
      ApplyWf(s, evs[0]);
      PrivateEvent(s, r, mine, evs[0]);
      RunPrivate(Apply(s, evs[0]), evs[1..], r, MineAfter(s, evs[0], r, mine));
    }
  }

  // Create a space, let anything happen that builds its lower half or works on other
  // spaces, destroy it: each frame it took is freed exactly once, and nothing else.
  lemma DestroyAfterRun(s0: State, cur: nat, evs: seq<Event>)
    requires Wf(s0) && IsRoot(s0, cur) && s0.free != {} && Wf(NewSpace(s0, cur))
    requires RunOk(NewSpace(s0, cur), evs) && RunRespects(NewSpace(s0, cur), evs, Pmm.Lowest(s0.free))
    ensures var r := Pmm.Lowest(s0.free);
            var s := Run(NewSpace(s0, cur), evs);
            var mine := RunMine(NewSpace(s0, cur), evs, r, {r});
            && NoDup(FreedBy(s.mem, r))
            && Frees(FreedBy(s.mem, r)) == mine
            && mine !! s.free
  {
    var r := Pmm.Lowest(s0.free);
    PrivateAtBirth(s0, cur);
    RunPrivate(NewSpace(s0, cur), evs, r, {r});
    var s := Run(NewSpace(s0, cur), evs);
    DestroyFreesMine(s, r, RunMine(NewSpace(s0, cur), evs, r, {r}));
  }

  ghost predicate OnlyBuilds(evs: seq<Event>, r: nat) {
    forall i | 0 <= i < |evs| ::
      evs[i].Build? && evs[i].root == r && IsPath(evs[i].path) && evs[i].path[0] < K_PAGE_START
  }

  lemma {:induction false} BuildsConserve(s: State, evs: seq<Event>, r: nat, mine: set<nat>)
    requires Wf(s) && RunOk(s, evs) && OnlyBuilds(evs, r) && mine !! s.free
    ensures Run(s, evs).free <= s.free && RunMine(s, evs, r, mine) == mine + (s.free - Run(s, evs).free)
    decreases |evs|
  {
    if evs != [] {
      ApplyWf(s, evs[0]);
      var s' := Apply(s, evs[0]);
      var Build(r2, p, flags) := evs[0];
      TakeFrameWf(s);
      Mapping.MapWf(TakeFrame(s), r, p, Entry(Pmm.Lowest(s.free), flags));
      BuildsConserve(s', evs[1..], r, MineAfter(s, evs[0], r, mine));
    }
  }

  // No leak and no double free: create, build any number of new pages, destroy
  // gives back exactly the free frames there were.
  lemma CreateBuildDestroy(s0: State, cur: nat, evs: seq<Event>)
    requires Wf(s0) && IsRoot(s0, cur) && s0.free != {} && Wf(NewSpace(s0, cur))
    requires RunOk(NewSpace(s0, cur), evs) && RunRespects(NewSpace(s0, cur), evs, Pmm.Lowest(s0.free))
    requires OnlyBuilds(evs, Pmm.Lowest(s0.free))
    ensures var s := Run(NewSpace(s0, cur), evs);
            var freed := FreedBy(s.mem, Pmm.Lowest(s0.free));
            && NoDup(freed)
            && (forall f | f in freed :: f !in s.free)
            && s.free + Frees(freed) == s0.free
  {
    var r := Pmm.Lowest(s0.free);
    var s1 := NewSpace(s0, cur);
    DestroyAfterRun(s0, cur, evs);
    BuildsConserve(s1, evs, r, {r});
    var mine := RunMine(s1, evs, r, {r});
    GivesBack(s0.free, r, s1.free, Run(s1, evs).free, mine, FreedBy(Run(s1, evs).mem, r));
  }

  lemma GivesBack(before: set<nat>, r: nat, born: set<nat>, after: set<nat>, mine: set<nat>, freed: seq<nat>)
    requires r in before && born == before - {r} && after <= born && mine == {r} + (born - after)
    requires Frees(freed) == mine && mine !! after
    ensures after + Frees(freed) == before
    ensures forall f | f in freed :: f !in after
  {
    forall f | f in freed
      ensures f !in after
    {
      assert f in Frees(freed);
    }
  }
}
