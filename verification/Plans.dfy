// Lists of pages and ranges of pages, mapped in order: what they map, and when there are
// frames enough for the tables they need.
module Plans {
  import Addresses
  import Demand
  import Mapping
  import opened Options
  import opened PageTables
  import Vmm
  import Words

  // ---------------------------------------------------------------- lists of pages

  datatype Page = Page(path: seq<nat>, leaf: Entry)

  // The leaf that the first mapping of a page gives it.
  function FirstLeaf(pages: seq<Page>, q: seq<nat>): Option<Entry> {
    if pages == [] then None else
      var last := pages[|pages| - 1];
      match FirstLeaf(pages[..|pages| - 1], q)
      case Some(e) => Some(e)
      case None => if last.path == q then Some(last.leaf) else None
  }

  // A list of pages, and the states that mapping them in order passes through. Where
  // frames run out there are none, and the kernel panics.
  datatype Plan = Plan(states: seq<State>, pages: seq<Page>)

  ghost predicate PlanOk(plan: Plan, r: nat) {
    match plan
    case Plan(states, pages) =>
      && |states| == |pages| + 1
      && forall i: nat, page: Page | i < |pages| && page == pages[i] :: MapsPage(states, r, i, page)
  }

  ghost predicate MapsPage(states: seq<State>, r: nat, i: nat, page: Page) {
    match page
    case Page(path, leaf) =>
      && i + 1 < |states| && IsPath(path) && Present(leaf)
      && Wf(states[i]) && IsRoot(states[i], r) && Mapping.CanMap(states[i], r, path)
      && states[i + 1] == Mapping.Map(states[i], r, path, leaf)
  }

  // What was mapped stays; what was not is mapped as the first page in the list with its
  // path says.
  lemma {:induction false} PagesTranslate(plan: Plan, r: nat, n: nat, q: seq<nat>)
    requires PlanOk(plan, r) && n <= |plan.pages| && IsPath(q)
    ensures n < |plan.states|
    ensures Translate(plan.states[n].mem, r, q) ==
            if Translate(plan.states[0].mem, r, q).Some? then Translate(plan.states[0].mem, r, q)
            else FirstLeaf(plan.pages[..n], q)
    decreases n
  {
    if n > 0 {
      PagesTranslate(plan, r, n - 1, q);
      var page := plan.pages[n - 1];
      assert MapsPage(plan.states, r, n - 1, page);
      Mapping.MapRefines(plan.states[n - 1], r, page.path, page.leaf, r, q);
      assert plan.pages[..n][..n - 1] == plan.pages[..n - 1];
    }
  }

  lemma PlanPage(plan: Plan, r: nat, k: nat, page: Page)
    requires PlanOk(plan, r) && k < |plan.pages| && plan.pages[k] == page
    ensures k + 1 < |plan.states| && IsPath(page.path) && Present(page.leaf)
    ensures Wf(plan.states[k]) && IsRoot(plan.states[k], r) && Mapping.CanMap(plan.states[k], r, page.path)
    ensures plan.states[k + 1] == Mapping.Map(plan.states[k], r, page.path, page.leaf)
  {
    assert MapsPage(plan.states, r, k, page);
  }

  // ---------------------------------------------------------------- frames for the tables of a list

  predicate PagesOk(pages: seq<Page>) {
    forall page | page in pages :: IsPath(page.path) && Present(page.leaf)
  }

  // The tables missing for the pages.
  function Needed(m: Memory, r: nat, pages: seq<Page>): set<seq<nat>>
    requires PagesOk(pages)
  {
    if pages == [] then {} else
      Needed(m, r, pages[..|pages| - 1]) + Demand.MissingTables(m, r, pages[|pages| - 1].path, 3)
  }

  lemma NeededSnoc(m: Memory, r: nat, pages: seq<Page>, n: nat)
    requires PagesOk(pages) && n < |pages|
    ensures Needed(m, r, pages[..n + 1]) == Needed(m, r, pages[..n]) + Demand.MissingTables(m, r, pages[n].path, 3)
  {
    assert pages[..n + 1][..n] == pages[..n];
  }

  lemma {:induction false} MissingAfter(m: Memory, r: nat, tables: set<seq<nat>>, m': Memory, p: seq<nat>, d: nat)
    requires Demand.Makes(m, r, tables, m') && d <= 3 <= |p|
    ensures Demand.MissingTables(m', r, p, d) == Demand.MissingTables(m, r, p, d) - tables
    decreases d
  {
    if d > 0 {
      MissingAfter(m, r, tables, m', p, d - 1);
      Demand.MissingStep(m, r, p, d);
      Demand.MissingStep(m', r, p, d);
    }
  }

  // Once some tables are there the others are still missing.
  lemma {:induction false} NeededAfter(m: Memory, r: nat, tables: set<seq<nat>>, m': Memory, pages: seq<Page>)
    requires Demand.Makes(m, r, tables, m') && PagesOk(pages)
    ensures Needed(m', r, pages) == Needed(m, r, pages) - tables
    decreases |pages|
  {
    if pages != [] {
      NeededAfter(m, r, tables, m', pages[..|pages| - 1]);
      MissingAfter(m, r, tables, m', pages[|pages| - 1].path, 3);
    }
  }

  // `s'` is `s` with the given tables made, each from a free frame.
  ghost predicate Grown(s: State, r: nat, tables: set<seq<nat>>, s': State) {
    match s'
    case State(mem', free', _) =>
      Wf(s') && IsRoot(s', r) && Demand.Makes(s.mem, r, tables, mem') && |free'| == |s.free| - |tables|
  }

  lemma GrownBoth(s: State, r: nat, a: set<seq<nat>>, s1: State, b: set<seq<nat>>, s2: State)
    requires Grown(s, r, a, s1) && Grown(s1, r, b, s2) && a !! b
    ensures Grown(s, r, a + b, s2)
  {
    Demand.MakesBoth(s.mem, r, a, s1.mem, b, s2.mem);
    assert |a + b| == |a| + |b|;
  }

  lemma PageGrows(s: State, r: nat, before: set<seq<nat>>, s1: State, page: Page)
    requires Grown(s, r, before, s1) && IsPath(page.path) && Present(page.leaf) && Mapping.CanMap(s1, r, page.path)
    ensures Grown(s, r, before + Demand.MissingTables(s.mem, r, page.path, 3),
                  Mapping.Map(s1, r, page.path, page.leaf))
  {
    var more := Demand.MissingTables(s1.mem, r, page.path, 3);
    Demand.MapMakes(s1, r, page.path, page.leaf);
    Mapping.MapWf(s1, r, page.path, page.leaf);
    MissingAfter(s.mem, r, before, s1.mem, page.path, 3);
    GrownBoth(s, r, before, s1, more, Mapping.Map(s1, r, page.path, page.leaf));
    assert before + more == before + Demand.MissingTables(s.mem, r, page.path, 3);
  }

  // The first `n` pages of a plan make the tables missing for them.
  lemma {:induction false} PlanGrows(plan: Plan, r: nat, n: nat)
    requires PlanOk(plan, r) && PagesOk(plan.pages) && n <= |plan.pages|
    requires plan.states != [] && Wf(plan.states[0]) && IsRoot(plan.states[0], r)
    ensures n < |plan.states|
    ensures Grown(plan.states[0], r, Needed(plan.states[0].mem, r, plan.pages[..n]), plan.states[n])
    decreases n
  {
    if n > 0 {
      PlanGrows(plan, r, n - 1);
      var s, s1, page := plan.states[0], plan.states[n - 1], plan.pages[n - 1];
      PlanPage(plan, r, n - 1, page);
      PageGrows(s, r, Needed(s.mem, r, plan.pages[..n - 1]), s1, page);
      NeededSnoc(s.mem, r, plan.pages, n - 1);
    }
  }

  ghost predicate IsPlan(plan: Plan, s: State, r: nat, pages: seq<Page>) {
    PlanOk(plan, r) && plan.pages == pages && plan.states[0] == s
  }

  lemma {:induction false} MakePlan(s: State, r: nat, pages: seq<Page>) returns (plan: Plan)
    requires Wf(s) && IsRoot(s, r) && PagesOk(pages) && |Needed(s.mem, r, pages)| <= |s.free|
    ensures IsPlan(plan, s, r, pages)
    decreases |pages|
  {
    if pages == [] {
      plan := Plan([s], []);
    } else {
      var n, init, page := |pages| - 1, pages[..|pages| - 1], pages[|pages| - 1];
      CardLe(Needed(s.mem, r, init), Needed(s.mem, r, pages));
      var before := MakePlan(s, r, init);
      PlanGrows(before, r, n);
      assert init[..n] == init;
      PageFits(s, r, pages, before.states[n]);
      plan := Extend(before, r, page);
      assert init + [page] == pages;
    }
  }

  // After all pages but the last there are frames left for the last.
  lemma PageFits(s: State, r: nat, pages: seq<Page>, s1: State)
    requires PagesOk(pages) && pages != [] && |Needed(s.mem, r, pages)| <= |s.free|
    requires Grown(s, r, Needed(s.mem, r, pages[..|pages| - 1]), s1)
    ensures Mapping.CanMap(s1, r, pages[|pages| - 1].path)
  {
    var before, p := Needed(s.mem, r, pages[..|pages| - 1]), pages[|pages| - 1].path;
    MissingAfter(s.mem, r, before, s1.mem, p, 3);
    var more := Demand.MissingTables(s1.mem, r, p, 3);
    assert Needed(s.mem, r, pages) == before + more && before !! more;
    assert |before + more| == |before| + |more|;
    Demand.MissingCount(s1.mem, r, p, 3);
  }

  lemma Extend(plan: Plan, r: nat, page: Page) returns (plan': Plan)
    requires PlanOk(plan, r) && IsPath(page.path) && Present(page.leaf) && plan.states != []
    requires var s := plan.states[|plan.pages|]; Wf(s) && IsRoot(s, r) && Mapping.CanMap(s, r, page.path)
    ensures PlanOk(plan', r) && plan'.pages == plan.pages + [page] && plan'.states[0] == plan.states[0]
  {
    var n := |plan.pages|;
    var s := plan.states[n];
    var states, pages := plan.states + [Mapping.Map(s, r, page.path, page.leaf)], plan.pages + [page];
    forall i: nat, x: Page | i < |pages| && x == pages[i]
      ensures MapsPage(states, r, i, x)
    {
      if i < n {
        PlanPage(plan, r, i, x);
      }
    }
    plan' := Plan(states, pages);
  }

  lemma CardLe<T>(a: set<T>, b: set<T>)
    requires a <= b
    ensures |a| <= |b|
  {
    assert |b| == |a| + |b - a| by {
      assert b == a + (b - a);
    }
  }

  // A list of pages can be mapped exactly when no more tables are missing for it than
  // frames are free.
  lemma PlanExistsIff(s: State, r: nat, pages: seq<Page>)
    requires Wf(s) && IsRoot(s, r) && PagesOk(pages)
    ensures (exists plan :: IsPlan(plan, s, r, pages)) <==> |Needed(s.mem, r, pages)| <= |s.free|
  {
    if |Needed(s.mem, r, pages)| <= |s.free| {
      var plan := MakePlan(s, r, pages);
    }
    forall plan | IsPlan(plan, s, r, pages)
      ensures |Needed(s.mem, r, pages)| <= |s.free|
    {
      PlanGrows(plan, r, |pages|);
      assert pages[..|pages|] == pages;
    }
  }

  // ---------------------------------------------------------------- ranges

  // Pages from the aligned address `virt` on, mapped to frames from `frame` on.
  datatype Range = Range(virt: nat, frame: nat, count: nat)

  // The range fits in the address space, and in the pages that translation tells apart.
  predicate RangeOk(g: Range) {
    && g.virt % Addresses.PAGE == 0 && g.virt + g.count * Addresses.PAGE <= Words.WORD
    && g.count <= Addresses.PAGES && g.frame + g.count <= Vmm.MAX_FRAMES
  }

  function PageAt(g: Range, i: nat): (page: Page)
    ensures IsPath(page.path) && Present(page.leaf)
  {
    Page(Addresses.PathOf(g.virt + i * Addresses.PAGE), Entry(g.frame + i, 3))
  }

  function RangePages(g: Range): (pages: seq<Page>)
    ensures |pages| == g.count
  {
    seq(g.count, i requires 0 <= i < g.count => PageAt(g, i))
  }

  lemma PagesDiffer(g: Range, i: nat, j: nat)
    requires RangeOk(g) && i < g.count && j < g.count && PageAt(g, i).path == PageAt(g, j).path
    ensures i == j
  {
    var a, b := g.virt + i * Addresses.PAGE, g.virt + j * Addresses.PAGE;
    Addresses.SamePathSamePage(a, b);
    SameNumber(g.virt / Addresses.PAGE, i, j);
    assert a / Addresses.PAGE == g.virt / Addresses.PAGE + i && b / Addresses.PAGE == g.virt / Addresses.PAGE + j;
  }

  lemma SameNumber(x: nat, i: nat, j: nat)
    requires i < Addresses.PAGES && j < Addresses.PAGES && (x + i) % Addresses.PAGES == (x + j) % Addresses.PAGES
    ensures i == j
  {
  }

  // In a range every page comes first with its path.
  lemma {:induction false} RangeFirst(g: Range, n: nat, i: nat)
    requires RangeOk(g) && i < n <= g.count
    ensures FirstLeaf(RangePages(g)[..n], PageAt(g, i).path) == Some(PageAt(g, i).leaf)
    decreases n
  {
    var pages := RangePages(g)[..n];
    assert pages[..n - 1] == RangePages(g)[..n - 1];
    if i < n - 1 {
      RangeFirst(g, n - 1, i);
    } else {
      NotYet(g, n - 1, i);
    }
  }

  lemma {:induction false} NotYet(g: Range, n: nat, i: nat)
    requires RangeOk(g) && n <= i < g.count
    ensures FirstLeaf(RangePages(g)[..n], PageAt(g, i).path).None?
    decreases n
  {
    if n > 0 {
      assert RangePages(g)[..n][..n - 1] == RangePages(g)[..n - 1];
      NotYet(g, n - 1, i);
      if PageAt(g, n - 1).path == PageAt(g, i).path {
        PagesDiffer(g, n - 1, i);
      }
    }
  }

  // The leaf that the first of the ranges with page `q` gives it.
  function FirstIn(ranges: seq<Range>, q: seq<nat>): Option<Entry> {
    if ranges == [] then None else
      match FirstIn(ranges[..|ranges| - 1], q)
      case Some(e) => Some(e)
      case None => FirstLeaf(RangePages(ranges[|ranges| - 1]), q)
  }

  lemma {:induction false} FirstInPrefix(first: Range, rest: seq<Range>, q: seq<nat>)
    requires FirstLeaf(RangePages(first), q).Some?
    ensures FirstIn([first] + rest, q) == FirstLeaf(RangePages(first), q)
    decreases |rest|
  {
    if rest == [] {
      assert ([first] + rest)[..0] == [];
    } else {
      FirstInPrefix(first, rest[..|rest| - 1], q);
      assert ([first] + rest)[..|rest|] == [first] + rest[..|rest| - 1];
    }
  }

  // A plan for every range, and the states between them.
  datatype Schedule = Schedule(ranges: seq<Range>, plans: seq<Plan>, stages: seq<State>)

  ghost predicate ScheduleOk(schedule: Schedule, r: nat) {
    match schedule
    case Schedule(ranges, plans, stages) =>
      && |stages| == |ranges| + 1 && |plans| == |ranges|
      && forall j: nat, g: Range | j < |ranges| && g == ranges[j] :: IsStage(plans, stages, r, j, g)
  }

  ghost predicate IsStage(plans: seq<Plan>, stages: seq<State>, r: nat, j: nat, g: Range) {
    j < |plans| && j + 1 < |stages| && StageOk(plans[j], r, g, stages[j], stages[j + 1])
  }

  ghost predicate StageOk(plan: Plan, r: nat, g: Range, from: State, to_: State) {
    match plan
    case Plan(states, pages) =>
      && PlanOk(plan, r) && pages == RangePages(g)
      && |states| == g.count + 1 && states[0] == from && states[g.count] == to_
  }

  lemma {:induction false} RangesTranslate(schedule: Schedule, r: nat, n: nat, q: seq<nat>)
    requires ScheduleOk(schedule, r) && n <= |schedule.ranges| && IsPath(q)
    ensures n < |schedule.stages|
    ensures Translate(schedule.stages[n].mem, r, q) ==
            if Translate(schedule.stages[0].mem, r, q).Some? then Translate(schedule.stages[0].mem, r, q)
            else FirstIn(schedule.ranges[..n], q)
    decreases n
  {
    if n > 0 {
      RangesTranslate(schedule, r, n - 1, q);
      var g := schedule.ranges[n - 1];
      StageAt(schedule, r, n - 1, g);
      PagesTranslate(schedule.plans[n - 1], r, g.count, q);
      assert RangePages(g)[..g.count] == RangePages(g);
      assert schedule.ranges[..n][..n - 1] == schedule.ranges[..n - 1];
    }
  }

  lemma StageAt(schedule: Schedule, r: nat, j: nat, g: Range)
    requires ScheduleOk(schedule, r) && j < |schedule.ranges| && schedule.ranges[j] == g
    ensures j + 1 < |schedule.stages| && j < |schedule.plans|
    ensures StageOk(schedule.plans[j], r, g, schedule.stages[j], schedule.stages[j + 1])
  {
    assert IsStage(schedule.plans, schedule.stages, r, j, g);
  }

  // ---------------------------------------------------------------- frames for the tables of ranges

  // All pages of all ranges, in order.
  function AllPages(ranges: seq<Range>): (pages: seq<Page>)
    ensures PagesOk(pages)
  {
    if ranges == [] then [] else AllPages(ranges[..|ranges| - 1]) + RangePages(ranges[|ranges| - 1])
  }

  lemma {:induction false} NeededAppend(m: Memory, r: nat, a: seq<Page>, b: seq<Page>)
    requires PagesOk(a) && PagesOk(b)
    ensures Needed(m, r, a + b) == Needed(m, r, a) + Needed(m, r, b)
    decreases |b|
  {
    if b == [] {
      assert a + b == a;
    } else {
      assert (a + b)[..|a + b| - 1] == a + b[..|b| - 1];
      NeededAppend(m, r, a, b[..|b| - 1]);
    }
  }

  // Those missing for `b` once those for `a` are made.
  lemma NeededInTurn(s: State, r: nat, a: seq<Page>, s1: State, b: seq<Page>)
    requires PagesOk(a) && PagesOk(b) && Grown(s, r, Needed(s.mem, r, a), s1)
    ensures Needed(s.mem, r, a + b) == Needed(s.mem, r, a) + Needed(s1.mem, r, b)
    ensures Needed(s.mem, r, a) !! Needed(s1.mem, r, b)
    ensures |Needed(s.mem, r, a + b)| == |Needed(s.mem, r, a)| + |Needed(s1.mem, r, b)|
  {
    NeededAppend(s.mem, r, a, b);
    NeededAfter(s.mem, r, Needed(s.mem, r, a), s1.mem, b);
    var x, y := Needed(s.mem, r, a), Needed(s.mem, r, b);
    assert x + (y - x) == x + y;
  }

  // A plan for pages `b` after pages `a` makes the tables missing for both.
  lemma StageGrows(s: State, r: nat, a: seq<Page>, s1: State, b: seq<Page>, plan: Plan)
    requires PagesOk(a) && PagesOk(b) && Grown(s, r, Needed(s.mem, r, a), s1) && IsPlan(plan, s1, r, b)
    ensures Grown(s, r, Needed(s.mem, r, a + b), plan.states[|b|])
  {
    PlanGrows(plan, r, |b|);
    assert b[..|b|] == b;
    NeededInTurn(s, r, a, s1, b);
    GrownBoth(s, r, Needed(s.mem, r, a), s1, Needed(s1.mem, r, b), plan.states[|b|]);
  }

  lemma {:induction false} ScheduleGrows(schedule: Schedule, r: nat, n: nat)
    requires ScheduleOk(schedule, r) && n <= |schedule.ranges|
    requires schedule.stages != [] && Wf(schedule.stages[0]) && IsRoot(schedule.stages[0], r)
    ensures n < |schedule.stages|
    ensures Grown(schedule.stages[0], r,
                  Needed(schedule.stages[0].mem, r, AllPages(schedule.ranges[..n])), schedule.stages[n])
    decreases n
  {
    if n > 0 {
      ScheduleGrows(schedule, r, n - 1);
      var g := schedule.ranges[n - 1];
      StageAt(schedule, r, n - 1, g);
      assert schedule.ranges[..n][..n - 1] == schedule.ranges[..n - 1];
      StageGrows(schedule.stages[0], r, AllPages(schedule.ranges[..n - 1]), schedule.stages[n - 1],
                 RangePages(g), schedule.plans[n - 1]);
    }
  }

  ghost predicate IsSchedule(schedule: Schedule, s: State, r: nat, ranges: seq<Range>) {
    ScheduleOk(schedule, r) && schedule.ranges == ranges && schedule.stages != [] && schedule.stages[0] == s
  }

  lemma AddStage(schedule: Schedule, r: nat, g: Range, plan: Plan) returns (schedule': Schedule)
    requires ScheduleOk(schedule, r) && schedule.stages != []
    requires IsPlan(plan, schedule.stages[|schedule.ranges|], r, RangePages(g))
    ensures ScheduleOk(schedule', r) && schedule'.ranges == schedule.ranges + [g]
    ensures schedule'.stages != [] && schedule'.stages[0] == schedule.stages[0]
  {
    var n := |schedule.ranges|;
    var plans, stages := schedule.plans + [plan], schedule.stages + [plan.states[g.count]];
    forall j: nat, h: Range | j < n + 1 && h == (schedule.ranges + [g])[j]
      ensures IsStage(plans, stages, r, j, h)
    {
      if j < n {
        StageAt(schedule, r, j, h);
      }
    }
    schedule' := Schedule(schedule.ranges + [g], plans, stages);
  }

  lemma NextStage(s: State, r: nat, init: seq<Range>, g: Range, before: Schedule) returns (schedule: Schedule)
    requires Wf(s) && IsRoot(s, r) && IsSchedule(before, s, r, init)
    requires |Needed(s.mem, r, AllPages(init) + RangePages(g))| <= |s.free|
    ensures IsSchedule(schedule, s, r, init + [g])
  {
    var n := |init|;
    ScheduleGrows(before, r, n);
    assert init[..n] == init;
    NeededInTurn(s, r, AllPages(init), before.stages[n], RangePages(g));
    var plan := MakePlan(before.stages[n], r, RangePages(g));
    schedule := AddStage(before, r, g, plan);
  }

  lemma FewerNeeded(m: Memory, r: nat, a: seq<Page>, b: seq<Page>)
    requires PagesOk(a) && PagesOk(b)
    ensures |Needed(m, r, a)| <= |Needed(m, r, a + b)|
    ensures |Needed(m, r, a + b)| <= |Needed(m, r, a)| + |Needed(m, r, b)|
  {
    NeededAppend(m, r, a, b);
    CardLe(Needed(m, r, a), Needed(m, r, a + b));
  }

  lemma AllPagesSnoc(ranges: seq<Range>) returns (init: seq<Range>, g: Range)
    requires ranges != []
    ensures ranges == init + [g] && AllPages(ranges) == AllPages(init) + RangePages(g)
  {
    init, g := ranges[..|ranges| - 1], ranges[|ranges| - 1];
  }

  lemma {:induction false} MakeSchedule(s: State, r: nat, ranges: seq<Range>) returns (schedule: Schedule)
    requires Wf(s) && IsRoot(s, r) && |Needed(s.mem, r, AllPages(ranges))| <= |s.free|
    ensures IsSchedule(schedule, s, r, ranges)
    decreases |ranges|
  {
    if ranges == [] {
      schedule := Schedule([], [], [s]);
    } else {
      var init, g := AllPagesSnoc(ranges);
      FewerNeeded(s.mem, r, AllPages(init), RangePages(g));
      var before := MakeSchedule(s, r, init);
      schedule := NextStage(s, r, init, g, before);
    }
  }

  // Ranges can be mapped one after the other exactly when no more tables are missing for
  // their pages than frames are free.
  lemma ScheduleExistsIff(s: State, r: nat, ranges: seq<Range>)
    requires Wf(s) && IsRoot(s, r)
    ensures (exists schedule :: IsSchedule(schedule, s, r, ranges)) <==>
            |Needed(s.mem, r, AllPages(ranges))| <= |s.free|
  {
    if |Needed(s.mem, r, AllPages(ranges))| <= |s.free| {
      var schedule := MakeSchedule(s, r, ranges);
    }
    forall schedule | IsSchedule(schedule, s, r, ranges)
      ensures |Needed(s.mem, r, AllPages(ranges))| <= |s.free|
    {
      ScheduleGrows(schedule, r, |ranges|);
      assert ranges[..|ranges|] == ranges;
    }
  }

  // ---------------------------------------------------------------- how many tables ranges take

  // The tables over `count` pages from number `first` on: of each of three levels, one for
  // every group of 512, of 512 * 512 and of 512 * 512 * 512 pages that they lie in.
  function TablesOver(first: nat, count: nat): nat {
    if count == 0 then 0 else
      var last := first + count - 1;
      (last / 0x200 - first / 0x200 + 1) + (last / 0x4_0000 - first / 0x4_0000 + 1)
      + (last / 0x800_0000 - first / 0x800_0000 + 1)
  }

  function TablesFor(ranges: seq<Range>): nat {
    if ranges == [] then 0 else
      var g := ranges[|ranges| - 1];
      TablesFor(ranges[..|ranges| - 1]) + TablesOver(g.virt / Addresses.PAGE, g.count)
  }

  // How many of the first `d` tables on path `p` are not on path `q`.
  function Parted(q: seq<nat>, p: seq<nat>, d: nat): nat
    requires d <= |p| && d <= |q|
  {
    if d == 0 then 0 else Parted(q, p, d - 1) + if q[..d] == p[..d] then 0 else 1
  }

  lemma {:induction false} MissingIn(m: Memory, r: nat, q: seq<nat>, k: nat, d: nat)
    requires 0 < k <= d <= |q| && Walk(m, r, q[..k]).None?
    ensures q[..k] in Demand.MissingTables(m, r, q, d)
    decreases d
  {
    Demand.MissingStep(m, r, q, d);
    if k < d {
      MissingIn(m, r, q, k, d - 1);
    }
  }

  lemma MoreLeft<T>(a: set<T>, x: T, b: set<T>)
    ensures |a + {x} - b| <= |a - b| + if x in b then 0 else 1
  {
    if x in b {
      assert a + {x} - b == a - b;
    } else {
      CardLe(a + {x} - b, (a - b) + {x});
    }
  }

  lemma PartedStep(m: Memory, r: nat, made: set<seq<nat>>, q: seq<nat>, p: seq<nat>, n: nat, d: nat)
    requires 0 < d <= n <= |p| && n <= |q| && Demand.MissingTables(m, r, q, n) <= made
    ensures |Demand.MissingTables(m, r, p, d) - made| <=
            |Demand.MissingTables(m, r, p, d - 1) - made| + if q[..d] == p[..d] then 0 else 1
  {
    var before, u := Demand.MissingTables(m, r, p, d - 1), p[..d];
    Demand.MissingStep(m, r, p, d);
    if Walk(m, r, u).None? {
      if q[..d] == u {
        MissingIn(m, r, q, d, n);
      }
      MoreLeft(before, u, made);
    } else {
      assert Demand.MissingTables(m, r, p, d) == before;
    }
  }

  // Once the tables of `q` are there, those missing for `p` are at most the ones off path `q`.
  lemma {:induction false} PartedBounds(m: Memory, r: nat, made: set<seq<nat>>,
                                        q: seq<nat>, p: seq<nat>, n: nat, d: nat)
    requires d <= n <= |p| && n <= |q| && Demand.MissingTables(m, r, q, n) <= made
    ensures |Demand.MissingTables(m, r, p, d) - made| <= Parted(q, p, d)
    decreases d
  {
    if d > 0 {
      PartedBounds(m, r, made, q, p, n, d - 1);
      PartedStep(m, r, made, q, p, n, d);
    }
  }

  lemma UnionCount<T>(a: set<T>, b: set<T>)
    ensures |a + b| == |a| + |b - a|
  {
    assert a + b == a + (b - a);
  }

  lemma PageIndices(g: Range, i: nat)
    requires g.virt % Addresses.PAGE == 0
    ensures var x, p := g.virt / Addresses.PAGE + i, PageAt(g, i).path;
            p[0] == x / 0x800_0000 % 512 && p[1] == x / 0x4_0000 % 512 && p[2] == x / 0x200 % 512
  {
    var x, va := g.virt / Addresses.PAGE + i, g.virt + i * Addresses.PAGE;
    assert va == x * 0x1000;
    assert va / 0x80_0000_0000 == x / 0x800_0000 && va / 0x4000_0000 == x / 0x4_0000 && va / 0x20_0000 == x / 0x200;
  }

  // The groups that page numbers `x` and `y` lie in, and the paths of the pages.
  lemma PartedGroups(q: seq<nat>, p: seq<nat>, x0: nat, x1: nat, x2: nat, y0: nat, y1: nat, y2: nat)
    requires |q| == |p| == 4 && q[..3] == [x0 % 512, x1 % 512, x2 % 512] && p[..3] == [y0 % 512, y1 % 512, y2 % 512]
    requires (x2 == y2 ==> x1 == y1) && (x1 == y1 ==> x0 == y0)
    ensures Parted(q, p, 3) <= (if x0 == y0 then 0 else 1) + (if x1 == y1 then 0 else 1) + (if x2 == y2 then 0 else 1)
  {
    assert Parted(q, p, 1) == if q[..1] == p[..1] then 0 else 1;
    assert Parted(q, p, 2) == Parted(q, p, 1) + if q[..2] == p[..2] then 0 else 1;
    assert q[..1] == q[..3][..1] && q[..2] == q[..3][..2] && p[..1] == p[..3][..1] && p[..2] == p[..3][..2];
  }

  lemma NextGroups(x: nat)
    ensures x / 0x200 <= (x + 1) / 0x200 <= x / 0x200 + 1
    ensures x / 0x4_0000 <= (x + 1) / 0x4_0000 <= x / 0x4_0000 + 1
    ensures x / 0x800_0000 <= (x + 1) / 0x800_0000 <= x / 0x800_0000 + 1
    ensures x / 0x200 == (x + 1) / 0x200 ==> x / 0x4_0000 == (x + 1) / 0x4_0000
    ensures x / 0x4_0000 == (x + 1) / 0x4_0000 ==> x / 0x800_0000 == (x + 1) / 0x800_0000
  {
    assert x / 0x4_0000 == x / 0x200 / 0x200 && (x + 1) / 0x4_0000 == (x + 1) / 0x200 / 0x200;
    assert x / 0x800_0000 == x / 0x4_0000 / 0x200 && (x + 1) / 0x800_0000 == (x + 1) / 0x4_0000 / 0x200;
  }

  lemma TablesGrow(first: nat, i: nat, x: nat)
    requires x == first + i
    ensures TablesOver(first, i + 2) ==
            TablesOver(first, i + 1) + ((x + 1) / 0x800_0000 - x / 0x800_0000)
            + ((x + 1) / 0x4_0000 - x / 0x4_0000) + ((x + 1) / 0x200 - x / 0x200)
  {
  }

  // The next page takes a new table at a level only where a new group begins.
  lemma NextPageParts(g: Range, i: nat)
    requires g.virt % Addresses.PAGE == 0
    ensures Parted(PageAt(g, i).path, PageAt(g, i + 1).path, 3) + TablesOver(g.virt / Addresses.PAGE, i + 1) <=
            TablesOver(g.virt / Addresses.PAGE, i + 2)
  {
    var x, q, p := g.virt / Addresses.PAGE + i, PageAt(g, i).path, PageAt(g, i + 1).path;
    PageIndices(g, i);
    PageIndices(g, i + 1);
    NextGroups(x);
    TablesGrow(g.virt / Addresses.PAGE, i, x);
    PartedGroups(q, p, x / 0x800_0000, x / 0x4_0000, x / 0x200,
                 (x + 1) / 0x800_0000, (x + 1) / 0x4_0000, (x + 1) / 0x200);
  }

  lemma FirstPageNeeds(m: Memory, r: nat, g: Range)
    requires g.count > 0
    ensures |Needed(m, r, RangePages(g)[..1])| <= 3
  {
    var pages, p := RangePages(g), PageAt(g, 0).path;
    NeededSnoc(m, r, pages, 0);
    assert Needed(m, r, pages[..1]) == Demand.MissingTables(m, r, p, 3);
    Demand.MissingCount(m, r, p, 3);
    assert Mapping.Missing(m, r, p, 1) <= 1;
    assert Mapping.Missing(m, r, p, 2) <= 2;
  }

  lemma NextPageNeeds(m: Memory, r: nat, g: Range, i: nat, k: nat, t: nat, t': nat)
    requires i + 1 == k < g.count && |Needed(m, r, RangePages(g)[..k])| <= t
    requires Parted(PageAt(g, i).path, PageAt(g, k).path, 3) + t <= t'
    ensures |Needed(m, r, RangePages(g)[..k + 1])| <= t'
  {
    NeededSnoc(m, r, RangePages(g), i);
    NeededSnoc(m, r, RangePages(g), k);
    var before, p := Needed(m, r, RangePages(g)[..k]), PageAt(g, k).path;
    PartedBounds(m, r, before, PageAt(g, i).path, p, 3, 3);
    UnionCount(before, Demand.MissingTables(m, r, p, 3));
  }

  lemma {:induction false} RangeNeeds(m: Memory, r: nat, g: Range, n: nat)
    requires g.virt % Addresses.PAGE == 0 && n <= g.count
    ensures |Needed(m, r, RangePages(g)[..n])| <= TablesOver(g.virt / Addresses.PAGE, n)
    decreases n
  {
    if n == 1 {
      FirstPageNeeds(m, r, g);
    } else if n > 1 {
      RangeNeeds(m, r, g, n - 1);
      NextPageParts(g, n - 2);
      var v := g.virt / Addresses.PAGE;
      NextPageNeeds(m, r, g, n - 2, n - 1, TablesOver(v, n - 1), TablesOver(v, n));
    }
  }

  // Whatever tables are there, ranges of pages take no more than these.
  lemma {:induction false} RangesNeed(m: Memory, r: nat, ranges: seq<Range>)
    requires forall g | g in ranges :: g.virt % Addresses.PAGE == 0
    ensures |Needed(m, r, AllPages(ranges))| <= TablesFor(ranges)
    decreases |ranges|
  {
    if ranges != [] {
      var init, g := ranges[..|ranges| - 1], ranges[|ranges| - 1];
      RangesNeed(m, r, init);
      RangeNeeds(m, r, g, g.count);
      assert RangePages(g)[..g.count] == RangePages(g);
      FewerNeeded(m, r, AllPages(init), RangePages(g));
    }
  }
}
