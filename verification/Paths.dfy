// The one-pass path parser: what it computes, when that is the canonical form of the
// path, and the table of rows it fills.
module Paths {

  const SEP := '/'
  const DOT := '.'
  const NUL := '\0'

  // ---------------------------------------------------------------- the stream

  // Completed components, and the component being read.
  datatype Stream = Stream(stack: seq<string>, cur: string)

  predicate HasLeft(p: string, i: nat)
    requires i < |p|
  {
    i > 0 && p[i - 1] != SEP
  }

  predicate HasRight(p: string, i: nat)
    requires i < |p|
  {
    i + 1 < |p| && p[i + 1] != SEP
  }

  datatype Move = Skip | Close | Pop | Append

  // What the parser does with character `i`, looking one back and one ahead.
  function MoveAt(p: string, i: nat, cur: string): Move
    requires i < |p|
  {
    if p[i] == SEP then if cur == "" then Skip else Close
    else if p[i] != DOT then Append
    else if i > 0 && p[i - 1] == DOT then Pop
    else if !HasLeft(p, i) && !HasRight(p, i) then Skip
    else Append
  }

  function Dropped(s: seq<string>): seq<string> {
    if s == [] then [] else s[..|s| - 1]
  }

  function Feed(p: string, i: nat): Stream
    requires i <= |p|
  {
    if i == 0 then Stream([], "") else
      var s := Feed(p, i - 1);
      match MoveAt(p, i - 1, s.cur)
      case Skip => s
      case Close => Stream(s.stack + [s.cur], "")
      case Pop => Stream(Dropped(s.stack), "")
      case Append => Stream(s.stack, s.cur + [p[i - 1]])
  }

  function Closed(s: Stream): seq<string> {
    if s.cur == "" then s.stack else s.stack + [s.cur]
  }

  // The components the parser returns.
  function Components(p: string): seq<string> {
    Closed(Feed(p, |p|))
  }

  // ---------------------------------------------------------------- the canonical form

  // The parts of a path between separators: those before the last one, and the rest.
  function Parts(p: string): seq<string>
  {
    if p == "" then []
    else if p[|p| - 1] == SEP then Parts(p[..|p| - 1]) + [Tail(p[..|p| - 1])]
    else Parts(p[..|p| - 1])
  }

  function Tail(p: string): string {
    if p == "" || p[|p| - 1] == SEP then "" else Tail(p[..|p| - 1]) + [p[|p| - 1]]
  }

  function Split(p: string): seq<string> {
    Parts(p) + [Tail(p)]
  }

  // One part applied to a directory: nothing for "" and ".", up for "..", down otherwise.
  function Enter(dirs: seq<string>, part: string): seq<string> {
    if part == "" || part == "." then dirs
    else if part == ".." then Dropped(dirs)
    else dirs + [part]
  }

  function Resolve(parts: seq<string>): seq<string> {
    if parts == [] then [] else Enter(Resolve(parts[..|parts| - 1]), parts[|parts| - 1])
  }

  function Canon(p: string): seq<string> {
    Resolve(Split(p))
  }

  predicate DotsApart(w: string) {
    forall k | 0 <= k < |w| - 1 :: !(w[k] == DOT && w[k + 1] == DOT)
  }

  // Adjacent dots only as the whole part "..".
  predicate LegalPart(w: string) {
    w == ".." || DotsApart(w)
  }

  predicate Legal(p: string) {
    forall w | w in Split(p) :: LegalPart(w)
  }

  // ---------------------------------------------------------------- legal paths

  // The stream after part of a component `w`, in directory `dirs`; `right` says whether
  // the component goes on.
  function Within(dirs: seq<string>, w: string, right: bool): Stream {
    if w == ".." then Stream(Dropped(dirs), "")
    else if w == "." && !right then Stream(dirs, "")
    else Stream(dirs, w)
  }

  lemma TailHasNoSep(p: string)
    ensures SEP !in Tail(p)
  {
  }

  lemma TailIsSuffix(p: string)
    ensures |Tail(p)| <= |p| && p[|p| - |Tail(p)|..] == Tail(p)
    ensures |Tail(p)| < |p| ==> p[|p| - |Tail(p)| - 1] == SEP
  {
    if p != "" && p[|p| - 1] != SEP {
      TailIsSuffix(p[..|p| - 1]);
    }
  }

  // Parts and tail of a prefix, one character further.
  lemma PrefixStep(p: string, i: nat)
    requires i < |p|
    ensures Parts(p[..i + 1]) == if p[i] == SEP then Parts(p[..i]) + [Tail(p[..i])] else Parts(p[..i])
    ensures Tail(p[..i + 1]) == if p[i] == SEP then "" else Tail(p[..i]) + [p[i]]
    ensures Tail(p[..i]) == "" <==> i == 0 || p[i - 1] == SEP
    ensures Tail(p[..i]) != "" ==> Tail(p[..i])[|Tail(p[..i])| - 1] == p[i - 1]
  {
    assert p[..i + 1][..i] == p[..i];
  }

  // One step of the stream inside or at the end of a legal part.
  function FeedOne(p: string, i: nat, s: Stream): Stream
    requires i < |p|
  {
    match MoveAt(p, i, s.cur)
    case Skip => s
    case Close => Stream(s.stack + [s.cur], "")
    case Pop => Stream(Dropped(s.stack), "")
    case Append => Stream(s.stack, s.cur + [p[i]])
  }

  lemma StepInPart(p: string, i: nat, dirs: seq<string>, w: string)
    requires i < |p| && p[i] != SEP && LegalPart(w + [p[i]])
    requires w == "" <==> i == 0 || p[i - 1] == SEP
    requires w != "" ==> w[|w| - 1] == p[i - 1]
    ensures FeedOne(p, i, Within(dirs, w, w != "")) == Within(dirs, w + [p[i]], HasRight(p, i))
  {
    LegalGrows(w, p[i]);
    var v := w + [p[i]];
    assert |v| == |w| + 1 && v[|w|] == p[i];
    assert v == "." <==> w == "" && p[i] == DOT;
    assert v == ".." <==> w == "." && p[i] == DOT by {
      if v == ".." {
        assert w == v[..1] == ".";
      }
    }
  }

  lemma StepAtSep(p: string, i: nat, dirs: seq<string>, w: string)
    requires i < |p| && p[i] == SEP && LegalPart(w)
    ensures FeedOne(p, i, Within(dirs, w, false)) == Stream(Enter(dirs, w), "")
  {
  }

  lemma ResolveSnoc(parts: seq<string>, w: string)
    ensures Resolve(parts + [w]) == Enter(Resolve(parts), w)
  {
    assert (parts + [w])[..|parts|] == parts;
  }

  // Every part before position `i` is legal, and the part `i` lies in is so far.
  ghost predicate LegalSoFar(p: string, i: nat)
    requires i <= |p|
  {
    LegalPart(Tail(p[..i]))
  }

  // Over legal parts the stream holds the directory of the parts before, and the part
  // being read.
  lemma {:induction false} FeedLegal(p: string, i: nat)
    requires i <= |p|
    requires forall k | 0 <= k <= i :: LegalSoFar(p, k)
    ensures Feed(p, i) == Within(Resolve(Parts(p[..i])), Tail(p[..i]), i > 0 && HasRight(p, i - 1))
    decreases i
  {
    if i == 0 {
      assert p[..0] == "";
    } else {
      FeedLegal(p, i - 1);
      PrefixStep(p, i - 1);
      var dirs, w := Resolve(Parts(p[..i - 1])), Tail(p[..i - 1]);
      assert Feed(p, i) == FeedOne(p, i - 1, Feed(p, i - 1));
      assert LegalSoFar(p, i) && LegalSoFar(p, i - 1);
      if p[i - 1] == SEP {
        StepAtSep(p, i - 1, dirs, w);
        ResolveSnoc(Parts(p[..i - 1]), w);
      } else {
        StepInPart(p, i - 1, dirs, w);
      }
    }
  }

  // A legal part that grows into a legal part was not "..", and gets a dot after a dot
  // only by becoming "..".
  lemma LegalGrows(w: string, c: char)
    requires LegalPart(w + [c])
    ensures w != ".."
    ensures w != "" && w[|w| - 1] == DOT && c == DOT ==> w == "."
  {
    var v := w + [c];
    if DotsApart(v) {
      assert |w| >= 1 ==> v[|w| - 1] == w[|w| - 1] && v[|w|] == c;
      assert |w| >= 2 ==> v[0] == w[0] && v[1] == w[1];
    }
  }

  lemma LegalPrefix(v: string, w: string)
    requires v <= w && LegalPart(w)
    ensures LegalPart(v)
  {
    if w == ".." {
      assert v == w[..|v|];
      assert |v| < 2 ==> DotsApart(v);
    }
  }

  // What is read of a part at any position is the beginning of a whole part.
  lemma {:induction false} TailBeginsPart(p: string, k: nat) returns (w: string)
    requires k <= |p|
    ensures w in Split(p) && Tail(p[..k]) <= w
    decreases |p|
  {
    if k == |p| {
      assert p[..k] == p;
      w := Tail(p);
    } else {
      var p' := p[..|p| - 1];
      var v := TailBeginsPart(p', k);
      assert p'[..k] == p[..k];
      w := if v in Parts(p') || p[|p| - 1] == SEP then v else Tail(p);
    }
  }

  // Every whole part is what has been read at some position.
  lemma {:induction false} PartIsTail(p: string, w: string) returns (k: nat)
    requires w in Split(p)
    ensures k <= |p| && Tail(p[..k]) == w
    decreases |p|
  {
    if w == Tail(p) {
      k := |p|;
      assert p[..k] == p;
    } else {
      var p' := p[..|p| - 1];
      k := PartIsTail(p', w);
      assert p'[..k] == p[..k];
    }
  }

  lemma LegalAllAlong(p: string)
    ensures Legal(p) <==> forall k | 0 <= k <= |p| :: LegalSoFar(p, k)
  {
    if Legal(p) {
      forall k | 0 <= k <= |p|
        ensures LegalSoFar(p, k)
      {
        var w := TailBeginsPart(p, k);
        LegalPrefix(Tail(p[..k]), w);
      }
    }
    if forall k | 0 <= k <= |p| :: LegalSoFar(p, k) {
      forall w | w in Split(p)
        ensures LegalPart(w)
      {
        var k := PartIsTail(p, w);
        assert LegalSoFar(p, k);
      }
    }
  }

  // On a legal path of any length the stream ends in the canonical form.
  lemma LegalIsCanonical(p: string)
    requires Legal(p)
    ensures Components(p) == Canon(p)
  {
    LegalAllAlong(p);
    FeedLegal(p, |p|);
    assert p[..|p|] == p;
    ResolveSnoc(Parts(p), Tail(p));
  }

  // ---------------------------------------------------------------- illegal parts

  predicate Boundary(p: string, e: nat) {
    e <= |p| && (e == |p| || p[e] == SEP)
  }

  lemma EmptyIsLegal()
    ensures Legal("")
  {
    assert Split("") == [""];
  }

  // An illegal path has a first illegal part, which ends at a boundary.
  lemma {:induction false} FirstIllegal(p: string) returns (e: nat)
    requires !Legal(p)
    ensures Boundary(p, e) && !LegalPart(Tail(p[..e]))
    ensures forall w | w in Parts(p[..e]) :: LegalPart(w)
    decreases |p|
  {
    EmptyIsLegal();
    var p' := p[..|p| - 1];
    if Legal(p') {
      e := |p|;
      assert p[..e] == p;
    } else {
      e := FirstIllegal(p');
      assert p'[..e] == p[..e];
      if e == |p'| && p[|p| - 1] != SEP {
        assert p'[..e] == p';
        e := |p|;
        assert p[..e] == p;
        assert Tail(p') <= Tail(p);
        if LegalPart(Tail(p)) {
          LegalPrefix(Tail(p'), Tail(p));
        }
      }
    }
  }

  // Adjacent dots in `p` after position `a` and before `i`.
  predicate DotPair(p: string, a: nat, i: nat)
    requires i <= |p|
  {
    exists k :: a <= k < i - 1 && p[k] == DOT && p[k + 1] == DOT
  }

  // Inside one part, a pair of dots loses a directory and what was read before it.
  lemma {:induction false} PairPops(p: string, a: nat, i: nat, dirs: seq<string>)
    requires a <= i <= |p| && (a == 0 || p[a - 1] == SEP) && SEP !in p[a..]
    requires Feed(p, a) == Stream(dirs, "")
    ensures var s := Feed(p, i);
            if DotPair(p, a, i) then |s.stack| <= |Dropped(dirs)| && |s.cur| < i - a
            else s.stack == dirs && |s.cur| <= i - a
    decreases i
  {
    if i > a {
      PairPops(p, a, i - 1, dirs);
      assert p[i - 1] == p[a..][i - 1 - a];
      if MoveAt(p, i - 1, Feed(p, i - 1).cur) == Pop {
        assert i - 2 >= a && p[i - 2] == DOT && p[i - 2 + 1] == DOT;
      } else if DotPair(p, a, i) {
        var k :| a <= k < i - 1 && p[k] == DOT && p[k + 1] == DOT;
        assert k < i - 2;
      }
    }
  }

  // Before its last part, a path whose parts are legal so far is read to their directory.
  lemma StreamAtLastPart(p: string, a: nat)
    requires a == |p| - |Tail(p)| && forall w | w in Parts(p) :: LegalPart(w)
    ensures a <= |p| && (a == 0 || p[a - 1] == SEP) && SEP !in p[a..] && Tail(p) == p[a..]
    ensures Feed(p, a) == Stream(Resolve(Parts(p)), "")
  {
    TailIsSuffix(p);
    TailHasNoSep(p);
    var q := p[..a];
    AfterSep(p, a, a);
    AfterSep(p, a, |p|);
    assert p[..|p|] == p && Parts(q) == Parts(p) && Tail(q) == "";
    LegalAllAlong(q);
    FeedLegal(q, a);
    assert q[..a] == q;
    FeedPrefix(p, a);
  }

  // A path whose last part is its only illegal one is not parsed to its canonical form.
  lemma IllegalIsNotCanonical(p: string)
    requires !LegalPart(Tail(p)) && forall w | w in Parts(p) :: LegalPart(w)
    ensures Components(p) != Canon(p)
  {
    var w, dirs := Tail(p), Resolve(Parts(p));
    TailIsSuffix(p);
    IllegalPops(p, |p| - |w|);
    assert Canon(p) == dirs + [w] by {
      ResolveSnoc(Parts(p), w);
      IllegalEnters(dirs, w);
    }
    ShorterIsOther(dirs, w, Feed(p, |p|));
  }

  lemma IllegalEnters(dirs: seq<string>, w: string)
    requires !LegalPart(w)
    ensures Enter(dirs, w) == dirs + [w]
  {
    assert |w| > 1;
  }

  lemma IllegalPops(p: string, a: nat)
    requires a == |p| - |Tail(p)| && !LegalPart(Tail(p)) && forall w | w in Parts(p) :: LegalPart(w)
    ensures |Feed(p, |p|).stack| <= |Dropped(Resolve(Parts(p)))| && |Feed(p, |p|).cur| < |Tail(p)|
  {
    var w := Tail(p);
    StreamAtLastPart(p, a);
    PairPops(p, a, |p|, Resolve(Parts(p)));
    var k :| 0 <= k < |w| - 1 && w[k] == DOT && w[k + 1] == DOT;
    assert p[a + k] == w[k] && p[a + k + 1] == w[k + 1];
    assert DotPair(p, a, |p|);
  }

  lemma ShorterIsOther(dirs: seq<string>, w: string, s: Stream)
    requires |s.stack| <= |Dropped(dirs)| && |s.cur| < |w|
    ensures Closed(s) != dirs + [w]
  {
    if dirs == [] && s.cur != "" {
      assert Closed(s)[0] == s.cur;
    }
  }

  // After its last separator a path gains no parts, and its tail is what follows.
  lemma {:induction false} AfterSep(p: string, a: nat, k: nat)
    requires a <= k <= |p| && (a == 0 || p[a - 1] == SEP) && SEP !in p[a..]
    ensures Parts(p[..k]) == Parts(p[..a]) && Tail(p[..k]) == p[a..k]
    decreases k
  {
    if k == a {
      EmptyTail(p, a);
    } else {
      AfterSep(p, a, k - 1);
      OneFurther(p, a, k - 1);
    }
  }

  lemma EmptyTail(p: string, a: nat)
    requires a <= |p| && (a == 0 || p[a - 1] == SEP)
    ensures Tail(p[..a]) == ""
  {
    if a > 0 {
      PrefixStep(p, a - 1);
    } else {
      assert p[..0] == "";
    }
  }

  lemma OneFurther(p: string, a: nat, k: nat)
    requires a <= k < |p| && SEP !in p[a..] && Tail(p[..k]) == p[a..k]
    ensures Parts(p[..k + 1]) == Parts(p[..k]) && Tail(p[..k + 1]) == p[a..k + 1]
  {
    PrefixStep(p, k);
    assert p[k] == p[a..][k - a];
    assert p[a..k + 1] == p[a..k] + [p[k]];
  }

  // Up to a separator, or its end, a prefix is read as the whole path is.
  lemma {:induction false} FeedPrefix(p: string, a: nat)
    requires a <= |p| && (a == 0 || p[a - 1] == SEP)
    ensures Feed(p[..a], a) == Feed(p, a)
  {
    if a > 0 {
      FeedAgree(p[..a], p, a - 1);
    }
  }

  lemma {:induction false} FeedAgree(p: string, q: string, i: nat)
    requires i < |p| && i < |q| && p[..i + 1] == q[..i + 1]
    ensures Feed(p, i) == Feed(q, i)
    decreases i
  {
    assert forall k | 0 <= k <= i :: p[k] == p[..i + 1][k] && q[k] == q[..i + 1][k];
    if i > 0 {
      assert p[..i] == p[..i + 1][..i] && q[..i] == q[..i + 1][..i];
      FeedAgree(p, q, i - 1);
    }
  }

  // Exactly the legal paths are parsed to the canonical form at every directory on
  // their way.
  lemma CanonicalIffLegal(p: string)
    ensures Legal(p) <==> forall e: nat | Boundary(p, e) :: Components(p[..e]) == Canon(p[..e])
  {
    if Legal(p) {
      LegalAllAlong(p);
      forall e: nat | Boundary(p, e)
        ensures Components(p[..e]) == Canon(p[..e])
      {
        assert forall k | 0 <= k <= e :: p[..e][..k] == p[..k] && LegalSoFar(p, k);
        LegalAllAlong(p[..e]);
        LegalIsCanonical(p[..e]);
      }
    } else {
      var e := FirstIllegal(p);
      IllegalIsNotCanonical(p[..e]);
    }
  }

  // ---------------------------------------------------------------- names and printing

  predicate LegalName(n: string) {
    n != "" && SEP !in n && n != "." && DotsApart(n)
  }

  predicate LegalNames(names: seq<string>) {
    forall n | n in names :: LegalName(n)
  }

  // What is being read: no pair of dots, and a lone dot only when more follows.
  ghost predicate Reading(p: string, i: nat, cur: string)
    requires i <= |p|
  {
    && SEP !in cur && DotsApart(cur)
    && (cur != "" ==> i > 0 && cur[|cur| - 1] == p[i - 1])
    && (cur == "." ==> i > 0 && HasRight(p, i - 1))
    && (i > 0 && p[i - 1] != SEP && p[i - 1] != DOT ==> cur != "")
  }

  lemma {:induction false} FeedNames(p: string, i: nat)
    requires i <= |p|
    ensures LegalNames(Feed(p, i).stack) && Reading(p, i, Feed(p, i).cur)
    decreases i
  {
    if i > 0 {
      FeedNames(p, i - 1);
      var s := Feed(p, i - 1);
      match MoveAt(p, i - 1, s.cur) {
        case Skip =>
        case Close =>
        case Pop =>
        case Append => AppendReads(p, i - 1, s.cur);
      }
    }
  }

  lemma AppendReads(p: string, i: nat, cur: string)
    requires i < |p| && Reading(p, i, cur) && MoveAt(p, i, cur) == Append
    ensures Reading(p, i + 1, cur + [p[i]])
  {
    var v := cur + [p[i]];
    assert forall k | 0 <= k < |cur| :: v[k] == cur[k];
    assert v[|v| - 1] == p[i];
    if cur != "" {
      assert v != "." by {
        assert |v| > 1;
      }
    }
  }

  // Every component the parser returns, of any path, is a legal name.
  lemma ComponentsAreNames(p: string)
    ensures LegalNames(Components(p))
  {
    FeedNames(p, |p|);
  }

  function Join(names: seq<string>): string {
    if names == [] then "" else
      var last := names[|names| - 1];
      if |names| == 1 then last else Join(names[..|names| - 1]) + [SEP] + last
  }

  lemma {:induction false} SplitAppend(q: string, n: string)
    requires SEP !in n
    ensures Parts(q + [SEP] + n) == Parts(q) + [Tail(q)] && Tail(q + [SEP] + n) == n
    decreases |n|
  {
    var p := q + [SEP] + n;
    if n == "" {
      assert p[..|p| - 1] == q;
    } else {
      var n' := n[..|n| - 1];
      SplitAppend(q, n');
      assert p[..|p| - 1] == q + [SEP] + n' && n == n' + [n[|n| - 1]];
      assert p[|p| - 1] == n[|n| - 1];
    }
  }

  lemma {:induction false} SplitName(n: string)
    requires SEP !in n
    ensures Parts(n) == [] && Tail(n) == n
    decreases |n|
  {
    if n != "" {
      SplitName(n[..|n| - 1]);
      assert n == n[..|n| - 1] + [n[|n| - 1]];
    }
  }

  lemma {:induction false} SplitJoin(names: seq<string>)
    requires names != [] && LegalNames(names)
    ensures Split(Join(names)) == names
    decreases |names|
  {
    var init, last := names[..|names| - 1], names[|names| - 1];
    assert LegalName(last);
    assert names == init + [last];
    if init == [] {
      SplitName(last);
    } else {
      SplitJoin(init);
      SplitAppend(Join(init), last);
    }
  }

  lemma TwoDots()
    ensures !DotsApart("..")
  {
    var w := "..";
    assert w[0] == DOT && w[0 + 1] == DOT;
  }

  lemma {:induction false} ResolveNames(names: seq<string>)
    requires LegalNames(names)
    ensures Resolve(names) == names
    decreases |names|
  {
    if names != [] {
      var init, last := names[..|names| - 1], names[|names| - 1];
      ResolveNames(init);
      TwoDots();
      assert LegalName(last) && last != "..";
      assert names == init + [last];
    }
  }

  // Any list of legal names survives printing and parsing.
  lemma NamesRoundTrip(names: seq<string>)
    requires LegalNames(names)
    ensures Components(Join(names)) == names
  {
    if names == [] {
      assert Feed("", 0) == Stream([], "");
    } else {
      SplitJoin(names);
      assert Legal(Join(names));
      LegalIsCanonical(Join(names));
      ResolveNames(names);
    }
  }

  // ---------------------------------------------------------------- laws of paths

  // One more character in the last part, or one more part, on both sides.
  lemma LastPartGrows(a: seq<string>, r: seq<string>, t: string, b: seq<string>, u: string, c: char)
    requires r + [t] == a + (b + [u])
    ensures r + [t] + [""] == a + (b + [u] + [""])
    ensures r + [t + [c]] == a + (b + [u + [c]])
  {
    var s := r + [t];
    assert s[|r|] == t && (a + (b + [u]))[|a| + |b|] == u;
    assert r == s[..|r|] && a + b == (a + (b + [u]))[..|a| + |b|];
    assert r + [t + [c]] == a + b + [u + [c]];
  }

  lemma {:induction false} SplitConcat(p: string, q: string)
    ensures Split(p + [SEP] + q) == Split(p) + Split(q)
    decreases |q|
  {
    if q == "" {
      SplitSnoc(p, SEP);
      assert p + [SEP] + q == p + [SEP];
    } else {
      SplitConcat(p, q[..|q| - 1]);
      SplitConcatStep(p, q[..|q| - 1], q[|q| - 1]);
      assert q == q[..|q| - 1] + [q[|q| - 1]];
    }
  }

  lemma SplitConcatStep(p: string, q: string, c: char)
    requires Split(p + [SEP] + q) == Split(p) + Split(q)
    ensures Split(p + [SEP] + (q + [c])) == Split(p) + Split(q + [c])
  {
    var r, r' := p + [SEP] + q, p + [SEP] + (q + [c]);
    assert r' == r + [c];
    SplitSnoc(r, c);
    SplitSnoc(q, c);
    LastPartGrows(Split(p), Parts(r), Tail(r), Parts(q), Tail(q), c);
  }

  lemma SplitSnoc(p: string, c: char)
    ensures Split(p + [c]) == if c == SEP then Split(p) + [""] else Parts(p) + [Tail(p) + [c]]
  {
    assert (p + [c])[..|p|] == p;
  }

  lemma LegalConcat(p: string, q: string)
    requires Legal(p) && Legal(q)
    ensures Legal(p + [SEP] + q)
  {
    SplitConcat(p, q);
  }

  // Going on from equal directories with the same parts.
  lemma {:induction false} ResolveFrom(a: seq<string>, b: seq<string>, parts: seq<string>)
    requires Resolve(a) == Resolve(b)
    ensures Resolve(a + parts) == Resolve(b + parts)
    decreases |parts|
  {
    if parts == [] {
      assert a + parts == a && b + parts == b;
    } else {
      var init, w := parts[..|parts| - 1], parts[|parts| - 1];
      ResolveFrom(a, b, init);
      ResolveSnoc(a + init, w);
      ResolveSnoc(b + init, w);
      assert a + parts == a + init + [w] && b + parts == b + init + [w];
    }
  }

  // What comes before a legal rest matters by its directory alone.
  lemma SameBefore(p: string, p': string, q: string)
    requires Legal(p) && Legal(p') && Legal(q) && Canon(p) == Canon(p')
    ensures Components(p + [SEP] + q) == Components(p' + [SEP] + q)
  {
    SplitConcat(p, q);
    SplitConcat(p', q);
    ResolveFrom(Split(p), Split(p'), Split(q));
    LegalConcat(p, q);
    LegalConcat(p', q);
    LegalIsCanonical(p + [SEP] + q);
    LegalIsCanonical(p' + [SEP] + q);
  }

  lemma PartPath(p: string, w: string)
    requires Legal(p) && LegalPart(w) && SEP !in w
    ensures Legal(p + [SEP] + w) && Canon(p + [SEP] + w) == Enter(Canon(p), w)
  {
    SplitAppend(p, w);
    ResolveSnoc(Split(p), w);
  }

  // ".." takes back the name before it, and no more, in any legal path.
  lemma UpTakesBack(p: string, n: string, q: string)
    requires Legal(p) && LegalName(n) && Legal(q)
    ensures Components(p + [SEP] + n + [SEP] + ".." + [SEP] + q) == Components(p + [SEP] + q)
    ensures Components(p + [SEP] + n + [SEP] + "..") == Components(p)
  {
    TwoDots();
    PartPath(p, n);
    PartPath(p + [SEP] + n, "..");
    SameBefore(p + [SEP] + n + [SEP] + "..", p, q);
    LegalIsCanonical(p + [SEP] + n + [SEP] + "..");
    LegalIsCanonical(p);
  }

  // "." and the empty part change nothing.
  lemma DotStays(p: string, q: string)
    requires Legal(p) && Legal(q)
    ensures Components(p + [SEP] + "." + [SEP] + q) == Components(p + [SEP] + q)
    ensures Components(p + [SEP] + [SEP] + q) == Components(p + [SEP] + q)
    ensures Components(p + [SEP] + ".") == Components(p) == Components(p + [SEP])
  {
    PartPath(p, ".");
    PartPath(p, "");
    assert p + [SEP] + "" == p + [SEP];
    SameBefore(p + [SEP] + ".", p, q);
    SameBefore(p + [SEP], p, q);
    LegalIsCanonical(p);
    LegalIsCanonical(p + [SEP] + ".");
    LegalIsCanonical(p + [SEP]);
  }

  // A separator at the start changes nothing.
  lemma RootIsStart(q: string)
    requires Legal(q)
    ensures Legal([SEP] + q) && Canon([SEP] + q) == Canon(q)
    ensures Components([SEP] + q) == Components(q)
  {
    EmptyIsLegal();
    assert "" + [SEP] + q == [SEP] + q;
    SplitConcat("", q);
    LegalConcat("", q);
    assert Split("") == [""] && Split([SEP] + q) == [""] + Split(q);
    RootThen(Split(q));
    LegalIsCanonical([SEP] + q);
    LegalIsCanonical(q);
  }

  lemma DotsAtRoot()
    ensures Legal("..") && Canon("..") == [] == Canon("")
  {
    SplitName("..");
    assert Split("..") == [] + [".."];
    ResolveSnoc([], "..");
    assert Split("") == [] + [""];
    ResolveSnoc([], "");
  }

  // At the root ".." stays there, with a separator before it or without.
  lemma UpStopsAtRoot(q: string)
    requires Legal(q)
    ensures Components(".." + [SEP] + q) == Components([SEP] + ".." + [SEP] + q) == Components(q)
    ensures Components("..") == Components([SEP] + "..") == []
  {
    EmptyIsLegal();
    DotsAtRoot();
    RootIsStart("..");
    RootIsStart(q);
    SameBefore("..", "", q);
    SameBefore([SEP] + "..", "", q);
    assert "" + [SEP] + q == [SEP] + q;
    LegalIsCanonical("..");
  }

  lemma RootThen(parts: seq<string>)
    ensures Resolve([""] + parts) == Resolve(parts)
  {
    assert [] + parts == parts;
    ResolveSnoc([], "");
    assert [] + [""] == [""];
    ResolveFrom([""], [], parts);
  }

  // In terms of names: one up from a list of names is the list without its last.
  lemma UpOne(names: seq<string>, n: string, rest: seq<string>)
    requires LegalNames(names + [n]) && LegalNames(rest)
    ensures Components(Join(names + [n]) + [SEP] + "..") == names
    ensures Components(Join(names + [n]) + [SEP] + ".." + [SEP] + Join(rest)) == names + rest
    ensures Components(Join(names + [n]) + [SEP] + "." + [SEP] + Join(rest)) == names + [n] + rest
  {
    var p := Join(names + [n]);
    JoinIsLegal(names + [n]);
    JoinIsLegal(rest);
    assert LegalName((names + [n])[|names|]);
    TwoDots();
    PartPath(p, "..");
    PartPath(p, ".");
    NamesThen(p + [SEP] + "..", rest);
    NamesThen(p + [SEP] + ".", rest);
    LegalIsCanonical(p + [SEP] + "..");
  }

  lemma JoinIsLegal(names: seq<string>)
    requires LegalNames(names)
    ensures Legal(Join(names)) && Canon(Join(names)) == names
  {
    if names == [] {
      EmptyIsLegal();
      assert Resolve([""]) == [];
    } else {
      SplitJoin(names);
      ResolveNames(names);
    }
  }

  lemma NamesThen(p: string, rest: seq<string>)
    requires Legal(p) && LegalNames(rest)
    ensures Components(p + [SEP] + Join(rest)) == Canon(p) + rest
  {
    JoinIsLegal(rest);
    SplitConcat(p, Join(rest));
    LegalConcat(p, Join(rest));
    LegalIsCanonical(p + [SEP] + Join(rest));
    if rest == [] {
      ResolveSnoc(Split(p), "");
    } else {
      SplitJoin(rest);
      ResolveAppend(Split(p), rest);
    }
  }

  lemma {:induction false} ResolveAppend(parts: seq<string>, names: seq<string>)
    requires LegalNames(names)
    ensures Resolve(parts + names) == Resolve(parts) + names
    decreases |names|
  {
    if names == [] {
      assert parts + names == parts;
    } else {
      var init, last := names[..|names| - 1], names[|names| - 1];
      ResolveAppend(parts, init);
      TwoDots();
      assert LegalName(last);
      ResolveSnoc(parts + init, last);
      assert parts + names == parts + init + [last];
    }
  }

  // ---------------------------------------------------------------- lengths

  // Characters of the names, with a separator after each.
  function Weight(names: seq<string>): nat {
    if names == [] then 0 else Weight(names[..|names| - 1]) + |names[|names| - 1]| + 1
  }

  lemma WeightSnoc(names: seq<string>, n: string)
    ensures Weight(names + [n]) == Weight(names) + |n| + 1
    ensures Weight(Dropped(names)) <= Weight(names)
  {
    assert (names + [n])[..|names|] == names;
  }

  lemma {:induction false} FeedWeight(p: string, i: nat)
    requires i <= |p|
    ensures Weight(Feed(p, i).stack) + |Feed(p, i).cur| <= i
    decreases i
  {
    if i > 0 {
      FeedWeight(p, i - 1);
      WeightSnoc(Feed(p, i - 1).stack, Feed(p, i - 1).cur);
    }
  }

  lemma {:induction false} JoinLength(names: seq<string>)
    ensures |Join(names)| == if names == [] then 0 else Weight(names) - 1
    decreases |names|
  {
    if |names| > 1 {
      JoinLength(names[..|names| - 1]);
    } else if |names| == 1 {
      assert names[..0] == [];
    }
  }

  // Printing the components of any path gives a path no longer than it that has the
  // same components.
  lemma PrintParse(p: string)
    ensures Components(Join(Components(p))) == Components(p)
    ensures |Join(Components(p))| <= |p|
  {
    ComponentsAreNames(p);
    NamesRoundTrip(Components(p));
    FeedWeight(p, |p|);
    JoinLength(Components(p));
    WeightSnoc(Feed(p, |p|).stack, Feed(p, |p|).cur);
  }

  // ---------------------------------------------------------------- the table

  const MAX_NAME := 256   // characters of a row
  const MAX_DEPTH := 128  // rows

  // OutOfRow stands for a write outside its row, which the code makes: at the start of the
  // next row, or behind the caller's table.
  datatype ParseFlag = Ok | NameTooLong | OutOfRow

  predicate CellFits(s: Stream) {
    |s.stack| < MAX_DEPTH && |s.cur| < MAX_NAME
  }

  // Every write for the first `i` characters lies in its row.
  predicate FitsUpTo(p: string, i: nat)
    requires i <= |p|
  {
    forall k | 0 <= k < i && MoveAt(p, k, Feed(p, k).cur) in {Close, Append} :: CellFits(Feed(p, k))
  }

  // The length check looks at index 257 at the latest.
  function ParseResult(p: string): ParseFlag {
    if !FitsUpTo(p, if |p| <= MAX_NAME + 1 then |p| else MAX_NAME + 1) then OutOfRow
    else if |p| > MAX_NAME + 1 then NameTooLong
    else if Feed(p, |p|).cur != "" && !CellFits(Feed(p, |p|)) then OutOfRow
    else Ok
  }

  ghost predicate RowHolds(rows: array2<char>, d: nat, name: string)
    requires rows.Length0 == MAX_DEPTH && rows.Length1 == MAX_NAME
    reads rows
  {
    && d < MAX_DEPTH && |name| < MAX_NAME && rows[d, |name|] == NUL
    && forall k | 0 <= k < |name| :: rows[d, k] == name[k]
  }

  ghost predicate TableHolds(rows: array2<char>, names: seq<string>)
    requires rows.Length0 == MAX_DEPTH && rows.Length1 == MAX_NAME
    reads rows
  {
    forall d | 0 <= d < |names| :: RowHolds(rows, d, names[d])
  }

  // The parser. Where it returns Ok, each row of the table holds a component and the
  // terminating NUL.
  method ParsePath(p: string, rows: array2<char>) returns (flag: ParseFlag, depth: nat)
    requires NUL !in p && rows.Length0 == MAX_DEPTH && rows.Length1 == MAX_NAME
    modifies rows
    ensures flag == ParseResult(p)
    ensures flag == Ok ==> depth == |Components(p)| <= MAX_DEPTH && TableHolds(rows, Components(p))
  {
    var read, writeDepth, write := 0, 0, 0;
    depth := 0;
    while read < |p|
      invariant read <= |p| && read <= MAX_NAME + 1 && FitsUpTo(p, read)
      invariant writeDepth == |Feed(p, read).stack| <= MAX_DEPTH && write == |Feed(p, read).cur|
      invariant TableHolds(rows, Feed(p, read).stack)
      invariant write > 0 ==> writeDepth < MAX_DEPTH && write <= MAX_NAME
      invariant forall k | 0 <= k < write :: rows[writeDepth, k] == Feed(p, read).cur[k]
    {
      ghost var s := Feed(p, read);
      if read > MAX_NAME {
        return NameTooLong, 0;
      }
      if writeDepth > MAX_DEPTH {
        assert false;
      }
      if p[read] == SEP {
        if write > 0 {
          if writeDepth >= MAX_DEPTH || write >= MAX_NAME {
            return OutOfRow, 0;
          }
          rows[writeDepth, write] := NUL;
          writeDepth, write := writeDepth + 1, 0;
        }
      } else if p[read] == DOT && read > 0 && p[read - 1] == DOT {
        writeDepth, write := if writeDepth > 0 then writeDepth - 1 else 0, 0;
      } else if p[read] == DOT && !HasLeft(p, read) && !HasRight(p, read) {
      } else {
        if writeDepth >= MAX_DEPTH || write >= MAX_NAME {
          return OutOfRow, 0;
        }
        rows[writeDepth, write] := p[read];
        write := write + 1;
      }
      read := read + 1;
    }
    if write > 0 {
      if writeDepth >= MAX_DEPTH || write >= MAX_NAME {
        return OutOfRow, 0;
      }
      rows[writeDepth, write] := NUL;
    }
    return Ok, if write > 0 then writeDepth + 1 else writeDepth;
  }

  lemma {:induction false} FeedNoNul(p: string, i: nat)
    requires i <= |p| && NUL !in p
    ensures forall n | n in Feed(p, i).stack :: NUL !in n
    ensures NUL !in Feed(p, i).cur
    decreases i
  {
    if i > 0 {
      FeedNoNul(p, i - 1);
    }
  }

  // A row read as a C string.
  method ReadRow(rows: array2<char>, d: nat, ghost name: string) returns (s: string)
    requires rows.Length0 == MAX_DEPTH && rows.Length1 == MAX_NAME && RowHolds(rows, d, name) && NUL !in name
    ensures s == name
  {
    s := [];
    var k := 0;
    while rows[d, k] != NUL
      invariant k <= |name| && s == name[..k]
      decreases |name| - k
    {
      assert name[..k + 1] == name[..k] + [name[k]];
      s := s + [rows[d, k]];
      k := k + 1;
    }
  }

  // The parser as its callers use it: on a table of their own, read back row by row.
  method ParseNames(p: string) returns (flag: ParseFlag, names: seq<string>)
    requires NUL !in p
    ensures flag == ParseResult(p)
    ensures flag == Ok ==> names == Components(p)
  {
    var rows := new char[MAX_DEPTH, MAX_NAME];
    var depth;
    flag, depth := ParsePath(p, rows);
    names := [];
    if flag == Ok {
      FeedNoNul(p, |p|);
      for d := 0 to depth
        invariant names == Components(p)[..d] && TableHolds(rows, Components(p))
      {
        var name := ReadRow(rows, d, Components(p)[d]);
        names := names + [name];
      }
    }
  }

  // ---------------------------------------------------------------- which paths fit

  lemma {:induction false} WeightOfNames(names: seq<string>)
    requires LegalNames(names)
    ensures 2 * |names| <= Weight(names)
    decreases |names|
  {
    if names != [] {
      WeightOfNames(names[..|names| - 1]);
      assert LegalName(names[|names| - 1]);
    }
  }

  // Up to 255 characters every write lies in its row and the parser succeeds.
  lemma ShortPathsFit(p: string)
    requires |p| < MAX_NAME
    ensures ParseResult(p) == Ok && |Components(p)| <= MAX_DEPTH
  {
    forall i | 0 <= i <= |p|
      ensures 2 * |Feed(p, i).stack| + |Feed(p, i).cur| <= i
    {
      FeedFits(p, i);
    }
  }

  // A path that is accepted has components shorter than a row.
  lemma ComponentsAreShort(p: string)
    requires ParseResult(p) == Ok
    ensures forall n | n in Components(p) :: |n| < MAX_NAME
  {
    StackIsShort(p, |p|);
  }

  lemma {:induction false} StackIsShort(p: string, i: nat)
    requires i <= |p| && FitsUpTo(p, i)
    ensures forall n | n in Feed(p, i).stack :: |n| < MAX_NAME
    decreases i
  {
    if i > 0 {
      StackIsShort(p, i - 1);
    }
  }

  // In `k` characters there are at most `k / 2` components before the one being read.
  lemma FeedFits(p: string, k: nat)
    requires k <= |p|
    ensures 2 * |Feed(p, k).stack| + |Feed(p, k).cur| <= k
  {
    FeedNames(p, k);
    FeedWeight(p, k);
    WeightOfNames(Feed(p, k).stack);
  }

  // Exactly the paths of up to 257 characters are accepted whose components fit in the
  // rows: each has at most 255 characters, and there are no more than 128.
  lemma AcceptedIff(p: string)
    ensures ParseResult(p) == Ok <==>
            |p| <= MAX_NAME + 1 && |Components(p)| <= MAX_DEPTH && forall n | n in Components(p) :: |n| < MAX_NAME
  {
    FeedFits(p, |p|);
    if ParseResult(p) == Ok {
      ComponentsAreShort(p);
    } else if |p| <= MAX_NAME + 1 {
      var s := Feed(p, |p|);
      if !FitsUpTo(p, |p|) {
        var k :| 0 <= k < |p| && MoveAt(p, k, Feed(p, k).cur) in {Close, Append} && !CellFits(Feed(p, k));
        FeedFits(p, k);
        assert k == MAX_NAME && s == FeedOne(p, k, Feed(p, k));
      }
      assert s.cur != "" ==> Components(p)[|s.stack|] == s.cur;
      assert s.stack != [] ==> Components(p)[|s.stack| - 1] == s.stack[|s.stack| - 1];
    }
  }

  function Plain(n: nat): string {
    seq(n, _ => 'a')
  }

  lemma {:induction false} FeedPlain(n: nat, i: nat)
    requires i <= n
    ensures Feed(Plain(n), i) == Stream([], Plain(i))
    decreases i
  {
    if i > 0 {
      FeedPlain(n, i - 1);
      assert Plain(i - 1) + ['a'] == Plain(i);
    }
  }

  // The bound is exact: from 256 characters on some path is refused or written outside
  // a row.
  lemma ShortIsNeeded(n: nat)
    ensures (forall p: string | |p| == n :: ParseResult(p) == Ok) <==> n < MAX_NAME
  {
    if n < MAX_NAME {
      forall p: string | |p| == n
        ensures ParseResult(p) == Ok
      {
        ShortPathsFit(p);
      }
    } else {
      var p := Plain(n);
      FeedPlain(n, MAX_NAME);
      if n > MAX_NAME {
        assert MoveAt(p, MAX_NAME, Feed(p, MAX_NAME).cur) == Append;
        assert !CellFits(Feed(p, MAX_NAME));
      }
      assert |p| == n && ParseResult(p) != Ok;
    }
  }
}
