// The directory tree of the mounted file system: resolving paths by walking, and what
// creating and opening do to the resolution of every path.
module Tree {
  import opened Options
  import opened Paths

  const MAX_CHILDREN := 1024

  datatype Mode = Directory | Regular

  datatype Child = Child(name: string, node: nat)

  // The file system's part of an inode. An inode whose part was taken away is unbound.
  datatype Private = Private(file: nat, children: seq<Child>, parent: Option<nat>)

  datatype Inode = Inode(ino: nat, mode: Mode, size: nat, private: Option<Private>)

  // Inodes by address, the root first, and the counters for inode numbers and buffers.
  datatype Fs = Fs(nodes: seq<Inode>, nextIno: nat, nextFile: nat)

  // Fault and Broken stand for an access through the null pointer of an unbound inode.
  datatype Code = Success | NameTooLong | NoEntry | Exists | Invalid | NoSpace | Fault

  datatype Found = At(node: nat) | Absent | Broken

  // ---------------------------------------------------------------- lookup

  function IndexOf(children: seq<Child>, name: string): Option<nat> {
    if children == [] then None
    else if children[0].name == name then Some(0)
    else match IndexOf(children[1..], name) case None => None case Some(i) => Some(i + 1)
  }

  lemma {:induction false} IndexOfIs(children: seq<Child>, name: string)
    ensures match IndexOf(children, name)
            case None => forall i | 0 <= i < |children| :: children[i].name != name
            case Some(k) =>
              && k < |children| && children[k].name == name
              && forall i | 0 <= i < k :: children[i].name != name
    decreases |children|
  {
    if children != [] {
      IndexOfIs(children[1..], name);
      assert forall i | 1 <= i < |children| :: children[i] == children[1..][i - 1];
    }
  }

  function Lookup(node: Inode, name: string): Found {
    if node.private.None? then Broken
    else if node.mode != Directory then Absent
    else match IndexOf(node.private.value.children, name)
      case None => Absent
      case Some(k) =>
        IndexOfIs(node.private.value.children, name);
        At(node.private.value.children[k].node)
  }

  // The node that a list of names leads to from the root.
  function Find(fs: Fs, names: seq<string>): Found
    decreases |names|
  {
    if names == [] then At(0) else
      match Find(fs, names[..|names| - 1])
      case At(d) => if d < |fs.nodes| then Lookup(fs.nodes[d], names[|names| - 1]) else Broken
      case other => other
  }

  // ---------------------------------------------------------------- the tree

  function Children(node: Inode): seq<Child> {
    if node.private.None? then [] else node.private.value.children
  }

  ghost predicate NamesDistinct(children: seq<Child>) {
    forall i, j | 0 <= i < j < |children| :: children[i].name != children[j].name
  }

  // Child entries lead to later inodes and carry names that the parser returns.
  ghost predicate EntriesOk(nodes: seq<Inode>) {
    forall d, i {:trigger Children(nodes[d])[i]} | 0 <= d < |nodes| && 0 <= i < |Children(nodes[d])| ::
      d < Children(nodes[d])[i].node < |nodes| && LegalName(Children(nodes[d])[i].name)
  }

  ghost predicate SiblingsOk(nodes: seq<Inode>) {
    forall d | 0 <= d < |nodes| :: NamesDistinct(Children(nodes[d])) && |Children(nodes[d])| <= MAX_CHILDREN
  }

  // No inode is entered twice.
  ghost predicate OneEntry(nodes: seq<Inode>) {
    forall d, i, e, j {:trigger Children(nodes[d])[i], Children(nodes[e])[j]} |
      && 0 <= d < |nodes| && 0 <= i < |Children(nodes[d])|
      && 0 <= e < |nodes| && 0 <= j < |Children(nodes[e])|
      && Children(nodes[d])[i].node == Children(nodes[e])[j].node :: d == e && i == j
  }

  ghost predicate TreeOk(fs: Fs) {
    |fs.nodes| > 0 && fs.nodes[0].mode == Directory && EntriesOk(fs.nodes) && SiblingsOk(fs.nodes) && OneEntry(fs.nodes)
  }

  lemma {:induction false} FoundIsNode(fs: Fs, names: seq<string>)
    requires TreeOk(fs) && Find(fs, names).At?
    ensures Find(fs, names).node < |fs.nodes|
    ensures names != [] ==> Find(fs, names).node > 0
    decreases |names|
  {
    if names != [] {
      FoundIsNode(fs, names[..|names| - 1]);
      var d := Find(fs, names[..|names| - 1]).node;
      IndexOfIs(Children(fs.nodes[d]), names[|names| - 1]);
      var k := IndexOf(Children(fs.nodes[d]), names[|names| - 1]).value;
      assert Find(fs, names).node == Children(fs.nodes[d])[k].node;
    }
  }

  // No two paths lead to one node.
  lemma {:induction false} OnePath(fs: Fs, u: seq<string>, v: seq<string>)
    requires TreeOk(fs) && Find(fs, u).At? && Find(fs, u) == Find(fs, v)
    ensures u == v
    decreases |u|
  {
    FoundIsNode(fs, u);
    FoundIsNode(fs, v);
    if u != [] && v != [] {
      var u', v' := u[..|u| - 1], v[..|v| - 1];
      FoundIsNode(fs, u');
      FoundIsNode(fs, v');
      var d, e := Find(fs, u').node, Find(fs, v').node;
      IndexOfIs(Children(fs.nodes[d]), u[|u| - 1]);
      IndexOfIs(Children(fs.nodes[e]), v[|v| - 1]);
      var i, j := IndexOf(Children(fs.nodes[d]), u[|u| - 1]).value, IndexOf(Children(fs.nodes[e]), v[|v| - 1]).value;
      assert Children(fs.nodes[d])[i].node == Children(fs.nodes[e])[j].node;
      OnePath(fs, u', v');
      assert u == u' + [u[|u| - 1]] && v == v' + [v[|v| - 1]];
    }
  }

  // ---------------------------------------------------------------- the operations

  // What came of parsing a path and walking to its parent.
  datatype Target = Stop(code: Code) | RootItself | In(dir: nat, name: string)

  function Locate(fs: Fs, path: string): Target {
    match ParseResult(path)
    case NameTooLong => Stop(Code.NameTooLong)
    case OutOfRow => Stop(Fault)
    case Ok =>
      var names := Components(path);
      if names == [] then RootItself else
        match Find(fs, names[..|names| - 1])
        case Absent => Stop(NoEntry)
        case Broken => Stop(Fault)
        case At(d) => In(d, names[|names| - 1])
  }

  // `ramfs_putchild`: a node that has its part gains a child.
  function PutChild(node: Inode, child: Child): (Code, Inode)
    requires node.private.Some?
  {
    var c := node.private.value.children;
    if |c| >= MAX_CHILDREN then (NoSpace, node)
    else if IndexOf(c, child.name).Some? then (Exists, node)
    else (Success, node.(private := Some(node.private.value.(children := c + [child]))))
  }

  // Attach the new node `n` under `name` in directory `d`.
  function Attach(fs: Fs, d: nat, name: string, n: Inode): Fs
    requires d < |fs.nodes| && fs.nodes[d].private.Some?
  {
    fs.(nodes := fs.nodes[d := PutChild(fs.nodes[d], Child(name, |fs.nodes|)).1] + [n])
  }

  function Mkdir(fs: Fs, path: string): (Code, Fs) {
    match Locate(fs, path)
    case Stop(code) => (code, fs)
    case RootItself => (Exists, fs)
    case In(d, name) => if d < |fs.nodes| then MakeIn(fs, d, name) else (Fault, fs)
  }

  function MakeIn(fs: Fs, d: nat, name: string): (Code, Fs)
    requires d < |fs.nodes|
  {
    match Lookup(fs.nodes[d], name)
    case At(_) => (Exists, fs)
    case Broken => (Fault, fs)
    case Absent =>
      var fs1 := fs.(nextIno := fs.nextIno + 1);
      if fs.nodes[d].mode != Directory then (Invalid, fs1) else
        var (code, _) := PutChild(fs.nodes[d], Child(name, |fs.nodes|));
        if code != Success then (code, fs1)
        else (Success, Attach(fs1, d, name, Inode(fs.nextIno, Directory, 0, Some(Private(0, [], Some(d))))))
  }

  datatype Flags = Flags(creat: bool, excl: bool, trunc: bool)

  // The code, the node opened and the tree after.
  function Open(fs: Fs, path: string, flags: Flags): (Code, Option<nat>, Fs) {
    match Locate(fs, path)
    case Stop(code) => (code, None, fs)
    case RootItself => (Success, Some(0), fs)
    case In(d, name) => if d < |fs.nodes| then OpenIn(fs, d, name, flags) else (Fault, None, fs)
  }

  function OpenIn(fs: Fs, d: nat, name: string, flags: Flags): (Code, Option<nat>, Fs)
    requires d < |fs.nodes|
  {
    match Lookup(fs.nodes[d], name)
    case Broken => (Fault, None, fs)
    case Absent => if flags.creat then Create(fs, d, name) else (NoEntry, None, fs)
    case At(n) => if n < |fs.nodes| then OpenExisting(fs, d, n, flags) else (Fault, None, fs)
  }

  function Create(fs: Fs, d: nat, name: string): (Code, Option<nat>, Fs)
    requires d < |fs.nodes|
  {
    if fs.nodes[d].private.None? then (Fault, None, fs) else
      var fs1 := fs.(nextIno := fs.nextIno + 1, nextFile := fs.nextFile + 1);
      var (code, _) := PutChild(fs.nodes[d], Child(name, |fs.nodes|));
      if code != Success then (code, None, fs1)
      else
        var node := Inode(fs.nextIno, Regular, 0, Some(Private(fs.nextFile, [], Some(d))));
        (Success, Some(|fs.nodes|), Attach(fs1, d, name, node))
  }

  // With the create flag an existing inode is given a new part, fails to be put under
  // its own name, and is left unbound.
  function OpenExisting(fs: Fs, d: nat, n: nat, flags: Flags): (Code, Option<nat>, Fs)
    requires d < |fs.nodes| && n < |fs.nodes|
  {
    if flags.creat && flags.excl then (Exists, None, fs) else
      var node := if flags.trunc then fs.nodes[n].(size := 0) else fs.nodes[n];
      if flags.creat then
        (if |Children(fs.nodes[d])| >= MAX_CHILDREN then NoSpace else Exists, None,
         fs.(nodes := fs.nodes[n := node.(private := None)], nextFile := fs.nextFile + 1))
      else if node.private.None? then (Invalid, None, fs.(nodes := fs.nodes[n := node]))
      else (Success, Some(n), fs.(nodes := fs.nodes[n := node]))
  }

  // ---------------------------------------------------------------- attaching a child

  lemma {:induction false} IndexOfSnoc(c: seq<Child>, child: Child, x: string)
    ensures IndexOf(c + [child], x) ==
            if IndexOf(c, x).Some? then IndexOf(c, x) else if child.name == x then Some(|c|) else None
    decreases |c|
  {
    if c == [] {
      assert (c + [child])[1..] == [];
    } else {
      assert (c + [child])[1..] == c[1..] + [child];
      IndexOfSnoc(c[1..], child, x);
    }
  }

  // The state of affairs in which `name` can be put into node `d`.
  ghost predicate Attachable(fs: Fs, d: nat, name: string, n: Inode) {
    && TreeOk(fs) && d < |fs.nodes| && fs.nodes[d].private.Some?
    && |Children(fs.nodes[d])| < MAX_CHILDREN && IndexOf(Children(fs.nodes[d]), name).None?
    && LegalName(name) && n.private.Some? && Children(n) == []
  }

  lemma AttachChildren(fs: Fs, d: nat, name: string, n: Inode, e: nat)
    requires Attachable(fs, d, name, n) && e <= |fs.nodes|
    ensures var fs' := Attach(fs, d, name, n);
            && |fs'.nodes| == |fs.nodes| + 1
            && Children(fs'.nodes[e]) ==
               (if e == |fs.nodes| then []
                else if e == d then Children(fs.nodes[d]) + [Child(name, |fs.nodes|)] else Children(fs.nodes[e]))
            && (e < |fs.nodes| ==> fs'.nodes[e].mode == fs.nodes[e].mode)
  {
  }

  // The entries of the tree after, in terms of those before.
  ghost predicate Attached(nodes: seq<Inode>, d: nat, name: string, nodes': seq<Inode>) {
    && |nodes'| == |nodes| + 1 && d < |nodes| && Children(nodes'[|nodes|]) == []
    && (forall e | 0 <= e < |nodes| && e != d :: Children(nodes'[e]) == Children(nodes[e]))
    && Children(nodes'[d]) == Children(nodes[d]) + [Child(name, |nodes|)]
  }

  lemma AttachedOneEntry(nodes: seq<Inode>, d: nat, name: string, nodes': seq<Inode>)
    requires EntriesOk(nodes) && OneEntry(nodes) && Attached(nodes, d, name, nodes')
    ensures OneEntry(nodes')
  {
    forall e: nat, i: nat | e < |nodes'| && i < |Children(nodes'[e])|
      ensures if e == d && i == |Children(nodes[d])| then Children(nodes'[e])[i].node == |nodes|
              else e < |nodes| && i < |Children(nodes[e])| && Children(nodes'[e])[i] == Children(nodes[e])[i]
                   && Children(nodes'[e])[i].node < |nodes|
    {
    }
  }

  lemma AttachedSiblings(nodes: seq<Inode>, d: nat, name: string, nodes': seq<Inode>)
    requires SiblingsOk(nodes) && Attached(nodes, d, name, nodes')
    requires |Children(nodes[d])| < MAX_CHILDREN && IndexOf(Children(nodes[d]), name).None?
    ensures SiblingsOk(nodes')
  {
    IndexOfIs(Children(nodes[d]), name);
  }

  lemma AttachedEntries(nodes: seq<Inode>, d: nat, name: string, nodes': seq<Inode>)
    requires EntriesOk(nodes) && Attached(nodes, d, name, nodes') && LegalName(name)
    ensures EntriesOk(nodes')
  {
  }

  lemma AttachTreeOk(fs: Fs, d: nat, name: string, n: Inode)
    requires Attachable(fs, d, name, n)
    ensures TreeOk(Attach(fs, d, name, n))
  {
    var fs' := Attach(fs, d, name, n);
    assert Attached(fs.nodes, d, name, fs'.nodes);
    AttachedEntries(fs.nodes, d, name, fs'.nodes);
    AttachedSiblings(fs.nodes, d, name, fs'.nodes);
    AttachedOneEntry(fs.nodes, d, name, fs'.nodes);
    AttachChildren(fs, d, name, n, 0);
  }

  lemma LookupAttached(fs: Fs, d: nat, name: string, n: Inode, e: nat, x: string)
    requires Attachable(fs, d, name, n) && e <= |fs.nodes|
    ensures Lookup(Attach(fs, d, name, n).nodes[e], x) ==
            if e == |fs.nodes| then Absent
            else if e == d && x == name && fs.nodes[d].mode == Directory then At(|fs.nodes|)
            else Lookup(fs.nodes[e], x)
  {
    AttachChildren(fs, d, name, n, e);
    if e == d {
      IndexOfSnoc(Children(fs.nodes[d]), Child(name, |fs.nodes|), x);
      IndexOfIs(Children(fs.nodes[d]), x);
      IndexOfIs(Children(fs.nodes[d]) + [Child(name, |fs.nodes|)], x);
    }
  }

  // In a directory exactly the new path resolves anew, to the new node; under a
  // regular file no path does.
  lemma {:induction false} AttachFrame(fs: Fs, d: nat, dir: seq<string>, name: string, n: Inode, q: seq<string>)
    requires Attachable(fs, d, name, n) && Find(fs, dir) == At(d)
    ensures Find(Attach(fs, d, name, n), q) ==
            if fs.nodes[d].mode == Directory && q == dir + [name] then At(|fs.nodes|) else Find(fs, q)
    decreases |q|
  {
    if q != [] {
      var u, x := q[..|q| - 1], q[|q| - 1];
      assert q == u + [x];
      AttachFrame(fs, d, dir, name, n, u);
      assert q == dir + [name] <==> u == dir && x == name by {
        if q == dir + [name] {
          assert u == (dir + [name])[..|dir|] == dir;
        }
      }
      AttachStep(fs, d, dir, name, n, u, x);
    }
  }

  lemma AttachStep(fs: Fs, d: nat, dir: seq<string>, name: string, n: Inode, u: seq<string>, x: string)
    requires Attachable(fs, d, name, n) && Find(fs, dir) == At(d)
    requires Find(Attach(fs, d, name, n), u) ==
             if fs.nodes[d].mode == Directory && u == dir + [name] then At(|fs.nodes|) else Find(fs, u)
    ensures Find(Attach(fs, d, name, n), u + [x]) ==
            if fs.nodes[d].mode == Directory && u == dir && x == name then At(|fs.nodes|) else Find(fs, u + [x])
  {
    FindSnoc(fs, u, x);
    FindSnoc(Attach(fs, d, name, n), u, x);
    if u == dir + [name] {
      FindSnoc(fs, dir, name);
      LookupAttached(fs, d, name, n, d, name);
      LookupAttached(fs, d, name, n, |fs.nodes|, x);
      IndexOfIs(Children(fs.nodes[d]), name);
    } else if Find(fs, u).At? {
      FoundIsNode(fs, u);
      LookupAttached(fs, d, name, n, Find(fs, u).node, x);
      if Find(fs, u) == At(d) {
        OnePath(fs, u, dir);
      }
    }
  }

  lemma FindSnoc(fs: Fs, u: seq<string>, x: string)
    ensures Find(fs, u + [x]) ==
            match Find(fs, u)
            case At(d) => if d < |fs.nodes| then Lookup(fs.nodes[d], x) else Broken
            case other => other
  {
    assert (u + [x])[..|u|] == u;
  }

  // Both, with the counters advanced first.
  lemma AttachEffect(fs: Fs, fs1: Fs, d: nat, dir: seq<string>, name: string, n: Inode, q: seq<string>)
    requires Attachable(fs, d, name, n) && Find(fs, dir) == At(d) && fs1.nodes == fs.nodes
    ensures TreeOk(Attach(fs1, d, name, n))
    ensures Find(Attach(fs1, d, name, n), q) ==
            if fs.nodes[d].mode == Directory && q == dir + [name] then At(|fs.nodes|) else Find(fs, q)
  {
    assert Attachable(fs1, d, name, n);
    CountersFrame(fs, fs1, q);
    CountersFrame(fs, fs1, dir);
    AttachTreeOk(fs1, d, name, n);
    AttachFrame(fs1, d, dir, name, n, q);
  }

  // ---------------------------------------------------------------- changing a node in place

  // Node `n` with its size changed at most: every path resolves as before.
  lemma {:induction false} SizeFrame(fs: Fs, fs': Fs, q: seq<string>)
    requires TreeOk(fs) && |fs'.nodes| == |fs.nodes|
    requires forall e | 0 <= e < |fs.nodes| :: fs'.nodes[e] == fs.nodes[e].(size := fs'.nodes[e].size)
    ensures TreeOk(fs') && Find(fs', q) == Find(fs, q)
    decreases |q|
  {
    assert forall e | 0 <= e < |fs.nodes| :: Children(fs'.nodes[e]) == Children(fs.nodes[e]);
    if q != [] {
      SizeFrame(fs, fs', q[..|q| - 1]);
      if Find(fs, q[..|q| - 1]).At? {
        FoundIsNode(fs, q[..|q| - 1]);
      }
    }
  }

  predicate Below(q: seq<string>, p: seq<string>) {
    |p| < |q| && p == q[..|p|]
  }

  // Unbinding the node at path `p` makes every walk below it fault, and no other.
  lemma {:induction false} UnbindFrame(fs: Fs, fs': Fs, p: seq<string>, q: seq<string>)
    requires TreeOk(fs) && |fs'.nodes| == |fs.nodes| && Find(fs, p).At? && Find(fs, p).node < |fs.nodes|
    requires fs'.nodes[Find(fs, p).node].private.None?
    requires forall e | 0 <= e < |fs.nodes| && e != Find(fs, p).node :: fs'.nodes[e] == fs.nodes[e]
    ensures Find(fs', q) == if Below(q, p) then Broken else Find(fs, q)
    decreases |q|
  {
    if q != [] {
      var u := q[..|q| - 1];
      UnbindFrame(fs, fs', p, u);
      if u == p {
        assert Below(q, p);
      } else {
        assert Below(q, p) <==> Below(u, p) by {
          if Below(u, p) {
            assert q[..|p|] == u[..|p|];
          }
          if Below(q, p) {
            assert |u| >= |p| && u[..|p|] == q[..|p|];
            assert u[..|u|] == u;
          }
        }
        if Find(fs, u).At? {
          FoundIsNode(fs, u);
          if Find(fs, u) == Find(fs, p) {
            OnePath(fs, u, p);
          }
        }
      }
    }
  }

  lemma UnbindTreeOk(fs: Fs, fs': Fs, n: nat)
    requires TreeOk(fs) && |fs'.nodes| == |fs.nodes| && n < |fs.nodes|
    requires fs'.nodes[n].private.None? && fs'.nodes[n].mode == fs.nodes[n].mode
    requires forall e | 0 <= e < |fs.nodes| && e != n :: fs'.nodes[e] == fs.nodes[e]
    ensures TreeOk(fs')
  {
    forall e | 0 <= e < |fs.nodes|
      ensures Children(fs'.nodes[e]) == if e == n then [] else Children(fs.nodes[e])
    {
    }
    FewerEntries(fs.nodes, fs'.nodes, n);
  }

  lemma FewerEntries(nodes: seq<Inode>, nodes': seq<Inode>, n: nat)
    requires EntriesOk(nodes) && SiblingsOk(nodes) && OneEntry(nodes) && |nodes'| == |nodes|
    requires forall e | 0 <= e < |nodes| :: Children(nodes'[e]) == if e == n then [] else Children(nodes[e])
    ensures EntriesOk(nodes') && SiblingsOk(nodes') && OneEntry(nodes')
  {
  }

  // ---------------------------------------------------------------- what the calls do

  function Parent(names: seq<string>): seq<string>
    requires names != []
  {
    names[..|names| - 1]
  }

  // The path can be created: a legal parent directory with room, and no such name.
  ghost predicate Creatable(fs: Fs, path: string) {
    var names := Components(path);
    && ParseResult(path) == ParseFlag.Ok && names != []
    && Find(fs, Parent(names)).At? && Find(fs, Parent(names)).node < |fs.nodes|
    && Find(fs, names) == Absent
    && var siblings := Children(fs.nodes[Find(fs, Parent(names)).node]);
       |siblings| < MAX_CHILDREN && IndexOf(siblings, names[|names| - 1]).None?
  }

  ghost predicate InDirectory(fs: Fs, path: string)
    requires Creatable(fs, path)
  {
    fs.nodes[Find(fs, Parent(Components(path))).node].mode == Directory
  }

  // `vfs_mkdir` succeeds exactly for creatable paths in a directory. It then makes
  // exactly that path resolve to a new node; when it fails nothing changes.
  lemma MkdirEffect(fs: Fs, path: string, q: seq<string>)
    requires TreeOk(fs)
    ensures var (code, fs') := Mkdir(fs, path);
            && (code == Success <==> Creatable(fs, path) && InDirectory(fs, path))
            && Find(fs', q) == (if code == Success && q == Components(path) then At(|fs.nodes|) else Find(fs, q))
            && TreeOk(fs')
  {
    var names := Components(path);
    if ParseResult(path) == ParseFlag.Ok && names != [] {
      var dir, name := Parent(names), names[|names| - 1];
      ComponentsAreNames(path);
      assert LegalName(name) && names == dir + [name];
      if Find(fs, dir).At? {
        FoundIsNode(fs, dir);
        MakeInEffect(fs, Find(fs, dir).node, dir, name, q);
      }
    }
  }

  lemma MakeSucceeds(fs: Fs, d: nat, name: string)
    requires d < |fs.nodes|
    ensures MakeIn(fs, d, name).0 == Success <==>
            Lookup(fs.nodes[d], name) == Absent && fs.nodes[d].mode == Directory
            && |Children(fs.nodes[d])| < MAX_CHILDREN && IndexOf(Children(fs.nodes[d]), name).None?
    ensures MakeIn(fs, d, name).0 != Success ==> MakeIn(fs, d, name).1.nodes == fs.nodes
  {
  }

  lemma MakeInEffect(fs: Fs, d: nat, dir: seq<string>, name: string, q: seq<string>)
    requires TreeOk(fs) && d < |fs.nodes| && Find(fs, dir) == At(d) && LegalName(name)
    ensures var (code, fs') := MakeIn(fs, d, name);
            && (code == Success <==> Lookup(fs.nodes[d], name) == Absent && fs.nodes[d].mode == Directory
                                       && |Children(fs.nodes[d])| < MAX_CHILDREN
                                       && IndexOf(Children(fs.nodes[d]), name).None?)
            && Find(fs', q) == (if code == Success && q == dir + [name] then At(|fs.nodes|) else Find(fs, q))
            && TreeOk(fs')
  {
    var fs1 := fs.(nextIno := fs.nextIno + 1);
    MakeSucceeds(fs, d, name);
    if MakeIn(fs, d, name).0 == Success {
      var n := Inode(fs.nextIno, Directory, 0, Some(Private(0, [], Some(d))));
      MakeAttaches(fs, d, name);
      AttachEffect(fs, fs1, d, dir, name, n, q);
    } else {
      CountersFrame(fs, MakeIn(fs, d, name).1, q);
    }
  }

  lemma MakeAttaches(fs: Fs, d: nat, name: string)
    requires TreeOk(fs) && d < |fs.nodes| && LegalName(name) && MakeIn(fs, d, name).0 == Success
    ensures var n := Inode(fs.nextIno, Directory, 0, Some(Private(0, [], Some(d))));
            && Attachable(fs, d, name, n)
            && MakeIn(fs, d, name).1 == Attach(fs.(nextIno := fs.nextIno + 1), d, name, n)
  {
  }

  lemma {:induction false} CountersFrame(fs: Fs, fs': Fs, q: seq<string>)
    requires fs'.nodes == fs.nodes
    ensures Find(fs', q) == Find(fs, q)
    decreases |q|
  {
    if q != [] {
      CountersFrame(fs, fs', q[..|q| - 1]);
    }
  }

  // The open unbinds the node: it has the create flag, not the exclusive one, and the
  // path is there.
  ghost predicate Unbinds(fs: Fs, path: string, flags: Flags) {
    && ParseResult(path) == ParseFlag.Ok && Components(path) != []
    && Find(fs, Components(path)).At? && flags.creat && !flags.excl
  }

  // `vfs_open` of a creatable path in a directory makes exactly that path resolve to
  // the new node. Under a regular file it succeeds as well, but no path resolves
  // anew. An unbinding open fails and cuts off everything below the path. Otherwise
  // all resolutions stay.
  ghost predicate OpenedAs(fs: Fs, path: string, flags: Flags, q: seq<string>) {
    match Open(fs, path, flags)
    case (code, handle, fs') =>
      && TreeOk(fs')
      && (code == Success <==> handle.Some?)
      && (Creatable(fs, path) && flags.creat ==> code == Success && handle == Some(|fs.nodes|))
      && (Unbinds(fs, path, flags) ==> code in {Exists, NoSpace})
      && Find(fs', q) ==
         if Creatable(fs, path) && flags.creat then
           if InDirectory(fs, path) && q == Components(path) then At(|fs.nodes|) else Find(fs, q)
         else if Unbinds(fs, path, flags) && Below(q, Components(path)) then Broken
         else Find(fs, q)
  }

  lemma OpenEffect(fs: Fs, path: string, flags: Flags, q: seq<string>)
    requires TreeOk(fs)
    ensures OpenedAs(fs, path, flags, q)
  {
    if ParseResult(path) == ParseFlag.Ok && Components(path) != [] && Find(fs, Parent(Components(path))).At? {
      FoundIsNode(fs, Parent(Components(path)));
      OpenInEffect(fs, path, flags, q);
    }
  }

  lemma OpenInEffect(fs: Fs, path: string, flags: Flags, q: seq<string>)
    requires TreeOk(fs) && ParseResult(path) == ParseFlag.Ok && Components(path) != []
    requires Find(fs, Parent(Components(path))).At? && Find(fs, Parent(Components(path))).node < |fs.nodes|
    ensures OpenedAs(fs, path, flags, q)
  {
    var names := Components(path);
    var dir, name := Parent(names), names[|names| - 1];
    ComponentsAreNames(path);
    assert LegalName(name) && names == dir + [name];
    if Find(fs, names).At? {
      OpenThereEffect(fs, path, flags, dir, name, q);
    } else {
      OpenNewEffect(fs, path, flags, dir, name, q);
    }
  }

  lemma OpenThereEffect(fs: Fs, path: string, flags: Flags, dir: seq<string>, name: string, q: seq<string>)
    requires TreeOk(fs) && ParseResult(path) == ParseFlag.Ok && Components(path) == dir + [name]
    requires Find(fs, dir).At? && Find(fs, dir).node < |fs.nodes| && Find(fs, dir + [name]).At?
    ensures OpenedAs(fs, path, flags, q)
  {
    FindSnoc(fs, dir, name);
    FoundIsNode(fs, dir + [name]);
    OpenExistingEffect(fs, Find(fs, dir).node, dir + [name], flags, q);
  }

  lemma OpenNewEffect(fs: Fs, path: string, flags: Flags, dir: seq<string>, name: string, q: seq<string>)
    requires TreeOk(fs) && ParseResult(path) == ParseFlag.Ok && Components(path) == dir + [name] && LegalName(name)
    requires Find(fs, dir).At? && Find(fs, dir).node < |fs.nodes| && !Find(fs, dir + [name]).At?
    ensures OpenedAs(fs, path, flags, q)
  {
    FindSnoc(fs, dir, name);
    if flags.creat {
      CreateEffect(fs, Find(fs, dir).node, dir, name, q);
    }
  }

  lemma CreateEffect(fs: Fs, d: nat, dir: seq<string>, name: string, q: seq<string>)
    requires TreeOk(fs) && d < |fs.nodes| && Find(fs, dir) == At(d) && LegalName(name)
    requires !Lookup(fs.nodes[d], name).At?
    ensures var (code, handle, fs') := Create(fs, d, name);
            && TreeOk(fs') && (code == Success <==> handle.Some?)
            && (code == Success <==> Lookup(fs.nodes[d], name) == Absent && |Children(fs.nodes[d])| < MAX_CHILDREN
                                       && IndexOf(Children(fs.nodes[d]), name).None?)
            && (code == Success ==> handle == Some(|fs.nodes|))
            && Find(fs', q) ==
               if code == Success && fs.nodes[d].mode == Directory && q == dir + [name] then At(|fs.nodes|)
               else Find(fs, q)
  {
    var fs1 := fs.(nextIno := fs.nextIno + 1, nextFile := fs.nextFile + 1);
    CreateSucceeds(fs, d, name);
    if Create(fs, d, name).0 == Success {
      var n := Inode(fs.nextIno, Regular, 0, Some(Private(fs.nextFile, [], Some(d))));
      CreateAttaches(fs, d, name);
      AttachEffect(fs, fs1, d, dir, name, n, q);
    } else {
      CountersFrame(fs, Create(fs, d, name).2, q);
    }
  }

  lemma CreateSucceeds(fs: Fs, d: nat, name: string)
    requires d < |fs.nodes| && !Lookup(fs.nodes[d], name).At?
    ensures Create(fs, d, name).0 == Success <==>
            Lookup(fs.nodes[d], name) == Absent && |Children(fs.nodes[d])| < MAX_CHILDREN
            && IndexOf(Children(fs.nodes[d]), name).None?
    ensures Create(fs, d, name).1 == if Create(fs, d, name).0 == Success then Some(|fs.nodes|) else None
    ensures Create(fs, d, name).0 != Success ==> Create(fs, d, name).2.nodes == fs.nodes
  {
  }

  lemma CreateAttaches(fs: Fs, d: nat, name: string)
    requires TreeOk(fs) && d < |fs.nodes| && LegalName(name) && Create(fs, d, name).0 == Success
    ensures var n := Inode(fs.nextIno, Regular, 0, Some(Private(fs.nextFile, [], Some(d))));
            && Attachable(fs, d, name, n)
            && Create(fs, d, name).2 == Attach(fs.(nextIno := fs.nextIno + 1, nextFile := fs.nextFile + 1), d, name, n)
  {
  }

  lemma OpenExistingEffect(fs: Fs, d: nat, names: seq<string>, flags: Flags, q: seq<string>)
    requires TreeOk(fs) && d < |fs.nodes| && Find(fs, names).At? && Find(fs, names).node < |fs.nodes|
    ensures var (code, handle, fs') := OpenExisting(fs, d, Find(fs, names).node, flags);
            && TreeOk(fs') && (code == Success <==> handle.Some?)
            && (flags.creat ==> code in {Exists, NoSpace})
            && Find(fs', q) == if flags.creat && !flags.excl && Below(q, names) then Broken else Find(fs, q)
  {
    var n := Find(fs, names).node;
    var fs' := OpenExisting(fs, d, n, flags).2;
    if flags.creat && !flags.excl {
      UnbindFrame(fs, fs', names, q);
      UnbindTreeOk(fs, fs', n);
    } else {
      SizeFrame(fs, fs', q);
    }
  }

  // ---------------------------------------------------------------- inodes and codes

  // The directory and the name in it that an accepted path below the root comes to.
  lemma Located(fs: Fs, path: string)
    requires TreeOk(fs) && ParseResult(path) == ParseFlag.Ok && Components(path) != []
    ensures var names := Components(path);
            var dir, name := Parent(names), names[|names| - 1];
            match Find(fs, dir)
            case Absent => Locate(fs, path) == Stop(NoEntry) && Find(fs, names) == Absent
            case Broken => Locate(fs, path) == Stop(Fault) && Find(fs, names) == Broken
            case At(d) =>
              && d < |fs.nodes| && Locate(fs, path) == In(d, name) && LegalName(name)
              && Find(fs, names) == Lookup(fs.nodes[d], name)
  {
    var names := Components(path);
    ComponentsAreNames(path);
    assert names == Parent(names) + [names[|names| - 1]];
    FindSnoc(fs, Parent(names), names[|names| - 1]);
    if Find(fs, Parent(names)).At? {
      FoundIsNode(fs, Parent(names));
    }
  }

  ghost predicate Full(fs: Fs, names: seq<string>) {
    match Find(fs, names)
    case At(d) => d < |fs.nodes| && |Children(fs.nodes[d])| >= MAX_CHILDREN
    case _ => false
  }

  // An open of a path that resolves: which inode it hands out, and what becomes of that
  // inode; no other changes.
  lemma OpenOfExisting(fs: Fs, path: string, flags: Flags, n: nat)
    requires TreeOk(fs) && ParseResult(path) == ParseFlag.Ok && Components(path) != []
    requires Find(fs, Components(path)) == At(n) && n < |fs.nodes|
    ensures var (code, handle, fs') := Open(fs, path, flags);
            var node := fs.nodes[n];
            var cut := if flags.trunc then node.(size := 0) else node;
            if flags.creat && flags.excl then code == Exists && handle == None && fs' == fs
            else if flags.creat then
              && code == (if Full(fs, Parent(Components(path))) then NoSpace else Exists)
              && handle == None && fs'.nodes == fs.nodes[n := cut.(private := None)]
            else
              && fs' == fs.(nodes := fs.nodes[n := cut])
              && code == (if node.private.Some? then Success else Invalid)
              && handle == if node.private.Some? then Some(n) else None
  {
    Located(fs, path);
  }

  // The handle of a successful open leads where the path leads: to the inode it led to
  // before, or to the new one.
  lemma HandleIsFound(fs: Fs, path: string, flags: Flags)
    requires TreeOk(fs) && Open(fs, path, flags).1.Some?
    ensures var names, h := Components(path), Open(fs, path, flags).1.value;
            && ParseResult(path) == ParseFlag.Ok
            && (Find(fs, names).At? ==> Find(fs, names) == At(h))
            && (!Find(fs, names).At? ==> h == |fs.nodes| && flags.creat)
            && (!Creatable(fs, path) || InDirectory(fs, path) ==> Find(Open(fs, path, flags).2, names) == At(h))
  {
    var names := Components(path);
    OpenEffect(fs, path, flags, names);
    if ParseResult(path) == ParseFlag.Ok && names != [] {
      Located(fs, path);
      if Find(fs, names).At? {
        FoundIsNode(fs, names);
        OpenOfExisting(fs, path, flags, Find(fs, names).node);
      }
    }
  }

  // An empty inode in directory `d`, with the next number and, for a file, the next buffer.
  ghost predicate NewInode(fs: Fs, d: nat, mode: Mode, node: Inode) {
    && node.mode == mode && node.size == 0 && node.ino == fs.nextIno
    && node.private.Some? && Children(node) == [] && node.private.value.parent == Some(d)
    && (mode == Regular ==> node.private.value.file == fs.nextFile)
  }

  // It is entered under directory `d`, behind the children there, and nothing else changes.
  ghost predicate MadeIn(fs: Fs, d: nat, name: string, mode: Mode, fs': Fs) {
    && d < |fs.nodes| && |fs'.nodes| == |fs.nodes| + 1 && fs'.nextIno == fs.nextIno + 1
    && NewInode(fs, d, mode, fs'.nodes[|fs.nodes|])
    && fs'.nextFile == fs.nextFile + (if mode == Regular then 1 else 0)
    && (forall e | 0 <= e < |fs.nodes| && e != d :: fs'.nodes[e] == fs.nodes[e])
    && Children(fs'.nodes[d]) == Children(fs.nodes[d]) + [Child(name, |fs.nodes|)]
    && fs'.nodes[d].mode == fs.nodes[d].mode && fs'.nodes[d].ino == fs.nodes[d].ino
    && fs'.nodes[d].size == fs.nodes[d].size
  }

  // What a call makes is an empty directory, or an empty bound file, in the directory
  // that the path without its last name leads to.
  lemma MkdirMakes(fs: Fs, path: string)
    requires TreeOk(fs) && Mkdir(fs, path).0 == Success
    ensures var names := Components(path);
            && names != [] && Find(fs, Parent(names)).At?
            && MadeIn(fs, Find(fs, Parent(names)).node, names[|names| - 1], Directory, Mkdir(fs, path).1)
  {
    if ParseResult(path) == ParseFlag.Ok && Components(path) != [] {
      Located(fs, path);
    }
  }

  lemma OpenMakes(fs: Fs, path: string, flags: Flags)
    requires TreeOk(fs) && Creatable(fs, path) && flags.creat
    ensures var names := Components(path);
            MadeIn(fs, Find(fs, Parent(names)).node, names[|names| - 1], Regular, Open(fs, path, flags).2)
  {
    Located(fs, path);
  }

  // A path that the parser refuses goes no further.
  lemma RefusedPath(fs: Fs, path: string, flags: Flags)
    requires ParseResult(path) != ParseFlag.Ok
    ensures var code := if ParseResult(path) == ParseFlag.NameTooLong then Code.NameTooLong else Fault;
            Mkdir(fs, path) == (code, fs) && Open(fs, path, flags) == (code, None, fs)
  {
  }

  ghost predicate LeadsToDirectory(fs: Fs, names: seq<string>) {
    match Find(fs, names)
    case At(d) => d < |fs.nodes| && fs.nodes[d].mode == Directory
    case _ => false
  }

  // The code of every other call.
  lemma MkdirCode(fs: Fs, path: string)
    requires TreeOk(fs) && ParseResult(path) == ParseFlag.Ok
    ensures var names := Components(path);
            Mkdir(fs, path).0 ==
            if names == [] || Find(fs, names).At? then Exists
            else if Find(fs, names) == Broken then Fault
            else if !Find(fs, Parent(names)).At? then NoEntry
            else if Creatable(fs, path) then if InDirectory(fs, path) then Success else Invalid
            else if LeadsToDirectory(fs, Parent(names)) then NoSpace
            else Invalid
  {
    if Components(path) != [] {
      Located(fs, path);
    }
  }

  lemma OpenCode(fs: Fs, path: string, flags: Flags)
    requires TreeOk(fs) && ParseResult(path) == ParseFlag.Ok && !Find(fs, Components(path)).At?
    ensures var names := Components(path);
            Open(fs, path, flags).0 ==
            if Find(fs, names) == Broken then Fault
            else if !flags.creat || !Find(fs, Parent(names)).At? then NoEntry
            else if Creatable(fs, path) then Success
            else if Full(fs, Parent(names)) then NoSpace
            else Exists
    ensures Open(fs, path, flags).0 != Success ==> Open(fs, path, flags).2.nodes == fs.nodes
  {
    Located(fs, path);
    match Locate(fs, path) {
      case In(d, name) => OpenInCode(fs, d, name, flags);
      case _ =>
    }
  }

  lemma OpenInCode(fs: Fs, d: nat, name: string, flags: Flags)
    requires d < |fs.nodes| && !Lookup(fs.nodes[d], name).At?
    ensures OpenIn(fs, d, name, flags).0 ==
            if Lookup(fs.nodes[d], name) == Broken then Fault
            else if !flags.creat then NoEntry
            else if |Children(fs.nodes[d])| >= MAX_CHILDREN then NoSpace
            else if IndexOf(Children(fs.nodes[d]), name).Some? then Exists
            else Success
    ensures OpenIn(fs, d, name, flags).0 != Success ==> OpenIn(fs, d, name, flags).2.nodes == fs.nodes
  {
  }

  // ---------------------------------------------------------------- runs

  datatype Op = MakeDir(path: string) | OpenFile(path: string, flags: Flags)

  function Apply(fs: Fs, op: Op): Fs {
    match op
    case MakeDir(path) => Mkdir(fs, path).1
    case OpenFile(path, flags) => Open(fs, path, flags).2
  }

  function Run(fs: Fs, ops: seq<Op>): Fs
    decreases |ops|
  {
    if ops == [] then fs else Run(Apply(fs, ops[0]), ops[1..])
  }

  // A file system just mounted: the root, which has no parent.
  function Mounted(rootIno: nat, nextIno: nat, nextFile: nat): (fs: Fs)
    ensures TreeOk(fs)
  {
    Fs([Inode(rootIno, Directory, 0, Some(Private(0, [], None)))], nextIno, nextFile)
  }

  ghost predicate IsUnbinding(fs: Fs, op: Op) {
    op.OpenFile? && Unbinds(fs, op.path, op.flags)
  }

  // No operation of the run unbinds an inode.
  ghost predicate NoUnbinding(fs: Fs, ops: seq<Op>)
    decreases |ops|
  {
    ops == [] || (!IsUnbinding(fs, ops[0]) && NoUnbinding(Apply(fs, ops[0]), ops[1..]))
  }

  lemma ApplyKeeps(fs: Fs, op: Op, q: seq<string>)
    requires TreeOk(fs)
    ensures TreeOk(Apply(fs, op))
    ensures Find(fs, q).At? && !IsUnbinding(fs, op) ==> Find(Apply(fs, op), q) == Find(fs, q)
  {
    match op {
      case MakeDir(path) => MkdirEffect(fs, path, q);
      case OpenFile(path, flags) => OpenEffect(fs, path, flags, q);
    }
  }

  // Every run keeps a tree: entries lead to later inodes, none is entered twice,
  // siblings have distinct names; so no inode has two paths.
  lemma {:induction false} RunKeepsTree(fs: Fs, ops: seq<Op>)
    requires TreeOk(fs)
    ensures TreeOk(Run(fs, ops))
    decreases |ops|
  {
    if ops != [] {
      ApplyKeeps(fs, ops[0], []);
      RunKeepsTree(Apply(fs, ops[0]), ops[1..]);
    }
  }

  // What resolves goes on resolving to the same node over every run without an
  // unbinding open.
  lemma {:induction false} ResolutionPersists(fs: Fs, ops: seq<Op>, q: seq<string>)
    requires TreeOk(fs) && NoUnbinding(fs, ops) && Find(fs, q).At?
    ensures Find(Run(fs, ops), q) == Find(fs, q)
    decreases |ops|
  {
    if ops != [] {
      ApplyKeeps(fs, ops[0], q);
      ResolutionPersists(Apply(fs, ops[0]), ops[1..], q);
    }
  }

  // ---------------------------------------------------------------- inode numbers

  // No two inodes have one number, and the counter is past all of them.
  ghost predicate NumbersOk(fs: Fs) {
    && (forall n | 0 <= n < |fs.nodes| :: fs.nodes[n].ino < fs.nextIno)
    && forall n, m | 0 <= n < m < |fs.nodes| :: fs.nodes[n].ino != fs.nodes[m].ino
  }

  // Inodes keep their numbers, and one that is new takes the counter's.
  ghost predicate NumbersGrow(fs: Fs, fs': Fs) {
    && fs.nextIno <= fs'.nextIno && |fs.nodes| <= |fs'.nodes| <= |fs.nodes| + 1
    && (forall n | 0 <= n < |fs.nodes| :: fs'.nodes[n].ino == fs.nodes[n].ino)
    && (|fs'.nodes| > |fs.nodes| ==> fs'.nodes[|fs.nodes|].ino == fs.nextIno < fs'.nextIno)
  }

  lemma MakeInNumbers(fs: Fs, d: nat, name: string)
    requires d < |fs.nodes|
    ensures NumbersGrow(fs, MakeIn(fs, d, name).1)
  {
  }

  lemma OpenInNumbers(fs: Fs, d: nat, name: string, flags: Flags)
    requires d < |fs.nodes|
    ensures NumbersGrow(fs, OpenIn(fs, d, name, flags).2)
  {
  }

  lemma ApplyNumbers(fs: Fs, op: Op)
    ensures NumbersGrow(fs, Apply(fs, op))
  {
    match op {
      case MakeDir(path) =>
        if Locate(fs, path).In? && Locate(fs, path).dir < |fs.nodes| {
          MakeInNumbers(fs, Locate(fs, path).dir, Locate(fs, path).name);
        }
      case OpenFile(path, flags) =>
        if Locate(fs, path).In? && Locate(fs, path).dir < |fs.nodes| {
          OpenInNumbers(fs, Locate(fs, path).dir, Locate(fs, path).name, flags);
        }
    }
  }

  lemma GrownNumbers(fs: Fs, fs': Fs)
    requires NumbersOk(fs) && NumbersGrow(fs, fs')
    ensures NumbersOk(fs')
  {
  }

  // Over every run inode numbers name inodes, as listings give them out.
  lemma {:induction false} RunKeepsNumbers(fs: Fs, ops: seq<Op>)
    requires NumbersOk(fs)
    ensures NumbersOk(Run(fs, ops))
    decreases |ops|
  {
    if ops != [] {
      ApplyNumbers(fs, ops[0]);
      GrownNumbers(fs, Apply(fs, ops[0]));
      RunKeepsNumbers(Apply(fs, ops[0]), ops[1..]);
    }
  }
}
