// The file system calls on inodes: parsing, the walk to the parent, the scans over
// children and the updates in place, each proved against the tree's specification.
module Vfs {
  import opened Options
  import Paths
  import opened Tree

  class FileSystem {
    var nodes: seq<Inode>
    var nextIno: nat
    var nextFile: nat

    ghost function View(): Fs
      reads this
    {
      Fs(nodes, nextIno, nextFile)
    }

    // Mounted at the root.
    constructor (rootIno: nat, nextIno: nat, nextFile: nat)
      ensures View() == Mounted(rootIno, nextIno, nextFile)
    {
      nodes := [Inode(rootIno, Directory, 0, Some(Private(0, [], None)))];
      this.nextIno, this.nextFile := nextIno, nextFile;
    }

    // `ramfs_lookup`.
    method LookupChild(dir: nat, name: string) returns (r: Found)
      requires dir < |nodes|
      ensures r == Lookup(nodes[dir], name)
    {
      if nodes[dir].private.None? {
        return Broken;
      }
      if nodes[dir].mode != Directory {
        return Absent;
      }
      var c := nodes[dir].private.value.children;
      IndexOfIs(c, name);
      for i := 0 to |c|
        invariant forall k | 0 <= k < i :: c[k].name != name
      {
        if c[i].name == name {
          return At(c[i].node);
        }
      }
      return Absent;
    }

    // `vfs_walk_parent`: from the root through all names but the last.
    method WalkParent(names: seq<string>) returns (r: Found)
      requires TreeOk(View()) && names != []
      ensures r == Find(View(), Parent(names))
      ensures r.At? ==> r.node < |nodes|
    {
      var dir: nat := 0;
      for i := 0 to |names| - 1
        invariant dir < |nodes| && Find(View(), names[..i]) == At(dir)
      {
        assert names[..i + 1] == names[..i] + [names[i]];
        FindSnoc(View(), names[..i], names[i]);
        r := LookupChild(dir, names[i]);
        if !r.At? {
          assert Parent(names)[..i + 1] == names[..i + 1];
          StaysLost(View(), Parent(names), i + 1);
          return;
        }
        FoundIsNode(View(), names[..i + 1]);
        dir := r.node;
      }
      return At(dir);
    }

    // `ramfs_putchild`.
    method PutUnder(dir: nat, child: Child) returns (code: Code)
      requires dir < |nodes| && nodes[dir].private.Some?
      modifies this`nodes
      ensures code == PutChild(old(nodes[dir]), child).0
      ensures nodes == if code == Success then old(nodes)[dir := PutChild(old(nodes[dir]), child).1] else old(nodes)
    {
      var c := nodes[dir].private.value.children;
      IndexOfIs(c, child.name);
      if |c| >= MAX_CHILDREN {
        return NoSpace;
      }
      for i := 0 to |c|
        invariant nodes == old(nodes)
        invariant forall k | 0 <= k < i :: c[k].name != child.name
      {
        if c[i].name == child.name {
          return Exists;
        }
      }
      nodes := nodes[dir := nodes[dir].(private := Some(nodes[dir].private.value.(children := c + [child])))];
      return Success;
    }

    method VfsMkdir(path: string) returns (code: Code)
      requires TreeOk(View()) && Paths.NUL !in path
      modifies this
      ensures (code, View()) == Mkdir(old(View()), path)
      ensures TreeOk(View())
    {
      MkdirEffect(View(), path, []);
      var flag, names := Paths.ParseNames(path);
      if flag != Paths.Ok {
        return if flag == Paths.NameTooLong then Code.NameTooLong else Fault;
      }
      if names == [] {
        return Exists;
      }
      var dir := WalkParent(names);
      if !dir.At? {
        return if dir == Absent then NoEntry else Fault;
      }
      var name := names[|names| - 1];
      code := MakeDirectory(dir.node, name);
    }

    method MakeDirectory(dir: nat, name: string) returns (code: Code)
      requires dir < |nodes|
      modifies this
      ensures (code, View()) == MakeIn(old(View()), dir, name)
    {
      var leaf := LookupChild(dir, name);
      if leaf.At? {
        return Exists;
      }
      if leaf == Broken {
        return Fault;
      }
      var node := Inode(nextIno, Directory, 0, Some(Private(0, [], Some(dir))));
      nextIno := nextIno + 1;
      if nodes[dir].mode != Directory {
        return Invalid;
      }
      code := PutUnder(dir, Child(name, |nodes|));
      if code == Success {
        nodes := nodes + [node];
      }
    }

    method VfsOpen(path: string, flags: Flags) returns (code: Code, handle: Option<nat>)
      requires TreeOk(View()) && Paths.NUL !in path
      modifies this
      ensures (code, handle, View()) == Open(old(View()), path, flags)
      ensures TreeOk(View())
    {
      OpenEffect(View(), path, flags, []);
      var flag, names := Paths.ParseNames(path);
      if flag != Paths.Ok {
        return if flag == Paths.NameTooLong then Code.NameTooLong else Fault, None;
      }
      if names == [] {
        return Success, Some(0);
      }
      var dir := WalkParent(names);
      if !dir.At? {
        return if dir == Absent then NoEntry else Fault, None;
      }
      var name := names[|names| - 1];
      var file := LookupChild(dir.node, name);
      if file == Broken {
        return Fault, None;
      }
      if file == Absent {
        if !flags.creat {
          return NoEntry, None;
        }
        code, handle := CreateFile(dir.node, name);
        return;
      }
      assert names == Parent(names) + [name];
      FindSnoc(View(), Parent(names), name);
      FoundIsNode(View(), names);
      LookupGoesDown(View(), dir.node, name);
      code, handle := OpenNode(dir.node, name, file.node, flags);
    }

    method CreateFile(dir: nat, name: string) returns (code: Code, handle: Option<nat>)
      requires dir < |nodes| && nodes[dir].private.Some?
      modifies this
      ensures (code, handle, View()) == Create(old(View()), dir, name)
    {
      var node := Inode(nextIno, Regular, 0, Some(Private(nextFile, [], Some(dir))));
      nextIno := nextIno + 1;
      nextFile := nextFile + 1;
      code := PutUnder(dir, Child(name, |nodes|));
      if code != Success {
        return code, None;
      }
      handle := Some(|nodes|);
      nodes := nodes + [node];
    }

    method OpenNode(dir: nat, name: string, n: nat, flags: Flags) returns (code: Code, handle: Option<nat>)
      requires dir < |nodes| && n < |nodes| && dir != n && Lookup(nodes[dir], name) == At(n)
      modifies this
      ensures (code, handle, View()) == OpenExisting(old(View()), dir, n, flags)
    {
      if flags.creat && flags.excl {
        return Exists, None;
      }
      assert nodes[n := nodes[n]] == nodes;
      if flags.trunc {
        nodes := nodes[n := nodes[n].(size := 0)];
      }
      if flags.creat {
        // A new part for the inode, taken away again when its own name is in the way.
        nodes := nodes[n := nodes[n].(private := Some(Private(nextFile, [], Some(dir))))];
        nextFile := nextFile + 1;
        code := PutUnder(dir, Child(name, n));
        nodes := nodes[n := nodes[n].(private := None)];
        assert nodes == OpenExisting(old(View()), dir, n, flags).2.nodes;
        return code, None;
      }
      if nodes[n].private.None? {
        return Invalid, None;
      }
      return Success, Some(n);
    }
  }

  lemma LookupGoesDown(fs: Fs, d: nat, name: string)
    requires TreeOk(fs) && d < |fs.nodes| && Lookup(fs.nodes[d], name).At?
    ensures d < Lookup(fs.nodes[d], name).node < |fs.nodes|
  {
    IndexOfIs(Children(fs.nodes[d]), name);
    var k := IndexOf(Children(fs.nodes[d]), name).value;
    assert Lookup(fs.nodes[d], name).node == Children(fs.nodes[d])[k].node;
  }

  // A walk that is lost stays lost, in the same way.
  lemma {:induction false} StaysLost(fs: Fs, names: seq<string>, k: nat)
    requires k <= |names| && !Find(fs, names[..k]).At?
    ensures Find(fs, names) == Find(fs, names[..k])
    decreases |names|
  {
    if k == |names| {
      assert names[..k] == names;
    } else {
      var init := names[..|names| - 1];
      assert init[..k] == names[..k];
      StaysLost(fs, init, k);
    }
  }
}
