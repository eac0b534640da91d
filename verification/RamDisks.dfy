// The file system with its contents: the tree, a byte string for every inode, and the
// buffers that hold them.
module RamDisks {
  import opened Files
  import opened Options
  import Paths
  import opened Tree
  import Vfs
  import Words

  // ---------------------------------------------------------------- tree and contents

  // `contents` goes by inode.
  datatype Disk = Disk(fs: Fs, contents: seq<File>)

  ghost predicate DiskOk(d: Disk) {
    && TreeOk(d.fs) && |d.contents| == |d.fs.nodes|
    && forall n | 0 <= n < |d.contents| :: |d.contents[n]| == d.fs.nodes[n].size
  }

  predicate IsFile(node: Inode) {
    node.mode == Regular && node.private.Some?
  }

  // The contents after inodes were added or truncated.
  function RefitOne(contents: seq<File>, nodes: seq<Inode>, n: nat): (f: File)
    requires n < |nodes|
  {
    if n < |contents| && |contents[n]| == nodes[n].size then contents[n] else []
  }

  function Refit(contents: seq<File>, nodes: seq<Inode>): (r: seq<File>)
    ensures |r| == |nodes| && forall n | 0 <= n < |nodes| :: r[n] == RefitOne(contents, nodes, n)
  {
    seq(|nodes|, n requires 0 <= n < |nodes| => RefitOne(contents, nodes, n))
  }

  function MkdirOn(d: Disk, path: string): (Code, Disk) {
    var (code, fs') := Mkdir(d.fs, path);
    (code, Disk(fs', Refit(d.contents, fs'.nodes)))
  }

  function OpenOn(d: Disk, path: string, flags: Flags): (Code, Option<nat>, Disk) {
    var (code, handle, fs') := Open(d.fs, path, flags);
    (code, handle, Disk(fs', Refit(d.contents, fs'.nodes)))
  }

  // A write through a handle; `room` tells whether the buffer can grow as needed.
  predicate Accepts(d: Disk, n: nat, off: nat, count: nat, room: bool) {
    n < |d.fs.nodes| && n < |d.contents| && IsFile(d.fs.nodes[n]) && off + count < Words.WORD && room
  }

  function WriteOn(d: Disk, n: nat, off: nat, data: seq<Words.Byte>, room: bool): Disk {
    if !Accepts(d, n, off, |data|, room) then d else
      var f := Written(d.contents[n], off, data);
      Disk(d.fs.(nodes := d.fs.nodes[n := d.fs.nodes[n].(size := |f|)]), d.contents[n := f])
  }

  // ---------------------------------------------------------------- what the calls do to inodes

  // Inodes that were there keep kind and buffer unless they are unbound, and their size
  // unless they are cut to nothing; new ones are empty.
  ghost predicate NodesKept(nodes: seq<Inode>, nodes': seq<Inode>) {
    && |nodes| <= |nodes'|
    && (forall n | 0 <= n < |nodes| :: NodeKept(nodes[n], nodes'[n]))
    && forall n | |nodes| <= n < |nodes'| :: nodes'[n].size == 0
  }

  predicate NodeKept(node: Inode, node': Inode) {
    && node'.mode == node.mode && (node'.size == node.size || node'.size == 0)
    && (node'.private.Some? ==> node.private.Some? && node'.private.value.file == node.private.value.file)
  }

  lemma MkdirKeepsNodes(fs: Fs, path: string)
    ensures NodesKept(fs.nodes, Mkdir(fs, path).1.nodes)
  {
  }

  lemma OpenKeepsNodes(fs: Fs, path: string, flags: Flags)
    ensures NodesKept(fs.nodes, Open(fs, path, flags).2.nodes)
  {
    if Locate(fs, path).In? && Locate(fs, path).dir < |fs.nodes| {
      OpenInKeepsNodes(fs, Locate(fs, path).dir, Locate(fs, path).name, flags);
    }
  }

  lemma OpenInKeepsNodes(fs: Fs, d: nat, name: string, flags: Flags)
    requires d < |fs.nodes|
    ensures NodesKept(fs.nodes, OpenIn(fs, d, name, flags).2.nodes)
  {
  }

  // Bound regular files use buffers of their own, all handed out already.
  ghost predicate OwnBuffers(nodes: seq<Inode>, nextFile: nat) {
    && (forall n | 0 <= n < |nodes| && IsFile(nodes[n]) :: nodes[n].private.value.file < nextFile)
    && forall n, m | 0 <= n < m < |nodes| && IsFile(nodes[n]) && IsFile(nodes[m]) ::
         nodes[n].private.value.file != nodes[m].private.value.file
  }

  lemma MkdirOwnBuffers(fs: Fs, path: string)
    requires OwnBuffers(fs.nodes, fs.nextFile)
    ensures OwnBuffers(Mkdir(fs, path).1.nodes, Mkdir(fs, path).1.nextFile) && Mkdir(fs, path).1.nextFile == fs.nextFile
  {
  }

  lemma CreateOwnBuffers(fs: Fs, d: nat, name: string)
    requires OwnBuffers(fs.nodes, fs.nextFile) && d < |fs.nodes|
    ensures OwnBuffers(Create(fs, d, name).2.nodes, Create(fs, d, name).2.nextFile)
  {
  }

  lemma OpenExistingOwnBuffers(fs: Fs, d: nat, n: nat, flags: Flags)
    requires OwnBuffers(fs.nodes, fs.nextFile) && d < |fs.nodes| && n < |fs.nodes|
    ensures OwnBuffers(OpenExisting(fs, d, n, flags).2.nodes, OpenExisting(fs, d, n, flags).2.nextFile)
  {
  }

  lemma OpenInOwnBuffers(fs: Fs, d: nat, name: string, flags: Flags)
    requires OwnBuffers(fs.nodes, fs.nextFile) && d < |fs.nodes|
    ensures OwnBuffers(OpenIn(fs, d, name, flags).2.nodes, OpenIn(fs, d, name, flags).2.nextFile)
    ensures fs.nextFile <= OpenIn(fs, d, name, flags).2.nextFile <= fs.nextFile + (if flags.creat then 1 else 0)
  {
    match Lookup(fs.nodes[d], name) {
      case Absent => CreateOwnBuffers(fs, d, name);
      case At(n) => if n < |fs.nodes| { OpenExistingOwnBuffers(fs, d, n, flags); }
      case Broken =>
    }
  }

  lemma OpenOwnBuffers(fs: Fs, path: string, flags: Flags)
    requires OwnBuffers(fs.nodes, fs.nextFile)
    ensures OwnBuffers(Open(fs, path, flags).2.nodes, Open(fs, path, flags).2.nextFile)
    ensures fs.nextFile <= Open(fs, path, flags).2.nextFile <= fs.nextFile + (if flags.creat then 1 else 0)
  {
    if Locate(fs, path).In? && Locate(fs, path).dir < |fs.nodes| {
      OpenInOwnBuffers(fs, Locate(fs, path).dir, Locate(fs, path).name, flags);
    }
  }

  // ---------------------------------------------------------------- runs

  datatype DiskOp =
    | MakeDirOp(path: string)
    | OpenOp(path: string, flags: Flags)
    | StoreOp(node: nat, off: nat, data: seq<Words.Byte>, room: bool)

  function ApplyTo(d: Disk, op: DiskOp): Disk {
    match op
    case MakeDirOp(path) => MkdirOn(d, path).1
    case OpenOp(path, flags) => OpenOn(d, path, flags).2
    case StoreOp(n, off, data, room) => WriteOn(d, n, off, data, room)
  }

  function RunOn(d: Disk, ops: seq<DiskOp>): Disk
    decreases |ops|
  {
    if ops == [] then d else RunOn(ApplyTo(d, ops[0]), ops[1..])
  }

  // The open cuts the file at path `q` to nothing.
  predicate Truncates(path: string, flags: Flags, q: seq<string>) {
    && flags.trunc && !(flags.creat && flags.excl)
    && Paths.ParseResult(path) == Paths.Ok && Paths.Components(path) == q
  }

  // The operation unbinds an inode on the way along path `q`, or its end, truncates the
  // file there, or overwrites byte `k` of inode `n`.
  ghost predicate Touches(d: Disk, op: DiskOp, q: seq<string>, n: nat, k: nat) {
    match op
    case MakeDirOp(_) => false
    case OpenOp(path, flags) =>
      (Unbinds(d.fs, path, flags) && Paths.Components(path) <= q) || Truncates(path, flags, q)
    case StoreOp(m, off, data, _) => m == n && off <= k < off + |data|
  }

  ghost predicate Untouched(d: Disk, ops: seq<DiskOp>, q: seq<string>, n: nat, k: nat)
    decreases |ops|
  {
    ops == [] || (!Touches(d, ops[0], q, n, k) && Untouched(ApplyTo(d, ops[0]), ops[1..], q, n, k))
  }

  // Path `q` leads to the bound file `n`, whose byte `k` is `b`.
  ghost predicate HasByte(d: Disk, q: seq<string>, n: nat, k: nat, b: Option<Words.Byte>) {
    && DiskOk(d) && Find(d.fs, q) == At(n) && n < |d.fs.nodes| && IsFile(d.fs.nodes[n])
    && k < |d.contents[n]| && d.contents[n][k] == b
  }

  // The inode keeps its size and stays a bound file.
  ghost predicate FileStays(fs: Fs, fs': Fs, n: nat) {
    n < |fs.nodes| <= |fs'.nodes| && fs'.nodes[n].size == fs.nodes[n].size && IsFile(fs'.nodes[n])
  }

  lemma MkdirFileStays(fs: Fs, path: string, n: nat)
    requires n < |fs.nodes| && IsFile(fs.nodes[n])
    ensures FileStays(fs, Mkdir(fs, path).1, n)
  {
  }

  lemma OpenInFileStays(fs: Fs, d: nat, name: string, flags: Flags, n: nat)
    requires d < |fs.nodes| && n < |fs.nodes| && IsFile(fs.nodes[n])
    requires Lookup(fs.nodes[d], name) == At(n) ==> (flags.creat ==> flags.excl) && (flags.trunc ==> flags.creat)
    ensures FileStays(fs, OpenIn(fs, d, name, flags).2, n)
  {
  }

  // The open leads to inode `n` and unbinds it or cuts it to nothing.
  ghost predicate Resets(fs: Fs, path: string, flags: Flags, n: nat) {
    && Paths.ParseResult(path) == Paths.Ok && Paths.Components(path) != []
    && Find(fs, Paths.Components(path)) == At(n)
    && !(flags.creat && flags.excl) && (flags.creat || flags.trunc)
  }

  lemma LocatedAs(fs: Fs, path: string, d: nat, name: string)
    requires Locate(fs, path) == In(d, name) && d < |fs.nodes|
    ensures Paths.ParseResult(path) == Paths.Ok && Paths.Components(path) != []
    ensures Find(fs, Paths.Components(path)) == Lookup(fs.nodes[d], name)
  {
    var names := Paths.Components(path);
    FindSnoc(fs, Parent(names), name);
    assert names == Parent(names) + [name];
  }

  lemma OpenFileStays(fs: Fs, path: string, flags: Flags, n: nat)
    requires n < |fs.nodes| && IsFile(fs.nodes[n]) && !Resets(fs, path, flags, n)
    ensures FileStays(fs, Open(fs, path, flags).2, n)
  {
    var target := Locate(fs, path);
    if target.In? && target.dir < |fs.nodes| {
      LocatedAs(fs, path, target.dir, target.name);
      OpenInFileStays(fs, target.dir, target.name, flags, n);
    }
  }

  lemma RefitOk(d: Disk, fs': Fs)
    requires DiskOk(d) && TreeOk(fs') && NodesKept(d.fs.nodes, fs'.nodes)
    ensures DiskOk(Disk(fs', Refit(d.contents, fs'.nodes)))
  {
    forall n | 0 <= n < |fs'.nodes|
      ensures |RefitOne(d.contents, fs'.nodes, n)| == fs'.nodes[n].size
    {
      if n < |d.contents| {
        assert NodeKept(d.fs.nodes[n], fs'.nodes[n]);
      }
    }
  }

  lemma MkdirKeepsByte(d: Disk, path: string, q: seq<string>, n: nat, k: nat, b: Option<Words.Byte>)
    requires HasByte(d, q, n, k, b)
    ensures HasByte(MkdirOn(d, path).1, q, n, k, b)
  {
    MkdirEffect(d.fs, path, q);
    MkdirKeepsNodes(d.fs, path);
    MkdirFileStays(d.fs, path, n);
    RefitOk(d, Mkdir(d.fs, path).1);
  }

  lemma OpenKeepsByte(d: Disk, path: string, flags: Flags, q: seq<string>, n: nat, k: nat, b: Option<Words.Byte>)
    requires HasByte(d, q, n, k, b) && !Touches(d, OpenOp(path, flags), q, n, k)
    ensures HasByte(OpenOn(d, path, flags).2, q, n, k, b)
  {
    OpenEffect(d.fs, path, flags, q);
    OpenKeepsNodes(d.fs, path, flags);
    if Resets(d.fs, path, flags, n) {
      OnePath(d.fs, Paths.Components(path), q);
    }
    OpenFileStays(d.fs, path, flags, n);
    RefitOk(d, Open(d.fs, path, flags).2);
  }

  lemma WriteKeepsTree(d: Disk, m: nat, off: nat, data: seq<Words.Byte>, room: bool, q: seq<string>)
    requires DiskOk(d)
    ensures DiskOk(WriteOn(d, m, off, data, room)) && Find(WriteOn(d, m, off, data, room).fs, q) == Find(d.fs, q)
  {
    if Accepts(d, m, off, |data|, room) {
      SizeFrame(d.fs, WriteOn(d, m, off, data, room).fs, q);
    }
  }

  lemma WriteKeepsByte(d: Disk, m: nat, off: nat, data: seq<Words.Byte>, room: bool,
                       q: seq<string>, n: nat, k: nat, b: Option<Words.Byte>)
    requires HasByte(d, q, n, k, b) && !(m == n && off <= k < off + |data|)
    ensures HasByte(WriteOn(d, m, off, data, room), q, n, k, b)
  {
    WriteKeepsTree(d, m, off, data, room, q);
  }

  // What was written through a path stays there: over every run of creating, opening and
  // writing that does not unbind the path, truncate the file or overwrite the byte, the
  // path leads to the same file and the byte is in it.
  lemma {:induction false} BytePersists(d: Disk, ops: seq<DiskOp>,
                                        q: seq<string>, n: nat, k: nat, b: Option<Words.Byte>)
    requires HasByte(d, q, n, k, b) && Untouched(d, ops, q, n, k)
    ensures HasByte(RunOn(d, ops), q, n, k, b)
    decreases |ops|
  {
    if ops != [] {
      match ops[0] {
        case MakeDirOp(path) => MkdirKeepsByte(d, path, q, n, k, b);
        case OpenOp(path, flags) => OpenKeepsByte(d, path, flags, q, n, k, b);
        case StoreOp(m, off, data, room) => WriteKeepsByte(d, m, off, data, room, q, n, k, b);
      }
      BytePersists(ApplyTo(d, ops[0]), ops[1..], q, n, k, b);
    }
  }

  // So a read through the path after such a run returns what was written.
  lemma ReadAfterRun(d: Disk, q: seq<string>, n: nat, off: nat, data: seq<Words.Byte>, ops: seq<DiskOp>,
                     k: nat, o: nat, limit: nat, r: seq<Words.Byte>)
    requires DiskOk(d) && Find(d.fs, q) == At(n) && Accepts(d, n, off, |data|, true) && off <= k < off + |data|
    requires Untouched(WriteOn(d, n, off, data, true), ops, q, n, k)
    requires var d' := RunOn(WriteOn(d, n, off, data, true), ops);
             n < |d'.contents| && IsRead(d'.contents[n], o, limit, r)
    requires o <= k < o + |r|
    ensures Find(RunOn(WriteOn(d, n, off, data, true), ops).fs, q) == At(n) && r[k - o] == data[k - off]
  {
    var d1 := WriteOn(d, n, off, data, true);
    WriteKeepsTree(d, n, off, data, true, q);
    assert HasByte(d1, q, n, k, Some(data[k - off]));
    BytePersists(d1, ops, q, n, k, Some(data[k - off]));
    assert RunOn(d1, ops).contents[n][o + (k - o)].Some?;
  }

  lemma OpenSizes(fs: Fs, path: string, flags: Flags, n: nat)
    requires n < |fs.nodes| && !Resets(fs, path, flags, n)
    ensures n < |Open(fs, path, flags).2.nodes| && Open(fs, path, flags).2.nodes[n].size == fs.nodes[n].size
  {
    var target := Locate(fs, path);
    if target.In? && target.dir < |fs.nodes| {
      LocatedAs(fs, path, target.dir, target.name);
    }
  }

  // What an open does to contents: every inode that it neither cuts nor unbinds keeps its
  // own, a file it makes is empty, and a file it cuts loses its bytes.
  lemma OpenKeepsContents(d: Disk, path: string, flags: Flags, n: nat)
    requires DiskOk(d) && n < |d.contents| && !Resets(d.fs, path, flags, n)
    ensures n < |OpenOn(d, path, flags).2.contents| && OpenOn(d, path, flags).2.contents[n] == d.contents[n]
  {
    OpenSizes(d.fs, path, flags, n);
  }

  lemma OpenMakesEmpty(d: Disk, path: string, flags: Flags, n: nat)
    requires DiskOk(d) && |d.contents| <= n < |OpenOn(d, path, flags).2.contents|
    ensures OpenOn(d, path, flags).2.contents[n] == []
  {
  }

  lemma OpenCuts(d: Disk, path: string, flags: Flags, n: nat)
    requires DiskOk(d) && Paths.Components(path) != [] && Find(d.fs, Paths.Components(path)) == At(n)
    requires Open(d.fs, path, flags).1.Some? && flags.trunc
    ensures Open(d.fs, path, flags).1 == Some(n) && n < |d.contents|
    ensures n < |OpenOn(d, path, flags).2.contents| && OpenOn(d, path, flags).2.contents[n] == []
  {
    HandleIsFound(d.fs, path, flags);
    FoundIsNode(d.fs, Paths.Components(path));
    OpenOfExisting(d.fs, path, flags, n);
  }

  // What the writes to inode `n` among the operations make of the bytes `f`; one that
  // wraps, or finds no room, makes nothing.
  function OwnWrite(f: File, n: nat, op: DiskOp): File {
    match op
    case StoreOp(m, off, data, room) => if m == n && off + |data| < Words.WORD && room then Written(f, off, data) else f
    case _ => f
  }

  function OwnWrites(f: File, n: nat, ops: seq<DiskOp>): File
    decreases |ops|
  {
    if ops == [] then f else OwnWrites(OwnWrite(f, n, ops[0]), n, ops[1..])
  }

  // No operation of the run truncates inode `n` or unbinds it.
  ghost predicate NoReset(d: Disk, ops: seq<DiskOp>, n: nat)
    decreases |ops|
  {
    ops == [] ||
    (!(ops[0].OpenOp? && Resets(d.fs, ops[0].path, ops[0].flags, n)) && NoReset(ApplyTo(d, ops[0]), ops[1..], n))
  }

  // Inode `n` is a bound file with the bytes `f`.
  ghost predicate HasBytes(d: Disk, n: nat, f: File) {
    DiskOk(d) && n < |d.fs.nodes| && IsFile(d.fs.nodes[n]) && d.contents[n] == f
  }

  lemma MkdirKeepsFile(d: Disk, path: string, n: nat, f: File)
    requires HasBytes(d, n, f)
    ensures HasBytes(MkdirOn(d, path).1, n, f)
  {
    MkdirEffect(d.fs, path, []);
    MkdirKeepsNodes(d.fs, path);
    MkdirFileStays(d.fs, path, n);
    RefitOk(d, Mkdir(d.fs, path).1);
  }

  lemma OpenKeepsFile(d: Disk, path: string, flags: Flags, n: nat, f: File)
    requires HasBytes(d, n, f) && !Resets(d.fs, path, flags, n)
    ensures HasBytes(OpenOn(d, path, flags).2, n, f)
  {
    OpenEffect(d.fs, path, flags, []);
    OpenKeepsNodes(d.fs, path, flags);
    OpenFileStays(d.fs, path, flags, n);
    RefitOk(d, Open(d.fs, path, flags).2);
  }

  // Files are independent: over every run that neither truncates nor unbinds a file, it
  // ends as its own accepted writes leave it, whatever is done to other files, to
  // directories and to the paths that lead to it.
  lemma {:induction false} RunIsPerFile(d: Disk, ops: seq<DiskOp>, n: nat, f: File)
    requires HasBytes(d, n, f) && NoReset(d, ops, n)
    ensures HasBytes(RunOn(d, ops), n, OwnWrites(f, n, ops))
    decreases |ops|
  {
    if ops != [] {
      match ops[0] {
        case MakeDirOp(path) => MkdirKeepsFile(d, path, n, f);
        case OpenOp(path, flags) => OpenKeepsFile(d, path, flags, n, f);
        case StoreOp(m, off, data, room) => WriteKeepsTree(d, m, off, data, room, []);
      }
      RunIsPerFile(ApplyTo(d, ops[0]), ops[1..], n, OwnWrite(f, n, ops[0]));
    }
  }

  // Over every run each bound file has a buffer of its own.
  lemma {:induction false} RunOwnBuffers(d: Disk, ops: seq<DiskOp>)
    requires OwnBuffers(d.fs.nodes, d.fs.nextFile)
    ensures OwnBuffers(RunOn(d, ops).fs.nodes, RunOn(d, ops).fs.nextFile)
    decreases |ops|
  {
    if ops != [] {
      match ops[0] {
        case MakeDirOp(path) => MkdirOwnBuffers(d.fs, path);
        case OpenOp(path, flags) => OpenOwnBuffers(d.fs, path, flags);
        case StoreOp(_, _, _, _) =>
      }
      RunOwnBuffers(ApplyTo(d, ops[0]), ops[1..]);
    }
  }

  // ---------------------------------------------------------------- the calls

  class RamDisk {
    const fs: Vfs.FileSystem
    const buffers: seq<KBuf>
    // The contents of each file.
    ghost var known: seq<File>

    // The buffer of file `n` holds the bytes `f`.
    ghost predicate Holds(n: nat, f: File)
      requires n < |fs.nodes| && IsFile(fs.nodes[n]) && fs.nodes[n].private.value.file < |buffers|
      reads this, fs, buffers, set b | b in buffers :: b.data
    {
      buffers[fs.nodes[n].private.value.file].Holds(f)
    }

    ghost function View(): Disk
      reads this, fs
    {
      Disk(fs.View(), known)
    }

    ghost predicate Valid()
      reads this, fs, buffers, set b | b in buffers :: b.data
    {
      && DiskOk(View()) && AllApart(buffers) && fs.nextFile <= |buffers| && OwnBuffers(fs.nodes, fs.nextFile)
      && (forall b | b in buffers :: b.Valid())
      && forall n | 0 <= n < |fs.nodes| && IsFile(fs.nodes[n]) :: Holds(n, known[n])
    }

    // Mounted at the root, with `ramfs_init`'s buffers; the first is given to no file.
    constructor (rootIno: nat, nextIno: nat, count: nat, oom: nat -> bool)
      requires count > 0
      ensures Valid() && |buffers| == count && View() == Disk(Mounted(rootIno, nextIno, 1), [[]])
    {
      var made := MakeBuffers(count, oom);
      buffers := made;
      fs := new Vfs.FileSystem(rootIno, nextIno, 1);
      known := [[]];
    }

    method MakeDir(path: string) returns (code: Code)
      requires Valid() && Paths.NUL !in path
      modifies this, fs
      ensures Valid() && (code, View()) == MkdirOn(old(View()), path)
    {
      ghost var d := View();
      MkdirKeepsNodes(d.fs, path);
      MkdirOwnBuffers(d.fs, path);
      code := fs.VfsMkdir(path);
      known := Refit(known, fs.nodes);
      RefitValid(d);
    }

    // The number of files is not checked against the number of buffers.
    method OpenFile(path: string, flags: Flags) returns (code: Code, handle: Option<nat>)
      requires Valid() && Paths.NUL !in path && (flags.creat ==> fs.nextFile < |buffers|)
      modifies this, fs
      ensures Valid() && (code, handle, View()) == OpenOn(old(View()), path, flags)
    {
      ghost var d := View();
      OpenKeepsNodes(d.fs, path, flags);
      OpenOwnBuffers(d.fs, path, flags);
      code, handle := fs.VfsOpen(path, flags);
      known := Refit(known, fs.nodes);
      RefitValid(d);
    }

    // Buffers go on holding what files keep.
    lemma RefitValid(d: Disk)
      requires DiskOk(d) && TreeOk(fs.View()) && NodesKept(d.fs.nodes, fs.nodes) && known == Refit(d.contents, fs.nodes)
      requires AllApart(buffers) && fs.nextFile <= |buffers| && OwnBuffers(fs.nodes, fs.nextFile)
      requires forall b | b in buffers :: b.Valid()
      requires forall n | 0 <= n < |d.fs.nodes| && IsFile(d.fs.nodes[n]) && IsFile(fs.nodes[n]) ::
                 Holds(n, d.contents[n])
      ensures Valid()
    {
      RefitOk(d, fs.View());
      forall n | 0 <= n < |fs.nodes| && IsFile(fs.nodes[n])
        ensures Holds(n, known[n])
      {
        if n < |d.fs.nodes| {
          assert NodeKept(d.fs.nodes[n], fs.nodes[n]);
        }
      }
    }

    // Growing and filling the buffer of file `n` leaves what every other file holds.
    method StoreInto(n: nat, off: nat, bytes: seq<Words.Byte>, oom: nat -> bool) returns (ok: bool)
      requires Valid() && n < |fs.nodes| && IsFile(fs.nodes[n])
      modifies buffers, set b | b in buffers :: b.data
      ensures ok <==> Reaches(old(buffers[fs.nodes[n].private.value.file].capacity), off + |bytes|, oom)
      ensures AllApart(buffers) && forall b | b in buffers :: b.Valid()
      ensures forall m | 0 <= m < |fs.nodes| && IsFile(fs.nodes[m]) && (m != n || !ok) :: Holds(m, known[m])
      ensures ok ==> Holds(n, Written(known[n], off, bytes))
    {
      var buf := buffers[fs.nodes[n].private.value.file];
      assert Holds(n, known[n]);
      ok := buf.WriteAt(off, bytes, oom);
    }

    // There is room, or memory and range to make it.
    ghost predicate HasRoom(n: nat, target: nat, oom: nat -> bool)
      requires n < |fs.nodes|
      reads this, fs, buffers
    {
      && IsFile(fs.nodes[n]) && fs.nodes[n].private.value.file < |buffers|
      && Reaches(buffers[fs.nodes[n].private.value.file].capacity, target, oom)
    }

    // `vfs_write` and `ramfs_write`.
    method Write(n: nat, off: nat, bytes: seq<Words.Byte>, oom: nat -> bool) returns (r: int)
      requires Valid() && n < |fs.nodes| && off < Words.WORD && |bytes| < Words.WORD
      modifies this, fs, buffers, set b | b in buffers :: b.data
      ensures Valid()
      ensures View() == WriteOn(old(View()), n, off, bytes, old(HasRoom(n, off + |bytes|, oom)))
      ensures r == if old(fs.nodes[n].mode) != Regular || old(fs.nodes[n].private).None? || off + |bytes| >= Words.WORD
                      || !old(HasRoom(n, off + |bytes|, oom))
                   then -1 else Signed(|bytes|)
    {
      ghost var d, room := View(), HasRoom(n, off + |bytes|, oom);
      if fs.nodes[n].mode != Regular {
        return -1;
      }
      var newLimit := (off + |bytes|) % Words.WORD;
      if newLimit < off {
        return -1;
      }
      if fs.nodes[n].private.None? {
        return -1;
      }
      var ok := StoreInto(n, off, bytes, oom);
      if !ok {
        return -1;
      }
      UpdateSize(n, off, bytes);
      return Signed(|bytes|);
    }

    // The size after a write, once the buffer holds the bytes.
    method UpdateSize(n: nat, off: nat, bytes: seq<Words.Byte>)
      requires DiskOk(View()) && AllApart(buffers) && fs.nextFile <= |buffers| && OwnBuffers(fs.nodes, fs.nextFile)
      requires forall b | b in buffers :: b.Valid()
      requires forall m | 0 <= m < |fs.nodes| && IsFile(fs.nodes[m]) && m != n :: Holds(m, known[m])
      requires Accepts(View(), n, off, |bytes|, true) && Holds(n, Written(known[n], off, bytes))
      modifies this`known, fs`nodes
      ensures Valid() && View() == WriteOn(old(View()), n, off, bytes, true)
    {
      ghost var d := View();
      WriteKeepsTree(d, n, off, bytes, true, []);
      if off + |bytes| > fs.nodes[n].size {
        fs.nodes := fs.nodes[n := fs.nodes[n].(size := off + |bytes|)];
      }
      known := known[n := Written(known[n], off, bytes)];
      assert fs.nodes == d.fs.nodes[n := d.fs.nodes[n].(size := |known[n]|)];
      SizedValid(d.fs.nodes, n);
    }

    // A changed size changes no buffer's owner.
    lemma SizedValid(nodes: seq<Inode>, n: nat)
      requires n < |nodes| == |fs.nodes| == |known| && fs.nodes == nodes[n := nodes[n].(size := fs.nodes[n].size)]
      requires DiskOk(View()) && AllApart(buffers) && fs.nextFile <= |buffers| && OwnBuffers(nodes, fs.nextFile)
      requires forall b | b in buffers :: b.Valid()
      requires forall m | 0 <= m < |nodes| && IsFile(nodes[m]) :: buffers[nodes[m].private.value.file].Holds(known[m])
      ensures Valid()
    {
    }

    // `vfs_read` and `ramfs_read`, into the start of the caller's buffer.
    method Read(n: nat, off: nat, limit: nat, buffer: array<Words.Byte>) returns (r: int)
      requires Valid() && n < |fs.nodes| && limit <= buffer.Length
      requires forall b | b in buffers :: buffer != b.data
      modifies buffer
      ensures Valid()
      ensures fs.nodes[n].mode != Regular ==> r == -1
      ensures fs.nodes[n].mode == Regular && fs.nodes[n].private.None? ==>
                r == if off >= fs.nodes[n].size then 0 else -1
      ensures IsFile(fs.nodes[n]) ==> r == Signed(ReadLength(known[n], off, limit))
      ensures IsFile(fs.nodes[n]) && off >= |known[n]| ==> r == 0
      ensures IsFile(fs.nodes[n]) && off < |known[n]| ==>
                r == Signed(if limit < |known[n]| - off then limit else |known[n]| - off)
      ensures IsFile(fs.nodes[n]) ==> IsRead(known[n], off, limit, buffer[..ReadLength(known[n], off, limit)])
      ensures forall k | ReadLength(known[n], off, limit) <= k < buffer.Length :: buffer[k] == old(buffer[k])
    {
      if fs.nodes[n].mode != Regular {
        return -1;
      }
      if off >= fs.nodes[n].size {
        return 0;
      }
      var sizeLimit := fs.nodes[n].size - off;
      if limit < sizeLimit {
        sizeLimit := limit;
      }
      if fs.nodes[n].private.None? {
        return -1;
      }
      var buf := buffers[fs.nodes[n].private.value.file];
      assert Holds(n, known[n]);
      for i := 0 to sizeLimit
        invariant buffer[..i] == buf.data[off..off + i]
        invariant forall k | i <= k < buffer.Length :: buffer[k] == old(buffer[k])
      {
        buffer[i] := buf.data[off + i];
      }
      return Signed(sizeLimit);
    }
  }

  // A caller that reads on until nothing comes has the whole file.
  method ReadWhole(ram: RamDisk, n: nat, buffer: array<Words.Byte>) returns (all: seq<Words.Byte>)
    requires ram.Valid() && n < |ram.fs.nodes| && IsFile(ram.fs.nodes[n])
    requires 0 < buffer.Length < Words.WORD / 2 && forall b | b in ram.buffers :: b.data != buffer
    modifies buffer
    ensures ram.Valid() && |all| == |ram.known[n]|
    ensures forall k | 0 <= k < |all| && ram.known[n][k].Some? :: all[k] == ram.known[n][k].value
  {
    ghost var f := ram.known[n];
    all := [];
    var r := ram.Read(n, 0, buffer.Length, buffer);
    while r > 0
      invariant ram.Valid() && ram.known[n] == f && IsFile(ram.fs.nodes[n])
      invariant 0 <= r <= buffer.Length && IsRead(f, 0, |all|, all) && |all| <= |f|
      invariant IsRead(f, |all|, buffer.Length, buffer[..r])
      decreases |f| - |all| - r, r
    {
      ReadsJoin(f, 0, |all|, all, buffer.Length, buffer[..r]);
      ReadLengths(f, |all|, buffer.Length, buffer[..r]);
      all := all + buffer[..r];
      r := ram.Read(n, |all|, buffer.Length, buffer);
    }
    ReadLengths(f, |all|, buffer.Length, buffer[..r]);
  }
}
