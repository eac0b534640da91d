// Partition tables and volumes: which tables are accepted, how requests are clipped,
// and why volumes do not reach into each other.
module Volumes {
  import opened Options
  import opened Words

  const SECTOR := 512
  const TABLE := 0x1BE
  const W32 := 0x1_0000_0000

  type Sector = s: seq<Byte> | |s| == SECTOR witness seq(SECTOR, _ => 0)

  datatype Partition = Partition(kind: Byte, start: nat, count: nat)

  datatype Kind = Fat32 | Other | Unset

  // Sectors from `start` up to, not including, `end`.
  datatype Volume = Volume(start: nat, end: nat, kind: Kind, disk: Option<nat>, id: int)

  // ---------------------------------------------------------------- the table

  function PartitionAt(sector: Sector, i: nat): (p: Partition)
    requires i < 4
    ensures p.start < W32 && p.count < W32
  {
    var at := TABLE + 16 * i;
    ValueBound(sector[at + 8..at + 12]);
    ValueBound(sector[at + 12..at + 16]);
    assert Pow256(4) == W32;
    Partition(sector[at + 4], Value(sector[at + 8..at + 12]), Value(sector[at + 12..at + 16]))
  }

  function LeastFirst(a: nat, b: nat, c: nat, d: nat): nat {
    a + 0x100 * b + 0x1_0000 * c + 0x100_0000 * d
  }

  lemma FourBytes(b: seq<Byte>)
    requires |b| == 4
    ensures Value(b) == LeastFirst(b[0], b[1], b[2], b[3])
  {
    var c := b[1..];
    var d := c[1..];
    var e := d[1..];
    assert c[0] == b[1] && d[0] == b[2] && e[0] == b[3] && e[1..] == [];
    assert Value(e) == e[0];
    assert Value(d) == d[0] + 256 * Value(e);
    assert Value(c) == c[0] + 256 * Value(d);
  }

  // Where an entry keeps its type and its two numbers, least significant byte first.
  lemma PartitionFields(sector: Sector, i: nat)
    requires i < 4
    ensures var p, at := PartitionAt(sector, i), 446 + 16 * i;
            && p.kind == sector[at + 4]
            && p.start == LeastFirst(sector[at + 8], sector[at + 9], sector[at + 10], sector[at + 11])
            && p.count == LeastFirst(sector[at + 12], sector[at + 13], sector[at + 14], sector[at + 15])
  {
    var at := TABLE + 16 * i;
    FourBytes(sector[at + 8..at + 12]);
    FourBytes(sector[at + 12..at + 16]);
  }

  // A table written entry by entry is read back, whatever its other bytes are.
  lemma TableRoundTrip(sector: Sector, ps: seq<Partition>)
    requires |ps| == 4 && forall i | 0 <= i < 4 :: ps[i].start < W32 && ps[i].count < W32
    requires forall i | 0 <= i < 4 :: EntryHolds(sector, i, ps[i])
    ensures Partitions(sector) == ps
  {
    assert Pow256(4) == W32;
    forall i: nat | i < 4
      ensures PartitionAt(sector, i) == ps[i]
    {
      assert EntryHolds(sector, i, ps[i]);
      ValueOfBytes(ps[i].start, 4);
      ValueOfBytes(ps[i].count, 4);
    }
  }

  predicate EntryHolds(sector: Sector, i: nat, p: Partition)
    requires i < 4
  {
    var at := 446 + 16 * i;
    && sector[at + 4] == p.kind
    && sector[at + 8..at + 12] == Bytes(p.start, 4) && sector[at + 12..at + 16] == Bytes(p.count, 4)
  }

  function Partitions(sector: Sector): seq<Partition> {
    [PartitionAt(sector, 0), PartitionAt(sector, 1), PartitionAt(sector, 2), PartitionAt(sector, 3)]
  }

  lemma PartitionsStep(sector: Sector, i: nat)
    requires i < 4
    ensures Partitions(sector)[..i + 1] == Partitions(sector)[..i] + [PartitionAt(sector, i)]
    ensures |Partitions(sector)| == 4 && Partitions(sector)[..4] == Partitions(sector) && Partitions(sector)[..0] == []
  {
  }

  function Used(ps: seq<Partition>): (r: seq<Partition>)
    ensures |r| <= |ps| && forall i | 0 <= i < |r| :: r[i] in ps && r[i].kind != 0
  {
    if ps == [] then [] else
      var rest := Used(ps[..|ps| - 1]);
      if ps[|ps| - 1].kind == 0 then rest else rest + [ps[|ps| - 1]]
  }

  lemma UsedSnoc(ps: seq<Partition>, p: Partition)
    ensures Used(ps + [p]) == if p.kind == 0 then Used(ps) else Used(ps) + [p]
  {
    assert (ps + [p])[..|ps|] == ps;
  }

  lemma LastOf<T>(a: seq<T>, b: seq<T>) returns (init: seq<T>, last: T)
    requires b != []
    ensures |init| == |b| - 1 && b == init + [last] && a + b == a + init + [last]
  {
    init, last := b[..|b| - 1], b[|b| - 1];
  }

  // Entries are dropped one by one: those of kind 0 and no others, in order.
  lemma {:induction false} UsedConcat(a: seq<Partition>, b: seq<Partition>)
    ensures Used(a + b) == Used(a) + Used(b)
    decreases |b|
  {
    if b == [] {
      assert a + b == a;
    } else {
      var init, last := LastOf(a, b);
      UsedConcat(a, init);
      UsedSnoc(init, last);
      UsedSnoc(a + init, last);
      if last.kind != 0 {
        assert Used(a) + Used(init) + [last] == Used(a) + (Used(init) + [last]);
      }
    }
  }

  lemma UsedOne(p: Partition)
    ensures Used([p]) == if p.kind == 0 then [] else [p]
  {
    UsedSnoc([], p);
    assert [] + [p] == [p];
  }

  // The end is computed in 32 bits.
  function VolumeOf(p: Partition): Volume {
    Volume(p.start, (p.start + p.count) % W32, if p.kind in {0x0B, 0x0C} then Fat32 else Other, None, -1)
  }

  function VolumesOf(ps: seq<Partition>): (r: seq<Volume>)
    ensures |r| == |ps| && forall i | 0 <= i < |ps| :: r[i] == VolumeOf(ps[i])
  {
    seq(|ps|, i requires 0 <= i < |ps| => VolumeOf(ps[i]))
  }

  lemma VolumesSnoc(ps: seq<Partition>, p: Partition)
    ensures VolumesOf(ps + [p]) == VolumesOf(ps) + [VolumeOf(p)]
  {
  }

  // The comparison of two volumes, as the code makes it.
  predicate Clash(v: Volume, w: Volume) {
    if v.start < w.start then v.end > w.start else w.end > v.start
  }

  predicate Accepted(vols: seq<Volume>) {
    && vols != []
    && (forall i | 0 <= i < |vols| :: vols[i].end != vols[i].start)
    && forall i, j | 0 <= j < i < |vols| :: !Clash(vols[i], vols[j])
  }

  // `diskmanager_mbr_check`: the number of volumes, or -1.
  method MbrCheck(sector: Sector) returns (r: int, found: seq<Volume>)
    ensures var vols := VolumesOf(Used(Partitions(sector)));
            if Accepted(vols) then r == |vols| && found == vols else r == -1 && found == []
  {
    var entries := new Volume[4](_ => Volume(0, 0, Unset, None, -1));
    var n := Collect(sector, entries);
    if n == 0 {
      return -1, [];
    }
    ghost var vols := entries[..n];
    var nonempty := NoneEmpty(entries, n);
    if !nonempty {
      return -1, [];
    }
    var apart := NoneClash(entries, n);
    if !apart {
      return -1, [];
    }
    return n, entries[..n];
  }

  method NoneEmpty(entries: array<Volume>, n: nat) returns (ok: bool)
    requires n <= entries.Length && forall i | 0 <= i < n :: entries[i].start < W32 && entries[i].end < W32
    ensures ok <==> forall i | 0 <= i < n :: entries[..n][i].end != entries[..n][i].start
  {
    for i := 0 to n
      invariant forall k | 0 <= k < i :: entries[k].end != entries[k].start
    {
      if (entries[i].end - entries[i].start) % WORD == 0 {
        assert entries[..n][i].end == entries[..n][i].start;
        return false;
      }
    }
    return true;
  }

  // The two nested loops over pairs.
  method NoneClash(entries: array<Volume>, n: nat) returns (ok: bool)
    requires n <= entries.Length
    ensures ok <==> forall i, j | 0 <= j < i < n :: !Clash(entries[..n][i], entries[..n][j])
  {
    for i := 0 to n
      invariant forall k, l | 0 <= l < k < i :: !Clash(entries[k], entries[l])
    {
      for j := 0 to i
        invariant forall l | 0 <= l < j :: !Clash(entries[i], entries[l])
      {
        if entries[i].start < entries[j].start {
          if entries[i].end > entries[j].start {
            assert Clash(entries[..n][i], entries[..n][j]);
            return false;
          }
        } else {
          if entries[j].end > entries[i].start {
            assert Clash(entries[..n][i], entries[..n][j]);
            return false;
          }
        }
      }
    }
    return true;
  }

  method ReadEntry(sector: Sector, i: nat) returns (p: Partition)
    requires i < 4
    ensures p == PartitionAt(sector, i) && p.start < W32
  {
    return PartitionAt(sector, i);
  }

  // The loop over the four entries.
  method Collect(sector: Sector, entries: array<Volume>) returns (n: nat)
    requires entries.Length == 4
    modifies entries
    ensures n <= 4 && entries[..n] == VolumesOf(Used(Partitions(sector)))
    ensures forall i | 0 <= i < n :: entries[i].start < W32 && entries[i].end < W32
  {
    n := 0;
    PartitionsStep(sector, 0);
    for i := 0 to 4
      invariant n <= i && entries[..n] == VolumesOf(Used(Partitions(sector)[..i]))
    {
      var p := ReadEntry(sector, i);
      CollectStep(sector, i, entries[..n]);
      if p.kind != 0 {
        Keep(entries, n, p);
        n := n + 1;
      }
    }
    UsedIn32Bits(Partitions(sector));
    assert forall i | 0 <= i < n :: entries[i] == entries[..n][i];
  }

  method Keep(entries: array<Volume>, n: nat, p: Partition)
    requires n < entries.Length
    modifies entries
    ensures entries[..n + 1] == old(entries[..n]) + [VolumeOf(p)]
  {
    entries[n] := VolumeOf(p);
  }

  lemma CollectStep(sector: Sector, i: nat, found: seq<Volume>)
    requires i < 4 && found == VolumesOf(Used(Partitions(sector)[..i]))
    ensures var p := PartitionAt(sector, i);
            VolumesOf(Used(Partitions(sector)[..i + 1])) == if p.kind == 0 then found else found + [VolumeOf(p)]
    ensures Partitions(sector)[..4] == Partitions(sector)
  {
    var ps, p := Partitions(sector)[..i], PartitionAt(sector, i);
    PartitionsStep(sector, i);
    UsedSnoc(ps, p);
    VolumesSnoc(Used(ps), p);
  }

  // ---------------------------------------------------------------- what acceptance means

  predicate InPartition(p: Partition, x: int) {
    p.start <= x < p.start + p.count
  }

  predicate InVolume(v: Volume, x: int) {
    v.start <= x < v.end
  }

  ghost predicate Covers(v: Volume, p: Partition) {
    forall x :: InVolume(v, x) <==> InPartition(p, x)
  }

  // The volume of an entry whose end does not wrap is the entry's sectors; its kind is
  // told from the two types of FAT32.
  lemma VolumeCovers(p: Partition)
    requires p.start + p.count < W32
    ensures Covers(VolumeOf(p), p)
    ensures VolumeOf(p).kind == Fat32 <==> p.kind == 0x0B || p.kind == 0x0C
  {
  }

  ghost predicate Overlap(p: Partition, q: Partition) {
    exists x :: InPartition(p, x) && InPartition(q, x)
  }

  // What a table should be: something in it, nothing empty, no sector in two entries.
  ghost predicate Proper(ps: seq<Partition>) {
    && ps != []
    && (forall i | 0 <= i < |ps| :: ps[i].count > 0)
    && forall i, j | 0 <= i < j < |ps| :: !Overlap(ps[i], ps[j])
  }

  predicate NoWrap(ps: seq<Partition>) {
    forall i | 0 <= i < |ps| :: ps[i].start + ps[i].count < W32
  }

  predicate In32Bits(ps: seq<Partition>) {
    forall i | 0 <= i < |ps| :: ps[i].start < W32 && ps[i].count < W32
  }

  predicate Wraps(p: Partition) {
    p.start + p.count >= W32
  }

  // Only a partition that starts behind all others wraps.
  predicate OnlyLastWraps(ps: seq<Partition>) {
    forall i, j | 0 <= i < |ps| && 0 <= j < |ps| && i != j && Wraps(ps[i]) :: ps[j].start < ps[i].start
  }

  lemma ClashIsOverlap(p: Partition, q: Partition)
    requires p.start < W32 && 0 < p.count < W32 && q.start < W32 && 0 < q.count < W32
    requires (Wraps(p) ==> q.start < p.start) && (Wraps(q) ==> p.start < q.start)
    ensures Clash(VolumeOf(p), VolumeOf(q)) <==> Overlap(p, q)
  {
    var x := if p.start < q.start then q.start else p.start;
    if Clash(VolumeOf(p), VolumeOf(q)) {
      assert InPartition(p, x) && InPartition(q, x);
    }
  }

  lemma ProperOnlyLastWraps(ps: seq<Partition>)
    requires In32Bits(ps) && Proper(ps)
    ensures OnlyLastWraps(ps)
  {
    forall i, j | 0 <= i < |ps| && 0 <= j < |ps| && i != j && Wraps(ps[i])
      ensures ps[j].start < ps[i].start
    {
      if ps[i].start <= ps[j].start {
        assert InPartition(ps[i], ps[j].start) && InPartition(ps[j], ps[j].start);
        assert Overlap(ps[i], ps[j]) && Overlap(ps[j], ps[i]);
      }
    }
  }

  // The proper tables are those that are accepted and in which at most the partition
  // that starts last wraps. In particular none is rejected.
  lemma ProperIffAccepted(ps: seq<Partition>)
    requires In32Bits(ps)
    ensures Proper(ps) <==> Accepted(VolumesOf(ps)) && OnlyLastWraps(ps)
    ensures NoWrap(ps) ==> (Proper(ps) <==> Accepted(VolumesOf(ps)))
  {
    if Proper(ps) {
      ProperOnlyLastWraps(ps);
      ProperIsAccepted(ps);
    }
    if Accepted(VolumesOf(ps)) && OnlyLastWraps(ps) {
      AcceptedIsProper(ps);
    }
  }

  lemma ProperIsAccepted(ps: seq<Partition>)
    requires In32Bits(ps) && Proper(ps) && OnlyLastWraps(ps)
    ensures Accepted(VolumesOf(ps))
  {
    var vols := VolumesOf(ps);
    forall i, j | 0 <= j < i < |ps|
      ensures !Clash(vols[i], vols[j])
    {
      assert !Overlap(ps[j], ps[i]);
      ClashIsOverlap(ps[i], ps[j]);
    }
  }

  lemma AcceptedIsProper(ps: seq<Partition>)
    requires In32Bits(ps) && Accepted(VolumesOf(ps)) && OnlyLastWraps(ps)
    ensures Proper(ps)
  {
    var vols := VolumesOf(ps);
    forall i | 0 <= i < |ps|
      ensures ps[i].count > 0
    {
      assert vols[i].end != vols[i].start;
    }
    forall i, j | 0 <= i < j < |ps|
      ensures !Overlap(ps[i], ps[j])
    {
      assert !Clash(vols[j], vols[i]);
      ClashIsOverlap(ps[j], ps[i]);
    }
  }

  ghost predicate VolumesDisjoint(v: Volume, w: Volume) {
    forall x :: !(InVolume(v, x) && InVolume(w, x))
  }

  // The volumes are nonempty intervals that do not meet.
  ghost predicate Sound(vols: seq<Volume>) {
    && (forall i | 0 <= i < |vols| :: vols[i].start < vols[i].end)
    && forall i, j | 0 <= i < j < |vols| :: VolumesDisjoint(vols[i], vols[j])
  }

  // An accepted table gives sound volumes exactly when no end wraps.
  lemma AcceptedIsSoundIffNoWrap(ps: seq<Partition>)
    requires In32Bits(ps) && Accepted(VolumesOf(ps))
    ensures Sound(VolumesOf(ps)) <==> NoWrap(ps)
  {
    var vols := VolumesOf(ps);
    if NoWrap(ps) {
      forall i | 0 <= i < |vols|
        ensures vols[i].start < vols[i].end
      {
        assert vols[i].end != vols[i].start;
      }
      forall i, j | 0 <= i < j < |vols|
        ensures VolumesDisjoint(vols[i], vols[j])
      {
        assert !Clash(vols[j], vols[i]);
      }
    } else {
      var i :| 0 <= i < |ps| && ps[i].start + ps[i].count >= W32;
      assert vols[i].end < vols[i].start;
    }
  }

  // Two entries that overlap are accepted when their ends wrap.
  lemma WrapHidesOverlap()
    ensures var ps := [Partition(0x0C, 0xFFFF_FFFE, 4), Partition(0x0C, 0xFFFF_FFFF, 4)];
            In32Bits(ps) && Accepted(VolumesOf(ps)) && !Proper(ps)
  {
    var ps := [Partition(0x0C, 0xFFFF_FFFE, 4), Partition(0x0C, 0xFFFF_FFFF, 4)];
    assert InPartition(ps[0], 0xFFFF_FFFF) && InPartition(ps[1], 0xFFFF_FFFF);
    assert Overlap(ps[0], ps[1]);
  }

  // ---------------------------------------------------------------- requests

  // The sectors asked of the drive, first and number, unless the request is turned away.
  datatype Request = Rejected | Sectors(first: nat, count: nat)

  function Clip(v: Volume, lba: nat, count: nat): (r: Request)
    ensures r.Sectors? ==> r.count <= count
  {
    var first := (lba + v.start) % WORD;
    if first > v.end then Rejected else
      var end := (first + count) % WORD;
      Sectors(first, ((if end > v.end then v.end else end) - first) % WORD % W32)
  }

  ghost predicate StaysInside(v: Volume, r: Request) {
    r.Sectors? ==> forall x: int | r.first <= x < r.first + r.count :: InVolume(v, x)
  }

  // A request that is not turned away stays inside the volume exactly when it is empty
  // or its last sector has a number below 2^64.
  lemma StaysInsideIff(v: Volume, lba: nat, count: nat)
    requires v.start <= v.end < WORD && lba < WORD && count < W32 && Clip(v, lba, count).Sectors?
    ensures StaysInside(v, Clip(v, lba, count)) <==> count == 0 || lba + v.start + count < WORD
  {
    var r := Clip(v, lba, count);
    if lba + v.start + count < WORD {
      ClipInRange(v, lba, count);
    } else if count > 0 {
      if lba + v.start >= WORD {
        assert r.first == lba + v.start - WORD && r.count > 0;
        assert !InVolume(v, r.first);
      } else {
        assert r.count == count;
        assert !InVolume(v, r.first + r.count - 1);
      }
    }
  }

  // ---------------------------------------------------------------- the drive

  const BATCH := 255

  // How many of the sectors the drive moves at once.
  function Moved(size: nat, r: Request): (n: nat)
    ensures r.Sectors? ==> n <= r.count && (n > 0 ==> r.first + n <= size)
    ensures n <= BATCH
  {
    if r.Rejected? || r.first > size then 0 else
      var limit := if r.count + r.first > size then size - r.first else r.count;
      if limit > BATCH then BATCH else limit
  }

  // What a read of a volume returns.
  function VolumeRead(disk: seq<Sector>, v: Volume, lba: nat, count: nat): seq<Sector> {
    var r := Clip(v, lba, count);
    var n := Moved(|disk|, r);
    if n == 0 then [] else disk[r.first..r.first + n]
  }

  function Splice(disk: seq<Sector>, at: nat, part: seq<Sector>): (disk': seq<Sector>)
    requires at + |part| <= |disk|
    ensures |disk'| == |disk| && disk'[at..at + |part|] == part
    ensures forall x | 0 <= x < |disk| :: disk'[x] == if at <= x < at + |part| then part[x - at] else disk[x]
  {
    disk[..at] + part + disk[at + |part|..]
  }

  // The drive after a write to a volume.
  function VolumeWrite(disk: seq<Sector>, v: Volume, lba: nat, data: seq<Sector>): (disk': seq<Sector>)
    ensures |disk'| == |disk|
  {
    var r := Clip(v, lba, |data|);
    var n := Moved(|disk|, r);
    if n == 0 then disk else Splice(disk, r.first, data[..n])
  }

  // The request does not run past 2^64.
  predicate InRange(v: Volume, lba: nat, count: nat) {
    lba < WORD && count < W32 && lba + v.start + count < WORD
  }

  // `n` sectors are what a request for `count` gets that starts at sector `at` of a disk of
  // `size` sectors: as many as asked for, unless the volume, the disk or one transfer ends
  // before.
  predicate Reaches(v: Volume, size: nat, at: nat, count: nat, n: nat) {
    && n <= count && n <= BATCH && (n > 0 ==> at + n <= v.end && at + n <= size)
    && (n == count || n == BATCH || at + n >= v.end || at + n >= size)
  }

  lemma ClipInRange(v: Volume, lba: nat, count: nat)
    requires v.start <= v.end < WORD && InRange(v, lba, count)
    ensures var at := v.start + lba;
            Clip(v, lba, count) ==
            if at > v.end then Rejected else Sectors(at, if at + count > v.end then v.end - at else count)
  {
  }

  // A request finds the sectors it asks for, counted from the start of the volume.
  lemma ReadFinds(disk: seq<Sector>, v: Volume, lba: nat, count: nat)
    requires v.start <= v.end < WORD && InRange(v, lba, count)
    ensures var part, at := VolumeRead(disk, v, lba, count), v.start + lba;
            && Reaches(v, |disk|, at, count, |part|)
            && forall i | 0 <= i < |part| :: at + i < |disk| && part[i] == disk[at + i]
  {
    ClipInRange(v, lba, count);
  }

  // A write changes those sectors and no others.
  lemma WriteFinds(disk: seq<Sector>, v: Volume, lba: nat, data: seq<Sector>, x: nat)
    requires v.start <= v.end < WORD && InRange(v, lba, |data|) && x < |disk|
    ensures var at, n := v.start + lba, |VolumeRead(disk, v, lba, |data|)|;
            VolumeWrite(disk, v, lba, data)[x] == if at <= x < at + n then data[x - at] else disk[x]
  {
    ClipInRange(v, lba, |data|);
    SectorAfterWrite(disk, v, lba, data, x);
  }

  // After a write, a read of the same volume or another gives the sectors written where it
  // meets them, and all others as before.
  lemma ReadOverWrite(disk: seq<Sector>, v: Volume, lba: nat, data: seq<Sector>, w: Volume, at: nat, count: nat)
    requires v.start <= v.end < WORD && w.start <= w.end < WORD
    requires InRange(v, lba, |data|) && InRange(w, at, count)
    ensures var n := |VolumeRead(disk, v, lba, |data|)|;
            var before, after := VolumeRead(disk, w, at, count),
                                 VolumeRead(VolumeWrite(disk, v, lba, data), w, at, count);
            && |after| == |before| && n <= |data|
            && forall i | 0 <= i < |after| ::
                 var x := w.start + at + i - (v.start + lba);
                 after[i] == if 0 <= x < n then data[x] else before[i]
  {
    var disk' := VolumeWrite(disk, v, lba, data);
    ReadFinds(disk, v, lba, |data|);
    ReadFinds(disk, w, at, count);
    ReadFinds(disk', w, at, count);
    forall x: nat | x < |disk|
      ensures var at, n := v.start + lba, |VolumeRead(disk, v, lba, |data|)|;
              disk'[x] == if at <= x < at + n then data[x - at] else disk[x]
    {
      WriteFinds(disk, v, lba, data, x);
    }
  }

  lemma SectorAfterWrite(disk: seq<Sector>, v: Volume, lba: nat, data: seq<Sector>, x: nat)
    requires x < |disk|
    ensures var r := Clip(v, lba, |data|);
            VolumeWrite(disk, v, lba, data)[x] ==
            if r.Sectors? && r.first <= x < r.first + Moved(|disk|, r) then data[x - r.first] else disk[x]
  {
  }

  // A write changes no sector outside the volume.
  lemma WriteStaysInside(disk: seq<Sector>, v: Volume, lba: nat, data: seq<Sector>, x: nat)
    requires v.start <= v.end < WORD && InRange(v, lba, |data|) && x < |disk| && !InVolume(v, x)
    ensures VolumeWrite(disk, v, lba, data)[x] == disk[x]
  {
    var r := Clip(v, lba, |data|);
    SectorAfterWrite(disk, v, lba, data, x);
    if r.Sectors? {
      StaysInsideIff(v, lba, |data|);
      assert r.first <= x < r.first + r.count ==> InVolume(v, x);
    }
  }

  // A write to one volume changes no read of a disjoint one.
  lemma WriteIsolation(disk: seq<Sector>, v: Volume, w: Volume, lba: nat, data: seq<Sector>, at: nat, count: nat)
    requires v.start <= v.end < WORD && w.start <= w.end < WORD && VolumesDisjoint(v, w)
    requires InRange(v, lba, |data|) && InRange(w, at, count)
    ensures VolumeRead(VolumeWrite(disk, v, lba, data), w, at, count) == VolumeRead(disk, w, at, count)
  {
    var disk' := VolumeWrite(disk, v, lba, data);
    var r := Clip(w, at, count);
    var n := Moved(|disk|, r);
    if n > 0 {
      StaysInsideIff(w, at, count);
      forall x: nat | r.first <= x < r.first + n
        ensures disk'[x] == disk[x]
      {
        assert InVolume(w, x);
        WriteStaysInside(disk, v, lba, data, x);
      }
    }
  }

  // A read of what was written returns the sectors that the write moved.
  lemma ReadAfterWrite(disk: seq<Sector>, v: Volume, lba: nat, data: seq<Sector>)
    ensures VolumeRead(VolumeWrite(disk, v, lba, data), v, lba, |data|) == data[..Moved(|disk|, Clip(v, lba, |data|))]
  {
    var n := Moved(|disk|, Clip(v, lba, |data|));
    assert n > 0 ==> |data[..n]| == n;
  }

  // A request that wraps writes outside its volume.
  lemma WrapEscapes(v: Volume, disk: seq<Sector>, s: Sector)
    requires v.start == 100 && v.end == 200 && |disk| == 300 && disk[50] != s
    ensures VolumeWrite(disk, v, WORD - 50, [s])[50] != disk[50] && !InVolume(v, 50)
  {
    assert Clip(v, WORD - 50, 1) == Sectors(50, 1);
    SectorAfterWrite(disk, v, WORD - 50, [s], 50);
  }

  // ---------------------------------------------------------------- runs

  datatype VolumeWriteOp = VolumeWriteOp(volume: nat, lba: nat, data: seq<Sector>)

  ghost predicate RunInRange(vols: seq<Volume>, ops: seq<VolumeWriteOp>) {
    forall i | 0 <= i < |ops| :: ops[i].volume < |vols| && InRange(vols[ops[i].volume], ops[i].lba, |ops[i].data|)
  }

  function RunWrites(disk: seq<Sector>, vols: seq<Volume>, ops: seq<VolumeWriteOp>): seq<Sector>
    requires forall i | 0 <= i < |ops| :: ops[i].volume < |vols|
    decreases |ops|
  {
    if ops == [] then disk
    else RunWrites(VolumeWrite(disk, vols[ops[0].volume], ops[0].lba, ops[0].data), vols, ops[1..])
  }

  // On the volumes of a proper table whose ends do not wrap, no run of writes to the
  // other volumes changes what a volume reads.
  lemma {:induction false} RunIsolation(disk: seq<Sector>, ps: seq<Partition>, ops: seq<VolumeWriteOp>,
                                        w: nat, at: nat, count: nat)
    requires In32Bits(ps) && NoWrap(ps) && Proper(ps) && w < |ps|
    requires RunInRange(VolumesOf(ps), ops) && InRange(VolumesOf(ps)[w], at, count)
    requires forall i | 0 <= i < |ops| :: ops[i].volume != w
    ensures var vols := VolumesOf(ps);
            VolumeRead(RunWrites(disk, vols, ops), vols[w], at, count) == VolumeRead(disk, vols[w], at, count)
    decreases |ops|
  {
    if ops != [] {
      var vols := VolumesOf(ps);
      ProperIffAccepted(ps);
      AcceptedIsSoundIffNoWrap(ps);
      var op := ops[0];
      assert VolumesDisjoint(vols[op.volume], vols[w]);
      WriteIsolation(disk, vols[op.volume], vols[w], op.lba, op.data, at, count);
      RunIsolation(VolumeWrite(disk, vols[op.volume], op.lba, op.data), ps, ops[1..], w, at, count);
    }
  }

  // ---------------------------------------------------------------- the disk manager

  const MAX_VOLUMES := 16
  const SIGNATURE: seq<Byte> := [0x55, 0xAA]

  // Volume `i` of a table, on disk `d`, numbered from `id`.
  function Placed(vols: seq<Volume>, d: nat, id: nat): (r: seq<Volume>)
    ensures |r| == |vols|
  {
    seq(|vols|, i requires 0 <= i < |vols| => vols[i].(disk := Some(d), id := id + i))
  }

  // The volumes found on a disk: those of an accepted table, or the disk as a whole.
  function Discovered(disk: seq<Sector>, d: nat, id: nat): (r: seq<Volume>)
    ensures |r| <= 4
  {
    if |disk| == 0 || disk[0][SECTOR - 2..] != SIGNATURE then [] else
      var vols := VolumesOf(Used(Partitions(disk[0])));
      if Accepted(vols) then Placed(vols, d, id) else [Volume(0, |disk|, Unset, Some(d), id)]
  }

  lemma SignatureBytes(sector: Sector)
    ensures sector[SECTOR - 2..] == SIGNATURE <==> sector[510] == 0x55 && sector[511] == 0xAA
  {
    var tail := sector[SECTOR - 2..];
    assert tail[0] == sector[510] && tail[1] == sector[511];
  }

  // The volumes are those of the entries, in order.
  ghost predicate CoverAll(vols: seq<Volume>, ps: seq<Partition>) {
    |vols| == |ps| && forall i | 0 <= i < |ps| && !Wraps(ps[i]) :: Covers(vols[i], ps[i])
  }

  lemma PlacedCover(ps: seq<Partition>, d: nat, id: nat)
    ensures CoverAll(Placed(VolumesOf(ps), d, id), ps)
  {
    forall i | 0 <= i < |ps| && !Wraps(ps[i])
      ensures Covers(Placed(VolumesOf(ps), d, id)[i], ps[i])
    {
      VolumeCovers(ps[i]);
    }
  }

  // A disk with a signature has a volume for every used entry of an accepted table, in
  // order and with the entry's sectors, or else one with all sectors of the disk.
  lemma DiscoveredCover(disk: seq<Sector>, d: nat, id: nat)
    ensures var vols := Discovered(disk, d, id);
            && (forall i | 0 <= i < |vols| :: vols[i].disk == Some(d) && vols[i].id == id + i)
            && if |disk| == 0 || disk[0][510] != 0x55 || disk[0][511] != 0xAA then vols == []
               else if Accepted(VolumesOf(Used(Partitions(disk[0])))) then CoverAll(vols, Used(Partitions(disk[0])))
               else |vols| == 1 && forall x :: InVolume(vols[0], x) <==> 0 <= x < |disk|
  {
    if |disk| > 0 {
      SignatureBytes(disk[0]);
      PlacedCover(Used(Partitions(disk[0])), d, id);
    }
  }

  function DiscoverAll(disks: seq<seq<Sector>>): (r: seq<Volume>)
    ensures |r| <= 4 * |disks|
  {
    if disks == [] then [] else
      var found := DiscoverAll(disks[..|disks| - 1]);
      found + Discovered(disks[|disks| - 1], |disks| - 1, |found|)
  }

  // No partition of the disk's table wraps.
  predicate TableOk(disk: seq<Sector>) {
    |disk| > 0 ==> NoWrap(Used(Partitions(disk[0])))
  }

  // Volumes of one disk do not meet, and each knows its number and a disk below `n`.
  ghost predicate VolumesOk(vols: seq<Volume>, n: nat) {
    && (forall i | 0 <= i < |vols| :: vols[i].id == i && vols[i].start <= vols[i].end
                                       && vols[i].disk.Some? && vols[i].disk.value < n)
    && forall i, j | 0 <= i < j < |vols| && vols[i].disk == vols[j].disk :: VolumesDisjoint(vols[i], vols[j])
  }

  lemma DiscoveredOk(disk: seq<Sector>, d: nat, id: nat)
    requires TableOk(disk)
    ensures var vols := Discovered(disk, d, id);
            && (forall i | 0 <= i < |vols| ::
                  vols[i].id == id + i && vols[i].start <= vols[i].end && vols[i].disk == Some(d))
            && forall i, j | 0 <= i < j < |vols| :: VolumesDisjoint(vols[i], vols[j])
  {
    if |disk| > 0 {
      var ps := Used(Partitions(disk[0]));
      if Accepted(VolumesOf(ps)) {
        UsedIn32Bits(Partitions(disk[0]));
        AcceptedIsSoundIffNoWrap(ps);
        PlacedOk(VolumesOf(ps), d, id);
      }
    }
  }

  lemma UsedIn32Bits(ps: seq<Partition>)
    requires In32Bits(ps)
    ensures In32Bits(Used(ps))
  {
  }

  lemma PlacedOk(vols: seq<Volume>, d: nat, id: nat)
    requires Sound(vols)
    ensures Sound(Placed(vols, d, id))
  {
    var r := Placed(vols, d, id);
    forall i, j | 0 <= i < j < |r|
      ensures VolumesDisjoint(r[i], r[j])
    {
      assert VolumesDisjoint(vols[i], vols[j]);
      forall x
        ensures !(InVolume(r[i], x) && InVolume(r[j], x))
      {
        assert InVolume(r[i], x) == InVolume(vols[i], x);
      }
    }
  }

  // After all disks are set up, no two volumes of one disk share a sector.
  lemma {:induction false} DiscoverAllOk(disks: seq<seq<Sector>>)
    requires forall d | 0 <= d < |disks| :: TableOk(disks[d])
    ensures VolumesOk(DiscoverAll(disks), |disks|)
    decreases |disks|
  {
    if disks != [] {
      var d := |disks| - 1;
      DiscoverAllOk(disks[..d]);
      var found := DiscoverAll(disks[..d]);
      DiscoveredOk(disks[d], d, |found|);
    }
  }

  lemma {:induction false} DiscoverGrows(disks: seq<seq<Sector>>, k: nat)
    requires k <= |disks|
    ensures |DiscoverAll(disks[..k])| <= |DiscoverAll(disks)|
    decreases |disks|
  {
    if k < |disks| {
      DiscoverGrows(disks[..|disks| - 1], k);
      assert disks[..|disks| - 1][..k] == disks[..k];
    } else {
      assert disks[..k] == disks;
    }
  }

  lemma DiscoverStep(disks: seq<seq<Sector>>, d: nat)
    requires d < |disks|
    ensures var found := DiscoverAll(disks[..d]);
            && DiscoverAll(disks[..d + 1]) == found + Discovered(disks[d], d, |found|)
            && |DiscoverAll(disks[..d + 1])| <= |DiscoverAll(disks)|
  {
    assert disks[..d + 1][..d] == disks[..d];
    DiscoverGrows(disks, d + 1);
  }

  class Drive {
    var sectors: array<Sector>

    constructor (size: nat)
      ensures sectors.Length == size && fresh(sectors)
    {
      sectors := new Sector[size];
    }

    // The driver's read, with its limit on one transfer.
    method Read(first: nat, count: nat, buffer: array<Sector>) returns (r: int)
      requires count <= buffer.Length && buffer != sectors
      modifies buffer
      ensures r == Moved(sectors.Length, Sectors(first, count))
      ensures r > 0 ==> buffer[..r] == sectors[first..first + r]
      ensures buffer[r..] == old(buffer[r..])
    {
      var limit := Moved(sectors.Length, Sectors(first, count));
      for i := 0 to limit
        invariant i > 0 ==> buffer[..i] == sectors[first..first + i]
        invariant buffer[limit..] == old(buffer[limit..])
      {
        buffer[i] := sectors[first + i];
      }
      return limit;
    }

    method Write(first: nat, data: seq<Sector>, count: nat) returns (r: int)
      requires count <= |data|
      modifies sectors
      ensures r == Moved(sectors.Length, Sectors(first, count))
      ensures sectors[..] == if r == 0 then old(sectors[..]) else Splice(old(sectors[..]), first, data[..r])
    {
      var limit := Moved(sectors.Length, Sectors(first, count));
      for i := 0 to limit
        invariant forall x | 0 <= x < sectors.Length ::
                    sectors[x] == if first <= x < first + i then data[x - first] else old(sectors[..])[x]
      {
        sectors[first + i] := data[i];
      }
      return limit;
    }
  }

  class DiskManager {
    const drives: seq<Drive>
    var volumes: seq<Volume>

    ghost predicate Valid()
      reads this, drives
    {
      forall i, j | 0 <= i < j < |drives| :: drives[i] != drives[j] && drives[i].sectors != drives[j].sectors
    }

    constructor (drives: seq<Drive>)
      requires forall i, j | 0 <= i < j < |drives| :: drives[i] != drives[j] && drives[i].sectors != drives[j].sectors
      ensures Valid() && volumes == [] && this.drives == drives
    {
      this.drives := drives;
      volumes := [];
    }

    ghost function Disks(): (r: seq<seq<Sector>>)
      reads drives, set d | d in drives :: d.sectors
      ensures |r| == |drives|
    {
      seq(|drives|, d requires 0 <= d < |drives| reads drives, set x | x in drives :: x.sectors =>
        drives[d].sectors[..])
    }

    method Register(found: seq<Volume>, d: nat)
      modifies this
      ensures volumes == old(volumes) + Placed(found, d, |old(volumes)|)
    {
      for i := 0 to |found|
        invariant volumes == old(volumes) + Placed(found, d, |old(volumes)|)[..i]
      {
        volumes := volumes + [found[i].(disk := Some(d), id := |volumes|)];
      }
    }

    // `diskmanager_setup_drive`. The number of volumes is not checked.
    method SetupDrive(d: nat)
      requires Valid() && d < |drives|
      requires |volumes| + |Discovered(drives[d].sectors[..], d, |volumes|)| <= MAX_VOLUMES
      modifies this
      ensures Valid() && volumes == old(volumes) + Discovered(drives[d].sectors[..], d, |old(volumes)|)
    {
      var firstSector := new Sector[1];
      var readCount := drives[d].Read(0, 1, firstSector);
      if readCount != 1 {
        return;
      }
      assert firstSector[0] == firstSector[..1][0] == drives[d].sectors[0];
      if firstSector[0][SECTOR - 2..] != SIGNATURE {
        return;
      }
      var count, found := MbrCheck(firstSector[0]);
      if count > 0 {
        Register(found, d);
      } else {
        volumes := volumes + [Volume(0, drives[d].sectors.Length, Unset, Some(d), |volumes|)];
      }
    }

    // `diskmanager_init`.
    method Init()
      requires Valid() && volumes == [] && |DiscoverAll(Disks())| <= MAX_VOLUMES
      modifies this
      ensures Valid() && volumes == DiscoverAll(Disks())
      ensures (forall d | 0 <= d < |drives| :: TableOk(Disks()[d])) ==> VolumesOk(volumes, |drives|)
    {
      ghost var disks := Disks();
      for d := 0 to |drives|
        invariant Valid() && volumes == DiscoverAll(disks[..d])
      {
        DiscoverStep(disks, d);
        assert drives[d].sectors[..] == disks[d];
        SetupDrive(d);
      }
      assert disks[..|drives|] == disks && Disks() == disks;
      if forall d | 0 <= d < |drives| :: TableOk(disks[d]) {
        DiscoverAllOk(disks);
      }
    }

    // `diskmanager_read_volume`.
    method ReadVolume(v: Volume, lba: nat, count: nat, buffer: array<Sector>) returns (r: int)
      requires count <= buffer.Length && (v.disk.Some? ==> v.disk.value < |drives|)
      requires forall d | d in drives :: d.sectors != buffer
      modifies buffer
      ensures v.disk.None? ==> r == -1
      ensures v.disk.Some? ==>
                0 <= r <= count && buffer[..r] == VolumeRead(drives[v.disk.value].sectors[..], v, lba, count)
      ensures v.disk.Some? && v.start <= v.end < WORD && InRange(v, lba, count) ==>
                && Reaches(v, drives[v.disk.value].sectors.Length, v.start + lba, count, r)
                && forall i | 0 <= i < r :: buffer[i] == drives[v.disk.value].sectors[v.start + lba + i]
    {
      if v.disk.None? {
        return -1;
      }
      ghost var disk := drives[v.disk.value].sectors[..];
      r := ReadClipped(v, lba, count, buffer);
      if v.start <= v.end < WORD && InRange(v, lba, count) {
        ReadFinds(disk, v, lba, count);
        assert forall i | 0 <= i < r :: buffer[i] == buffer[..r][i];
      }
    }

    method ReadClipped(v: Volume, lba: nat, count: nat, buffer: array<Sector>) returns (r: int)
      requires count <= buffer.Length && v.disk.Some? && v.disk.value < |drives|
      requires forall d | d in drives :: d.sectors != buffer
      modifies buffer
      ensures 0 <= r <= count && buffer[..r] == VolumeRead(drives[v.disk.value].sectors[..], v, lba, count)
    {
      var actualLba := (lba + v.start) % WORD;
      if actualLba > v.end {
        return 0;
      }
      var actualEnd := (actualLba + count) % WORD;
      if actualEnd > v.end {
        actualEnd := v.end;
      }
      assert Clip(v, lba, count) == Sectors(actualLba, (actualEnd - actualLba) % WORD % W32);
      r := drives[v.disk.value].Read(actualLba, (actualEnd - actualLba) % WORD % W32, buffer);
    }

    // `diskmanager_write_volume`.
    method WriteVolume(v: Volume, lba: nat, data: seq<Sector>) returns (r: int)
      requires Valid() && v.disk.Some? && v.disk.value < |drives|
      modifies drives[v.disk.value].sectors
      ensures r == Moved(drives[v.disk.value].sectors.Length, Clip(v, lba, |data|))
      ensures drives[v.disk.value].sectors[..] == VolumeWrite(old(drives[v.disk.value].sectors[..]), v, lba, data)
      ensures v.start <= v.end < WORD && InRange(v, lba, |data|) ==>
                && Reaches(v, drives[v.disk.value].sectors.Length, v.start + lba, |data|, r)
                && forall x | 0 <= x < drives[v.disk.value].sectors.Length ::
                     drives[v.disk.value].sectors[x] ==
                     if v.start + lba <= x < v.start + lba + r then data[x - (v.start + lba)]
                     else old(drives[v.disk.value].sectors[x])
    {
      ghost var disk := drives[v.disk.value].sectors[..];
      r := WriteClipped(v, lba, data);
      if v.start <= v.end < WORD && InRange(v, lba, |data|) {
        ReadFinds(disk, v, lba, |data|);
        forall x | 0 <= x < drives[v.disk.value].sectors.Length
          ensures drives[v.disk.value].sectors[x] ==
                  if v.start + lba <= x < v.start + lba + r then data[x - (v.start + lba)] else disk[x]
        {
          WriteFinds(disk, v, lba, data, x);
        }
      }
    }

    method WriteClipped(v: Volume, lba: nat, data: seq<Sector>) returns (r: int)
      requires Valid() && v.disk.Some? && v.disk.value < |drives|
      modifies drives[v.disk.value].sectors
      ensures r == Moved(drives[v.disk.value].sectors.Length, Clip(v, lba, |data|))
      ensures r == |VolumeRead(old(drives[v.disk.value].sectors[..]), v, lba, |data|)|
      ensures drives[v.disk.value].sectors[..] == VolumeWrite(old(drives[v.disk.value].sectors[..]), v, lba, data)
    {
      var actualLba := (lba + v.start) % WORD;
      if actualLba > v.end {
        return 0;
      }
      var actualEnd := (actualLba + |data|) % WORD;
      if actualEnd > v.end {
        actualEnd := v.end;
      }
      assert Clip(v, lba, |data|) == Sectors(actualLba, (actualEnd - actualLba) % WORD % W32);
      r := drives[v.disk.value].Write(actualLba, data, (actualEnd - actualLba) % WORD % W32);
    }
  }
}
