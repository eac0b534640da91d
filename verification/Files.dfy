// File contents: growing buffers, reads and writes, and the independent byte strings
// they implement. A hole left by a write past the end has no specified content.
module Files {
  import opened Options
  import opened Words

  const INITIAL_SIZE := 16

  // ---------------------------------------------------------------- byte strings

  // A file's bytes; a byte of a hole is unspecified.
  type File = seq<Option<Byte>>

  function Max(a: nat, b: nat): nat {
    if a < b then b else a
  }

  function WrittenByte(f: File, off: nat, data: seq<Byte>, k: nat): Option<Byte> {
    if off <= k < off + |data| then Some(data[k - off]) else if k < |f| then f[k] else None
  }

  function Written(f: File, off: nat, data: seq<Byte>): File {
    seq(Max(|f|, off + |data|), k requires 0 <= k => WrittenByte(f, off, data, k))
  }

  function ReadLength(f: File, off: nat, limit: nat): nat {
    if off >= |f| then 0 else if limit < |f| - off then limit else |f| - off
  }

  // `r` is what a read of `limit` bytes at `off` may return.
  ghost predicate IsRead(f: File, off: nat, limit: nat, r: seq<Byte>) {
    && |r| == ReadLength(f, off, limit)
    && forall k | 0 <= k < |r| && f[off + k].Some? :: r[k] == f[off + k].value
  }

  // A read that overlaps the bytes just written returns them there, and around them
  // what a read before could return; a write then read of the same range is exact, and a
  // read to the end finds the file grown to the end of the write and never shrunk.
  lemma ReadBack(f: File, off: nat, data: seq<Byte>, o: nat, limit: nat, r: seq<Byte>)
    requires IsRead(Written(f, off, data), o, limit, r)
    ensures forall k | 0 <= k < |r| && off <= o + k < off + |data| :: r[k] == data[o + k - off]
    ensures forall k | 0 <= k < |r| && !(off <= o + k < off + |data|) && o + k < |f| && f[o + k].Some? ::
              r[k] == f[o + k].value
    ensures o == off && limit == |data| ==> r == data
    ensures |f| <= o + limit && off + |data| <= o + limit && o <= |f| ==>
              o + |r| == if |f| < off + |data| then off + |data| else |f|
  {
    var w := Written(f, off, data);
    forall j | o <= j < o + |r|
      ensures w[j] == WrittenByte(f, off, data, j)
    {
    }
  }

  // How much a read gives: nothing exactly when nothing is asked for or nothing is left,
  // as much as is asked for when that much is left, and otherwise all that is left.
  lemma ReadLengths(f: File, off: nat, limit: nat, r: seq<Byte>)
    requires IsRead(f, off, limit, r)
    ensures r == [] <==> limit == 0 || off >= |f|
    ensures off + limit <= |f| ==> |r| == limit
    ensures off <= |f| <= off + limit ==> off + |r| == |f|
  {
  }

  // Two reads, the second from where the first stopped, make one with the summed limit.
  lemma ReadsJoin(f: File, off: nat, limit: nat, r: seq<Byte>, more: nat, r': seq<Byte>)
    requires IsRead(f, off, limit, r) && IsRead(f, off + |r|, more, r')
    ensures IsRead(f, off, limit + more, r + r')
  {
  }

  // Reads with the given limits, each from where the one before stopped.
  ghost predicate ReadsInTurn(f: File, off: nat, limits: seq<nat>, chunks: seq<seq<Byte>>)
    decreases |limits|
  {
    && |limits| == |chunks|
    && (limits != [] ==>
          IsRead(f, off, limits[0], chunks[0]) && ReadsInTurn(f, off + |chunks[0]|, limits[1..], chunks[1..]))
  }

  function Joined(chunks: seq<seq<Byte>>): seq<Byte> {
    if chunks == [] then [] else chunks[0] + Joined(chunks[1..])
  }

  // Reading on until nothing comes gives the rest of the file: all its bytes, in order.
  lemma {:induction false} ReadToTheEnd(f: File, off: nat, limits: seq<nat>, chunks: seq<seq<Byte>>)
    requires off <= |f| && ReadsInTurn(f, off, limits, chunks)
    requires chunks != [] && chunks[|chunks| - 1] == [] && limits[|limits| - 1] > 0
    ensures off + |Joined(chunks)| == |f|
    ensures forall k | off <= k < |f| && f[k].Some? :: Joined(chunks)[k - off] == f[k].value
    decreases |chunks|
  {
    ReadLengths(f, off, limits[0], chunks[0]);
    if |chunks| > 1 {
      var next := off + |chunks[0]|;
      ReadToTheEnd(f, next, limits[1..], chunks[1..]);
      forall k | off <= k < |f| && f[k].Some?
        ensures Joined(chunks)[k - off] == f[k].value
      {
        if k < next {
          assert chunks[0][k - off] == f[off + (k - off)].value;
        } else {
          assert Joined(chunks)[k - off] == Joined(chunks[1..])[k - next];
        }
      }
    }
  }

  // A 64-bit count returned as a signed number.
  function Signed(n: nat): int {
    if n < WORD / 2 then n else n - WORD
  }

  // ---------------------------------------------------------------- the buffer

  datatype Status = Okay | Overflow | Error | NoMemory

  // Doubling in 64 bits.
  function NextSize(capacity: nat): nat {
    if capacity != 0 then capacity * 2 % WORD else 1
  }

  // Growth from `capacity` reaches `target` before a doubling wraps or memory runs out.
  predicate Reaches(capacity: nat, target: nat, oom: nat -> bool)
    decreases target - capacity
  {
    target <= capacity ||
    (capacity < NextSize(capacity) && !oom(NextSize(capacity)) && Reaches(NextSize(capacity), target, oom))
  }

  function Pow2(j: nat): (r: nat)
    ensures r > 0
  {
    if j == 0 then 1 else 2 * Pow2(j - 1)
  }

  // With memory to spare a buffer of a power of two bytes grows to 2^63 bytes and no
  // further: there the doubling wraps and the loop ends.
  lemma {:induction false} GrowsToHalfTheRange(j: nat, target: nat, oom: nat -> bool)
    requires j <= 63 && forall n: nat :: !oom(n)
    ensures Reaches(Pow2(j), target, oom) <==> target <= Pow2(63)
    decreases 63 - j
  {
    TopPower();
    PowersGrow(j, 63);
    if j < 63 {
      PowersGrow(j + 1, 63);
      assert Pow2(j + 1) == 2 * Pow2(j) == NextSize(Pow2(j));
      GrowsToHalfTheRange(j + 1, target, oom);
    }
  }

  lemma {:induction false} PowersMultiply(i: nat, j: nat)
    ensures Pow2(i + j) == Pow2(i) * Pow2(j)
    decreases i
  {
    if i > 0 {
      PowersMultiply(i - 1, j);
    }
  }

  lemma TopPower()
    ensures Pow2(63) == 0x8000_0000_0000_0000
  {
    PowersMultiply(7, 7);
    PowersMultiply(14, 7);
    PowersMultiply(21, 21);
    PowersMultiply(42, 21);
    assert Pow2(7) == 128;
  }

  lemma {:induction false} PowersGrow(i: nat, j: nat)
    requires i <= j
    ensures Pow2(i) <= Pow2(j)
    decreases j
  {
    if i < j {
      PowersGrow(i, j - 1);
    }
  }

  // A buffer for which there was no memory at first grows from nothing, as far.
  lemma GrowsFromNothing(target: nat, oom: nat -> bool)
    requires forall n: nat :: !oom(n)
    ensures Reaches(0, target, oom) <==> target <= Pow2(63)
  {
    TopPower();
    GrowsToHalfTheRange(0, target, oom);
    assert Pow2(0) == NextSize(0) == 1;
  }

  class KBuf {
    var data: array<Byte>
    var capacity: nat

    ghost predicate Valid()
      reads this
    {
      data.Length == capacity < WORD
    }

    // There is room for the bytes `f`, and the specified ones are there.
    ghost predicate Holds(f: File)
      reads this, data
    {
      Valid() && |f| <= capacity && forall k | 0 <= k < |f| && f[k].Some? :: data[k] == f[k].value
    }

    constructor ()
      ensures Valid() && capacity == 0 && fresh(data)
    {
      data := new Byte[0];
      capacity := 0;
    }

    // `kbuf_init`: a buffer of the given size with unspecified content.
    method Init(newSize: nat, oom: bool) returns (status: Status)
      requires Valid() && newSize < WORD
      modifies this
      ensures Valid()
      ensures status == if newSize < old(capacity) then Error else if oom then NoMemory else Okay
      ensures status == Okay ==> capacity == newSize && fresh(data)
      ensures status != Okay ==> capacity == old(capacity) && data == old(data)
    {
      if newSize < capacity {
        return Error;
      }
      if oom {
        return NoMemory;
      }
      data := new Byte[newSize];
      capacity := newSize;
      return Okay;
    }

    // `kbuf_grow`: twice the size, the same content.
    method Grow(oom: bool) returns (status: Status)
      requires Valid()
      modifies this
      ensures Valid()
      ensures status == if 2 * old(capacity) >= WORD then Overflow else if oom then NoMemory else Okay
      ensures status == Okay ==> capacity == NextSize(old(capacity)) > old(capacity) && fresh(data)
      ensures status == Okay ==> capacity == if old(capacity) == 0 then 1 else 2 * old(capacity)
      ensures status == Okay ==> data[..old(capacity)] == old(data[..])
      ensures status != Okay ==> capacity == old(capacity) && data == old(data)
    {
      var newSize := NextSize(capacity);
      if newSize < capacity {
        return Overflow;
      }
      if oom {
        return NoMemory;
      }
      var newData := new Byte[newSize];
      for i := 0 to capacity
        modifies newData
        invariant newData[..i] == data[..i]
      {
        newData[i] := data[i];
      }
      assert data[..capacity] == data[..];
      data := newData;
      capacity := newSize;
      return Okay;
    }

    // The loop of `ramfs_write` that makes room for `target` bytes.
    method Reserve(target: nat, oom: nat -> bool) returns (ok: bool)
      requires Valid()
      modifies this
      ensures Valid() && (ok <==> Reaches(old(capacity), target, oom))
      ensures ok ==> target <= capacity
      ensures capacity >= old(capacity) && data[..old(capacity)] == old(data[..])
      ensures data == old(data) || fresh(data)
    {
      assert data[..capacity] == data[..];
      while target > capacity
        invariant Valid() && capacity >= old(capacity) && data[..old(capacity)] == old(data[..])
        invariant Reaches(capacity, target, oom) <==> Reaches(old(capacity), target, oom)
        invariant data == old(data) || fresh(data)
        decreases target - capacity
      {
        ghost var before := data[..];
        var status := Grow(oom(NextSize(capacity)));
        if status != Okay {
          return false;
        }
        assert data[..old(capacity)] == before[..old(capacity)];
      }
      return true;
    }

    // The copy into the buffer.
    method Store(off: nat, bytes: seq<Byte>)
      requires Valid() && off + |bytes| <= capacity
      modifies data
      ensures forall k | 0 <= k < capacity ::
                data[k] == if off <= k < off + |bytes| then bytes[k - off] else old(data[k])
    {
      for i := 0 to |bytes|
        invariant forall k | 0 <= k < capacity ::
                    data[k] == if off <= k < off + i then bytes[k - off] else old(data[k])
      {
        data[off + i] := bytes[i];
      }
    }

    // Room, then the copy.
    method WriteAt(off: nat, bytes: seq<Byte>, oom: nat -> bool) returns (ok: bool)
      requires Valid()
      modifies this, data
      ensures Valid() && (ok <==> Reaches(old(capacity), off + |bytes|, oom))
      ensures ok ==> off + |bytes| <= capacity && data[off..off + |bytes|] == bytes
      ensures capacity >= old(capacity) && (data == old(data) || fresh(data))
      ensures forall k | 0 <= k < old(capacity) && !(ok && off <= k < off + |bytes|) :: data[k] == old(data[k])
    {
      ok := Reserve(off + |bytes|, oom);
      assert forall k | 0 <= k < old(capacity) :: data[..old(capacity)][k] == old(data[..][k]);
      if ok {
        Store(off, bytes);
      }
    }
  }

  ghost predicate AllApart(buffers: seq<KBuf>)
    reads buffers
  {
    forall i, j | 0 <= i < j < |buffers| :: buffers[i] != buffers[j] && buffers[i].data != buffers[j].data
  }

  // `ramfs_init`. A buffer for which there is no memory stays empty.
  method MakeBuffers(count: nat, oom: nat -> bool) returns (buffers: seq<KBuf>)
    ensures |buffers| == count && fresh(buffers) && fresh(set b | b in buffers :: b.data) && AllApart(buffers)
    ensures forall i | 0 <= i < count :: buffers[i].Valid() && buffers[i].capacity == if oom(i) then 0 else INITIAL_SIZE
  {
    buffers := [];
    for i := 0 to count
      invariant |buffers| == i && fresh(buffers) && fresh(set b | b in buffers :: b.data) && AllApart(buffers)
      invariant forall k | 0 <= k < i :: buffers[k].Valid() && buffers[k].capacity == if oom(k) then 0 else INITIAL_SIZE
    {
      var buf := new KBuf();
      var _ := buf.Init(INITIAL_SIZE, oom(i));
      buffers := buffers + [buf];
    }
  }
}
