// Directory listings: packing entries into records, decoding them by record length, and
// paging through a directory with a small buffer.
module Listing {
  import opened Options
  import Paths
  import opened Tree
  import opened Words

  const HEADER := 16
  // The longest name whose record length fits in 16 bits.
  const LONGEST_NAME := 65511

  datatype Entry = Entry(ino: nat, mode: Mode, name: seq<Byte>)

  // ---------------------------------------------------------------- records

  ghost predicate SameOutside(b: seq<Byte>, b': seq<Byte>, at: nat, k: nat) {
    |b| == |b'| && forall j | 0 <= j < |b| && !(at <= j < at + k) :: b[j] == b'[j]
  }

  method StoreField(buffer: array<Byte>, at: nat, n: nat, k: nat)
    requires at + k <= buffer.Length
    modifies buffer
    ensures buffer[at..at + k] == Bytes(n, k) && SameOutside(buffer[..], old(buffer[..]), at, k)
  {
    var rest := n;
    for i := 0 to k
      invariant SameOutside(buffer[..], old(buffer[..]), at, k)
      invariant Bytes(n, k) == buffer[at..at + i] + Bytes(rest, k - i)
    {
      buffer[at + i] := rest % 256;
      rest := rest / 256;
    }
  }

  predicate Writable(e: Entry) {
    |e.name| <= LONGEST_NAME && e.ino < WORD
  }

  // Header, name and terminator, rounded up to eight bytes in 16 bits.
  function RecordSize(nameLength: nat): nat {
    ((HEADER + nameLength + 1) % 0x1_0000 + 7) / 8 * 8 % 0x1_0000
  }

  function TypeBits(mode: Mode): nat {
    if mode == Directory then 0x4000 else 0x8000
  }

  function Header(e: Entry): seq<Byte> {
    Bytes(e.ino, 8) + Bytes(TypeBits(e.mode), 2) + Bytes(|e.name|, 2) + Bytes(RecordSize(|e.name|), 2)
  }

  // The record of `e` is at `at`: header, padding, name, terminator, padding. The
  // padding is unspecified.
  ghost predicate RecordAt(bytes: seq<Byte>, at: nat, e: Entry) {
    var n := |e.name|;
    && HEADER + n < RecordSize(n) && at + RecordSize(n) <= |bytes| && bytes[at..at + 14] == Header(e)
    && bytes[at + HEADER..at + HEADER + n] == e.name && bytes[at + HEADER + n] == 0
  }

  ghost predicate IsRecord(record: seq<Byte>, e: Entry) {
    var n := |e.name|;
    && HEADER + n < RecordSize(n) == |record| && record[..14] == Header(e)
    && record[HEADER..HEADER + n] == e.name && record[HEADER + n] == 0
  }

  lemma RecordCut(bytes: seq<Byte>, at: nat, e: Entry)
    requires RecordAt(bytes, at, e)
    ensures IsRecord(bytes[at..at + RecordSize(|e.name|)], e)
  {
    var n, size := |e.name|, RecordSize(|e.name|);
    var record := bytes[at..at + size];
    assert forall k | 0 <= k < size :: record[k] == bytes[at + k];
    assert record[..14] == bytes[at..at + 14];
    assert record[HEADER..HEADER + n] == bytes[at + HEADER..at + HEADER + n];
    assert record[HEADER + n] == bytes[at + HEADER + n];
  }

  lemma SizeBounds(n: nat)
    requires n <= LONGEST_NAME
    ensures HEADER + n < RecordSize(n) < 0x1_0000 && RecordSize(n) % 8 == 0 && RecordSize(n) <= HEADER + n + 8
  {
  }

  // `ramfs_emit_entry`, at `at` in the buffer.
  method EmitEntry(buffer: array<Byte>, at: nat, limit: nat, e: Entry) returns (size: nat, ghost record: seq<Byte>)
    requires Writable(e) && at + limit <= buffer.Length
    modifies buffer
    ensures |record| == size == if RecordSize(|e.name|) > limit then 0 else RecordSize(|e.name|)
    ensures size > 0 <==> RecordSize(|e.name|) <= limit
    ensures size > 0 ==> IsRecord(record, e)
    ensures buffer[..at + size] == old(buffer[..at]) + record
    ensures forall k | at + size <= k < buffer.Length :: buffer[k] == old(buffer[k])
  {
    size := RecordSize(|e.name|);
    SizeBounds(|e.name|);
    if size > limit {
      return 0, [];
    }
    EmitFields(buffer, at, e);
    RecordCut(buffer[..], at, e);
    record := buffer[..][at..at + size];
    assert buffer[..at + size] == buffer[..][..at + size] == buffer[..][..at] + record;
  }

  method EmitFields(buffer: array<Byte>, at: nat, e: Entry)
    requires Writable(e) && at + RecordSize(|e.name|) <= buffer.Length
    modifies buffer
    ensures RecordAt(buffer[..], at, e) && SameOutside(buffer[..], old(buffer[..]), at, RecordSize(|e.name|))
  {
    var n := |e.name|;
    SizeBounds(n);
    EmitHeader(buffer, at, e);
    ghost var header := buffer[at..at + 14];
    StoreName(buffer, at + HEADER, e.name);
    ghost var name := buffer[at + HEADER..at + HEADER + n];
    buffer[at + HEADER + n] := 0;
    assert buffer[..][at..at + 14] == header && buffer[..][at + HEADER..at + HEADER + n] == name;
  }

  // The fields before the padding.
  method EmitHeader(buffer: array<Byte>, at: nat, e: Entry)
    requires at + HEADER <= buffer.Length
    modifies buffer
    ensures buffer[at..at + 14] == Header(e) && SameOutside(buffer[..], old(buffer[..]), at, 14)
  {
    StoreField(buffer, at, e.ino, 8);
    ghost var one := buffer[at..at + 8];
    StoreField(buffer, at + 8, TypeBits(e.mode), 2);
    ghost var two := buffer[at..at + 10];
    assert two == one + Bytes(TypeBits(e.mode), 2);
    StoreField(buffer, at + 10, |e.name|, 2);
    ghost var three := buffer[at..at + 12];
    assert three == two + Bytes(|e.name|, 2);
    StoreField(buffer, at + 12, RecordSize(|e.name|), 2);
    assert buffer[at..at + 14] == three + Bytes(RecordSize(|e.name|), 2);
  }

  method StoreName(buffer: array<Byte>, at: nat, name: seq<Byte>)
    requires at + |name| <= buffer.Length
    modifies buffer
    ensures buffer[at..at + |name|] == name && SameOutside(buffer[..], old(buffer[..]), at, |name|)
  {
    for i := 0 to |name|
      invariant SameOutside(buffer[..], old(buffer[..]), at, |name|)
      invariant buffer[at..at + i] == name[..i]
    {
      buffer[at + i] := name[i];
    }
  }

  // ---------------------------------------------------------------- decoding

  // A reader that steps from record to record by the stored length, until the bytes end
  // or are no record.
  function Decode(bytes: seq<Byte>): seq<Entry>
    decreases |bytes|
  {
    if |bytes| < HEADER then [] else
      var nameLength, size := Value(bytes[10..12]), Value(bytes[12..14]);
      if size > |bytes| || HEADER + nameLength >= size then [] else
        [Entry(Value(bytes[..8]), if Value(bytes[8..10]) == 0x4000 then Directory else Regular,
               bytes[HEADER..HEADER + nameLength])] + Decode(bytes[size..])
  }

  lemma FieldRanges()
    ensures Pow256(2) == 0x1_0000 && Pow256(8) == WORD
  {
    assert Pow256(4) == 0x1_0000_0000;
  }

  lemma FieldsDecode(bytes: seq<Byte>, e: Entry)
    requires Writable(e) && |bytes| >= 14 && bytes[..14] == Header(e)
    ensures Value(bytes[..8]) == e.ino && Value(bytes[8..10]) == TypeBits(e.mode)
    ensures Value(bytes[10..12]) == |e.name| && Value(bytes[12..14]) == RecordSize(|e.name|)
  {
    FieldRanges();
    var h := bytes[..14];
    assert bytes[..8] == h[..8] == Bytes(e.ino, 8);
    assert bytes[8..10] == h[8..10] == Bytes(TypeBits(e.mode), 2);
    assert bytes[10..12] == h[10..12] == Bytes(|e.name|, 2);
    assert bytes[12..14] == h[12..14] == Bytes(RecordSize(|e.name|), 2);
    ValueOfBytes(e.ino, 8);
    ValueOfBytes(TypeBits(e.mode), 2);
    ValueOfBytes(|e.name|, 2);
    ValueOfBytes(RecordSize(|e.name|), 2);
  }

  lemma TwoBytes(b: seq<Byte>)
    requires |b| == 2
    ensures Value(b) == b[0] as int + 256 * b[1] as int
  {
    assert b[1..][0] == b[1] && b[1..][1..] == [];
    assert Value(b[1..]) == b[1];
  }

  // Where the fields of a record lie, least significant byte first.
  lemma RecordFields(record: seq<Byte>, e: Entry)
    requires Writable(e) && IsRecord(record, e)
    ensures Value(record[..8]) == e.ino
    ensures record[8] as int + 256 * record[9] as int == if e.mode == Directory then 0x4000 else 0x8000
    ensures record[10] as int + 256 * record[11] as int == |e.name|
    ensures record[12] as int + 256 * record[13] as int == |record|
    ensures 16 + |e.name| < |record| && record[16..16 + |e.name|] == e.name && record[16 + |e.name|] == 0
  {
    FieldsDecode(record, e);
    TwoBytes(record[8..10]);
    TwoBytes(record[10..12]);
    TwoBytes(record[12..14]);
  }

  lemma DecodeRecord(record: seq<Byte>, rest: seq<Byte>, e: Entry)
    requires Writable(e) && IsRecord(record, e)
    ensures Decode(record + rest) == [e] + Decode(rest)
  {
    var bytes := record + rest;
    assert bytes[..14] == record[..14];
    FieldsDecode(bytes, e);
    assert bytes[HEADER..HEADER + |e.name|] == record[HEADER..HEADER + |e.name|];
    assert bytes[|record|..] == rest;
  }

  // The number of bytes of the records of `es`.
  function Total(es: seq<Entry>): nat {
    if es == [] then 0 else RecordSize(|es[0].name|) + Total(es[1..])
  }

  ghost predicate AllWritable(es: seq<Entry>) {
    forall i | 0 <= i < |es| :: Writable(es[i])
  }

  function Flatten(records: seq<seq<Byte>>): seq<Byte> {
    if records == [] then [] else records[0] + Flatten(records[1..])
  }

  lemma {:induction false} FlattenSnoc(records: seq<seq<Byte>>, record: seq<Byte>)
    ensures Flatten(records + [record]) == Flatten(records) + record
    decreases |records|
  {
    if records == [] {
      assert ([] + [record])[1..] == [];
    } else {
      assert (records + [record])[1..] == records[1..] + [record];
      FlattenSnoc(records[1..], record);
    }
  }

  // `records` are records of `es`.
  ghost predicate AreRecords(records: seq<seq<Byte>>, es: seq<Entry>)
    decreases |es|
  {
    |records| == |es| && (es != [] ==> IsRecord(records[0], es[0]) && AreRecords(records[1..], es[1..]))
  }

  lemma {:induction false} RecordsSnoc(records: seq<seq<Byte>>, record: seq<Byte>, es: seq<Entry>, e: Entry)
    requires AreRecords(records, es) && IsRecord(record, e)
    ensures AreRecords(records + [record], es + [e])
    decreases |es|
  {
    if es == [] {
      assert (records + [record])[1..] == [] && (es + [e])[1..] == [];
    } else {
      RecordsSnoc(records[1..], record, es[1..], e);
      assert (records + [record])[1..] == records[1..] + [record] && (es + [e])[1..] == es[1..] + [e];
    }
  }

  // Decoding the records of `es`, one behind the other, gives back `es`.
  lemma {:induction false} DecodeRecords(records: seq<seq<Byte>>, es: seq<Entry>)
    requires AllWritable(es) && AreRecords(records, es)
    ensures Decode(Flatten(records)) == es && |Flatten(records)| == Total(es)
    decreases |es|
  {
    if es != [] {
      DecodeRecord(records[0], Flatten(records[1..]), es[0]);
      DecodeRecords(records[1..], es[1..]);
      assert es == [es[0]] + es[1..];
    }
  }

  // ---------------------------------------------------------------- the listing

  // The number of leading entries whose records fit in `limit` bytes.
  function Fitting(es: seq<Entry>, limit: nat): (n: nat)
    ensures n <= |es|
    decreases |es|
  {
    if es == [] || RecordSize(|es[0].name|) > limit then 0
    else 1 + Fitting(es[1..], limit - RecordSize(|es[0].name|))
  }

  // It is the longest run that fits: its records do, one more does not.
  lemma {:induction false} FittingIsLongest(es: seq<Entry>, limit: nat)
    ensures Total(es[..Fitting(es, limit)]) <= limit
    ensures forall n: nat | Fitting(es, limit) < n <= |es| :: Total(es[..n]) > limit
    decreases |es|
  {
    if es != [] {
      var size := RecordSize(|es[0].name|);
      if size <= limit {
        FittingIsLongest(es[1..], limit - size);
        TotalFrom(es, Fitting(es, limit));
      }
      forall n: nat | Fitting(es, limit) < n <= |es|
        ensures Total(es[..n]) > limit
      {
        TotalFrom(es, n);
      }
    }
  }

  lemma TotalFrom(es: seq<Entry>, n: nat)
    requires 0 < n <= |es|
    ensures Total(es[..n]) == RecordSize(|es[0].name|) + Total(es[1..][..n - 1])
  {
    assert es[..n][1..] == es[1..][..n - 1];
  }

  function NameBytes(name: string): seq<Byte> {
    seq(|name|, i requires 0 <= i < |name| => name[i] as int % 256)
  }

  // The inodes that a listing of `d` looks at are there.
  predicate Listable(fs: Fs, d: nat) {
    && d < |fs.nodes| && fs.nodes[d].private.Some?
    && (fs.nodes[d].private.value.parent.Some? ==> fs.nodes[d].private.value.parent.value < |fs.nodes|)
    && forall i | 0 <= i < |Children(fs.nodes[d])| :: Children(fs.nodes[d])[i].node < |fs.nodes|
  }

  function EntryOf(node: Inode, name: string): Entry {
    Entry(node.ino, node.mode, NameBytes(name))
  }

  // Entry `i`: the directory, its parent or itself at the root, then the children in
  // insertion order.
  function EntryAt(fs: Fs, d: nat, i: nat): Entry
    requires Listable(fs, d) && i < 2 + |Children(fs.nodes[d])|
  {
    var private := fs.nodes[d].private.value;
    if i == 0 then EntryOf(fs.nodes[d], ".")
    else if i == 1 then EntryOf(if private.parent.None? then fs.nodes[d] else fs.nodes[private.parent.value], "..")
    else EntryOf(fs.nodes[private.children[i - 2].node], private.children[i - 2].name)
  }

  function Entries(fs: Fs, d: nat): (es: seq<Entry>)
    requires Listable(fs, d)
  {
    seq(2 + |Children(fs.nodes[d])|, i requires 0 <= i < 2 + |Children(fs.nodes[d])| => EntryAt(fs, d, i))
  }

  // The bytes that `ramfs_readdir` leaves are records of the longest run that fits, from
  // the given index on.
  ghost predicate ReadsDir(bytes: seq<Byte>, es: seq<Entry>, offset: nat, limit: nat)
    requires offset <= |es|
  {
    IsPage(bytes, es[offset..], limit)
  }

  ghost predicate IsPage(bytes: seq<Byte>, es: seq<Entry>, limit: nat) {
    exists records: seq<seq<Byte>> :: bytes == Flatten(records) && AreRecords(records, es[..Fitting(es, limit)])
  }

  // `ramfs_readdir`.
  method ReadDir(fs: Fs, d: nat, offset: nat, size: nat, buffer: array<Byte>) returns (r: int)
    requires d < |fs.nodes| && (fs.nodes[d].private.Some? ==> Listable(fs, d) && AllWritable(Entries(fs, d)))
    requires size <= buffer.Length
    modifies buffer
    ensures r == -1 <==> size == 0 || fs.nodes[d].mode != Directory || fs.nodes[d].private.None?
    ensures r >= 0 && offset >= |Entries(fs, d)| ==> r == 0
    ensures r >= 0 && offset < |Entries(fs, d)| ==>
              r <= size && ReadsDir(buffer[..r], Entries(fs, d), offset, size)
    ensures -1 <= r <= size
    ensures forall k | (if r < 0 then 0 else r) <= k < buffer.Length :: buffer[k] == old(buffer[k])
  {
    if size == 0 {
      return -1;
    }
    if fs.nodes[d].mode != Directory {
      return -1;
    }
    if fs.nodes[d].private.None? {
      return -1;
    }
    var total := 2 + |fs.nodes[d].private.value.children|;
    if offset >= total {
      return 0;
    }
    ghost var es := Entries(fs, d)[offset..];
    EntriesList(fs, d, offset);
    r := FillListing(fs, d, offset, size, buffer, es);
  }

  lemma FittingStep(es: seq<Entry>, limit: nat, n: nat, room: nat)
    requires n < |es| && Fitting(es, limit) == n + Fitting(es[n..], room)
    ensures RecordSize(|es[n].name|) > room ==> Fitting(es, limit) == n
    ensures RecordSize(|es[n].name|) <= room ==>
              Fitting(es, limit) == n + 1 + Fitting(es[n + 1..], room - RecordSize(|es[n].name|))
  {
    assert es[n..][1..] == es[n + 1..];
  }

  // The first `n` records are out, and the rest is what still fits in `room`.
  ghost predicate Progress(records: seq<seq<Byte>>, es: seq<Entry>, n: nat, size: nat, room: nat)
    requires n <= |es|
  {
    AreRecords(records, es[..n]) && Fitting(es, size) == n + Fitting(es[n..], room)
  }

  lemma StartProgress(es: seq<Entry>, size: nat)
    ensures Progress([], es, 0, size, size)
  {
    assert es[0..] == es;
  }

  lemma MoreProgress(records: seq<seq<Byte>>, record: seq<Byte>, es: seq<Entry>, n: nat, size: nat, room: nat)
    requires n < |es| && Progress(records, es, n, size, room) && IsRecord(record, es[n]) && |record| <= room
    ensures Progress(records + [record], es, n + 1, size, room - |record|)
  {
    FittingStep(es, size, n, room);
    RecordsSnoc(records, record, es[..n], es[n]);
    assert es[..n + 1] == es[..n] + [es[n]];
  }

  // The entries of directory `d` from `offset` on.
  ghost predicate Lists(fs: Fs, d: nat, offset: nat, es: seq<Entry>)
    decreases |es|, offset
  {
    && Listable(fs, d) && offset + |es| == 2 + |Children(fs.nodes[d])|
    && (es != [] ==> Writable(es[0]) && es[0] == EntryAt(fs, d, offset) && Lists(fs, d, offset + 1, es[1..]))
  }

  lemma {:induction false} ListsNth(fs: Fs, d: nat, offset: nat, es: seq<Entry>, k: nat)
    requires Lists(fs, d, offset, es) && k < |es|
    ensures Listable(fs, d) && offset + k < 2 + |Children(fs.nodes[d])|
    ensures Writable(es[k]) && es[k] == EntryAt(fs, d, offset + k)
    decreases k
  {
    if k > 0 {
      ListsNth(fs, d, offset + 1, es[1..], k - 1);
    }
  }

  lemma {:induction false} EntriesList(fs: Fs, d: nat, offset: nat)
    requires Listable(fs, d) && AllWritable(Entries(fs, d)) && offset <= |Entries(fs, d)|
    ensures Lists(fs, d, offset, Entries(fs, d)[offset..])
    decreases |Entries(fs, d)| - offset
  {
    var es := Entries(fs, d);
    if offset < |es| {
      EntriesList(fs, d, offset + 1);
      assert es[offset..][1..] == es[offset + 1..] && Writable(es[offset]);
    }
  }

  method NthEntry(fs: Fs, d: nat, ghost offset: nat, i: nat, ghost es: seq<Entry>) returns (e: Entry)
    requires Lists(fs, d, offset, es) && offset <= i < offset + |es|
    ensures e == es[i - offset] && Writable(e)
  {
    ListsNth(fs, d, offset, es, i - offset);
    return EntryAt(fs, d, i);
  }

  // The loop of `ramfs_readdir`.
  method FillListing(fs: Fs, d: nat, offset: nat, size: nat, buffer: array<Byte>, ghost es: seq<Entry>)
    returns (at: nat)
    requires Lists(fs, d, offset, es) && size <= buffer.Length
    modifies buffer
    ensures at <= size && IsPage(buffer[..at], es, size)
    ensures forall k | at <= k < buffer.Length :: buffer[k] == old(buffer[k])
  {
    var total := 2 + |fs.nodes[d].private.value.children|;
    var i := offset;
    at := 0;
    ghost var records: seq<seq<Byte>>, n: nat, room: nat := [], 0, size;
    StartProgress(es, size);
    while i < total
      invariant offset <= i <= total && at <= size
      invariant n == i - offset && room == size - at
      invariant buffer[..at] == Flatten(records) && Progress(records, es, n, size, room)
      invariant forall k | at <= k < buffer.Length :: buffer[k] == old(buffer[k])
      decreases total - i
    {
      var e := NthEntry(fs, d, offset, i, es);
      var written, record := EmitEntry(buffer, at, size - at, e);
      if written == 0 {
        FittingStep(es, size, n, room);
        return;
      }
      MoreProgress(records, record, es, n, size, room);
      FlattenSnoc(records, record);
      records, n, room := records + [record], n + 1, room - |record|;
      i, at := i + 1, at + written;
    }
  }

  // What the caller decodes is the longest run of the entries left that fits.
  lemma ReadDirDecodes(bytes: seq<Byte>, es: seq<Entry>, offset: nat, limit: nat)
    requires AllWritable(es) && offset <= |es| && ReadsDir(bytes, es, offset, limit)
    ensures var page, left := Decode(bytes), es[offset..];
            && page == PageOf(left, limit) && |bytes| == Total(page) <= limit
            && forall n: nat | |page| < n <= |left| :: Total(left[..n]) > limit
  {
    var left := es[offset..];
    var records: seq<seq<Byte>> :| bytes == Flatten(records) && AreRecords(records, left[..Fitting(left, limit)]);
    DecodeRecords(records, left[..Fitting(left, limit)]);
    FittingIsLongest(left, limit);
  }

  // ---------------------------------------------------------------- paging

  // All that a reader decodes from the entries left, going on behind the entries decoded
  // so far until a read yields none.
  function Pages(es: seq<Entry>, limit: nat): seq<Entry>
    decreases |es|
  {
    var n := Fitting(es, limit);
    if n == 0 then [] else es[..n] + Pages(es[n..], limit)
  }

  // What one read gives of them.
  function PageOf(es: seq<Entry>, limit: nat): (page: seq<Entry>)
    ensures page <= es
  {
    es[..Fitting(es, limit)]
  }

  predicate AllFit(es: seq<Entry>, limit: nat) {
    forall i | 0 <= i < |es| :: RecordSize(|es[i].name|) <= limit
  }

  lemma {:induction false} FittingFits(es: seq<Entry>, limit: nat)
    ensures AllFit(es[..Fitting(es, limit)], limit)
    decreases |es|
  {
    var n := Fitting(es, limit);
    if n > 0 {
      FittingFits(es[1..], limit - RecordSize(|es[0].name|));
      assert es[1..][..n - 1] == es[1..n];
      FitsFrom(es[1..n], limit - RecordSize(|es[0].name|), limit);
      assert es[..n] == [es[0]] + es[1..n];
    }
  }

  lemma FitsFrom(es: seq<Entry>, room: nat, limit: nat)
    requires AllFit(es, room) && room <= limit
    ensures AllFit(es, limit)
  {
  }

  lemma SamePrefix(es: seq<Entry>, n: nat, rest: seq<Entry>)
    requires n <= |es|
    ensures es[..n] + rest == es <==> rest == es[n..]
  {
    assert es == es[..n] + es[n..];
    assert (es[..n] + rest)[n..] == rest;
  }

  lemma FitsInParts(es: seq<Entry>, n: nat, limit: nat)
    requires n <= |es| && AllFit(es[..n], limit)
    ensures AllFit(es, limit) <==> AllFit(es[n..], limit)
  {
    if AllFit(es[n..], limit) {
      forall i | 0 <= i < |es|
        ensures RecordSize(|es[i].name|) <= limit
      {
        assert if i < n then es[i] == es[..n][i] else es[i] == es[n..][i - n];
      }
    }
  }

  // Paging gives every entry exactly once, in order, exactly when the buffer has room
  // for each single record.
  lemma {:induction false} PagingIsComplete(es: seq<Entry>, limit: nat)
    ensures Pages(es, limit) == es <==> AllFit(es, limit)
    decreases |es|
  {
    var n := Fitting(es, limit);
    if n > 0 {
      PagingIsComplete(es[n..], limit);
      FittingFits(es, limit);
      FitsInParts(es, n, limit);
      SamePrefix(es, n, Pages(es[n..], limit));
    }
  }

  // A reader that reads, decodes and goes on by the number of entries decoded, until a
  // read gives nothing. It gets the whole listing exactly when its buffer has room for
  // each single record.
  method ListAll(fs: Fs, d: nat, buffer: array<Byte>) returns (all: seq<Entry>)
    requires Listable(fs, d) && fs.nodes[d].mode == Directory && AllWritable(Entries(fs, d)) && buffer.Length > 0
    modifies buffer
    ensures all == Entries(fs, d) <==> AllFit(Entries(fs, d), buffer.Length)
  {
    all := ReadAll(fs, d, buffer, Entries(fs, d));
    PagingIsComplete(Entries(fs, d), buffer.Length);
  }

  method ReadAll(fs: Fs, d: nat, buffer: array<Byte>, ghost es: seq<Entry>) returns (all: seq<Entry>)
    requires Listable(fs, d) && fs.nodes[d].mode == Directory && AllWritable(es) && buffer.Length > 0
    requires es == Entries(fs, d)
    modifies buffer
    ensures all == Pages(es, buffer.Length)
  {
    ghost var left := es;
    var offset: nat := 0;
    all := [];
    assert es[0..] == es;
    var page := ReadPage(fs, d, offset, buffer, es);
    while page != []
      invariant offset <= |es| && left == es[offset..] && page == PageOf(left, buffer.Length)
      invariant all + Pages(left, buffer.Length) == Pages(es, buffer.Length)
      decreases |left|
    {
      NextPage(es, offset, left, page, buffer.Length);
      all, offset, left := all + page, offset + |page|, left[|page|..];
      page := ReadPage(fs, d, offset, buffer, es);
    }
  }

  lemma NextPage(es: seq<Entry>, offset: nat, left: seq<Entry>, page: seq<Entry>, limit: nat)
    requires offset <= |es| && left == es[offset..] && page == PageOf(left, limit) && page != []
    ensures offset + |page| <= |es| && left[|page|..] == es[offset + |page|..]
    ensures Pages(left, limit) == page + Pages(left[|page|..], limit)
  {
  }

  method ReadPage(fs: Fs, d: nat, offset: nat, buffer: array<Byte>, ghost es: seq<Entry>) returns (page: seq<Entry>)
    requires Listable(fs, d) && fs.nodes[d].mode == Directory && AllWritable(es) && buffer.Length > 0
    requires es == Entries(fs, d) && offset <= |es|
    modifies buffer
    ensures page == PageOf(es[offset..], buffer.Length)
  {
    var r := ReadDir(fs, d, offset, buffer.Length, buffer);
    page := Decode(buffer[..r]);
    if offset < |es| {
      ReadDirDecodes(buffer[..r], es, offset, buffer.Length);
    }
  }

  // ---------------------------------------------------------------- listings and paths

  // A bound child knows the directory it is in, the root has no parent.
  ghost predicate ParentsOk(nodes: seq<Inode>) {
    && (forall n | 0 <= n < |nodes| :: ParentKnown(nodes, n))
    && (|nodes| > 0 ==> nodes[0].private.None? || nodes[0].private.value.parent.None?)
    && forall d: nat, i: nat | d < |nodes| && i < |Children(nodes[d])| :: IsParent(nodes, d, Children(nodes[d])[i].node)
  }

  predicate ParentKnown(nodes: seq<Inode>, n: nat)
    requires n < |nodes|
  {
    nodes[n].private.Some? && nodes[n].private.value.parent.Some? ==> nodes[n].private.value.parent.value < |nodes|
  }

  predicate IsParent(nodes: seq<Inode>, d: nat, c: nat) {
    c < |nodes| && nodes[c].private.Some? ==> nodes[c].private.value.parent == Some(d)
  }

  // The entry stands for the inode, under the given name.
  ghost predicate Names(e: Entry, node: Inode, name: string) {
    && e.ino == node.ino && e.mode == node.mode
    && |e.name| == |name| && forall i | 0 <= i < |name| :: e.name[i] == name[i] as int % 256
  }

  // The first two entries: "." is the directory itself, and ".." the directory that the
  // path without its last name leads to, at the root the root.
  lemma DotDotIsParent(fs: Fs, names: seq<string>)
    requires TreeOk(fs) && ParentsOk(fs.nodes) && Find(fs, names).At? && Listable(fs, Find(fs, names).node)
    ensures var up := if names == [] then [] else Parent(names);
            && Find(fs, up).At? && Find(fs, up).node < |fs.nodes|
            && Names(EntryAt(fs, Find(fs, names).node, 0), fs.nodes[Find(fs, names).node], ".")
            && Names(EntryAt(fs, Find(fs, names).node, 1), fs.nodes[Find(fs, up).node], "..")
  {
    if names != [] {
      EntryAbove(fs, Parent(names), names[|names| - 1]);
      assert names == Parent(names) + [names[|names| - 1]];
    }
  }

  // What resolves is a child of what the path above it resolves to.
  lemma EntryAbove(fs: Fs, up: seq<string>, x: string)
    requires TreeOk(fs) && ParentsOk(fs.nodes) && Find(fs, up + [x]).At?
    ensures Find(fs, up).At? && Find(fs, up).node < |fs.nodes|
    ensures IsParent(fs.nodes, Find(fs, up).node, Find(fs, up + [x]).node)
  {
    FindSnoc(fs, up, x);
    FoundIsNode(fs, up);
    var d := Find(fs, up).node;
    IndexOfIs(Children(fs.nodes[d]), x);
    var k := IndexOf(Children(fs.nodes[d]), x).value;
    assert IsParent(fs.nodes, d, Children(fs.nodes[d])[k].node);
  }

  // The names listed after the first two are exactly those that resolve below the
  // directory, each with the inode it resolves to.
  lemma ListedIffResolves(fs: Fs, names: seq<string>, x: string)
    requires TreeOk(fs) && Find(fs, names).At? && Listable(fs, Find(fs, names).node)
    requires fs.nodes[Find(fs, names).node].mode == Directory
    ensures var d := Find(fs, names).node;
            && (Find(fs, names + [x]).At? <==>
                exists i | 0 <= i < |Children(fs.nodes[d])| :: Children(fs.nodes[d])[i].name == x)
            && forall i | 0 <= i < |Children(fs.nodes[d])| && Children(fs.nodes[d])[i].name == x ::
                 && Find(fs, names + [x]) == At(Children(fs.nodes[d])[i].node)
                 && Names(EntryAt(fs, d, i + 2), fs.nodes[Children(fs.nodes[d])[i].node], x)
  {
    FindSnoc(fs, names, x);
    IndexOfIs(Children(fs.nodes[Find(fs, names).node]), x);
  }

  lemma AttachParents(fs: Fs, d: nat, name: string, n: Inode)
    requires Attachable(fs, d, name, n) && ParentsOk(fs.nodes) && n.private.value.parent == Some(d)
    ensures ParentsOk(Attach(fs, d, name, n).nodes)
  {
    var fs' := Attach(fs, d, name, n);
    forall e: nat, i: nat | e < |fs'.nodes| && i < |Children(fs'.nodes[e])|
      ensures IsParent(fs'.nodes, e, Children(fs'.nodes[e])[i].node)
    {
      AttachChildren(fs, d, name, n, e);
      if e < |fs.nodes| && i < |Children(fs.nodes[e])| {
        assert IsParent(fs.nodes, e, Children(fs.nodes[e])[i].node);
      }
    }
    forall e | 0 <= e < |fs'.nodes|
      ensures ParentKnown(fs'.nodes, e)
    {
      assert e < |fs.nodes| ==> ParentKnown(fs.nodes, e);
    }
  }

  lemma NodeParents(nodes: seq<Inode>, n: nat, node: Inode)
    requires ParentsOk(nodes) && n < |nodes|
    requires node.private == nodes[n].private || node.private.None?
    ensures ParentsOk(nodes[n := node])
  {
    var nodes' := nodes[n := node];
    forall e: nat, i: nat | e < |nodes'| && i < |Children(nodes'[e])|
      ensures IsParent(nodes', e, Children(nodes'[e])[i].node)
    {
      assert IsParent(nodes, e, Children(nodes[e])[i].node);
    }
    forall e | 0 <= e < |nodes'|
      ensures ParentKnown(nodes', e)
    {
      assert ParentKnown(nodes, e);
    }
  }

  lemma MakeInParents(fs: Fs, d: nat, name: string)
    requires TreeOk(fs) && ParentsOk(fs.nodes) && d < |fs.nodes| && Paths.LegalName(name)
    ensures ParentsOk(MakeIn(fs, d, name).1.nodes)
  {
    if MakeIn(fs, d, name).0 == Success {
      var n := Inode(fs.nextIno, Directory, 0, Some(Private(0, [], Some(d))));
      AttachParents(fs.(nextIno := fs.nextIno + 1), d, name, n);
    }
  }

  lemma CreateParents(fs: Fs, d: nat, name: string)
    requires TreeOk(fs) && ParentsOk(fs.nodes) && d < |fs.nodes| && Paths.LegalName(name)
    ensures ParentsOk(Create(fs, d, name).2.nodes)
  {
    if Create(fs, d, name).0 == Success {
      AttachParents(fs.(nextIno := fs.nextIno + 1, nextFile := fs.nextFile + 1), d, name,
                    Inode(fs.nextIno, Regular, 0, Some(Private(fs.nextFile, [], Some(d)))));
    }
  }

  lemma OpenExistingParents(fs: Fs, d: nat, n: nat, flags: Flags)
    requires ParentsOk(fs.nodes) && d < |fs.nodes| && n < |fs.nodes|
    ensures ParentsOk(OpenExisting(fs, d, n, flags).2.nodes)
  {
    var nodes' := OpenExisting(fs, d, n, flags).2.nodes;
    NodeParents(fs.nodes, n, nodes'[n]);
    assert nodes' == fs.nodes[n := nodes'[n]];
  }

  lemma ApplyKeepsParents(fs: Fs, op: Op)
    requires TreeOk(fs) && ParentsOk(fs.nodes)
    ensures ParentsOk(Apply(fs, op).nodes)
  {
    match Locate(fs, op.path) {
      case In(d, name) =>
        Paths.ComponentsAreNames(op.path);
        if d < |fs.nodes| {
          MakeInParents(fs, d, name);
          CreateParents(fs, d, name);
          if op.OpenFile? && Lookup(fs.nodes[d], name).At? && Lookup(fs.nodes[d], name).node < |fs.nodes| {
            OpenExistingParents(fs, d, Lookup(fs.nodes[d], name).node, op.flags);
          }
        }
      case _ =>
    }
  }

  // ---------------------------------------------------------------- every listing can be made

  ghost predicate ShortName(nodes: seq<Inode>, d: nat, i: nat) {
    d < |nodes| && i < |Children(nodes[d])| ==> |Children(nodes[d])[i].name| < Paths.MAX_NAME
  }

  // Names are shorter than a row of the parser's table, and inode numbers were handed out.
  ghost predicate Named(fs: Fs) {
    match fs
    case Fs(nodes, nextIno, _) =>
      && (forall n | 0 <= n < |nodes| :: nodes[n].ino < nextIno)
      && forall d: nat, i: nat :: ShortName(nodes, d, i)
  }

  lemma AttachNamed(fs: Fs, d: nat, name: string, n: Inode)
    requires Attachable(fs, d, name, n) && Named(fs) && |name| < Paths.MAX_NAME && n.ino < fs.nextIno
    ensures Named(Attach(fs, d, name, n))
  {
    var fs' := Attach(fs, d, name, n);
    forall e: nat, i: nat
      ensures ShortName(fs'.nodes, e, i)
    {
      assert ShortName(fs.nodes, e, i);
      if e < |fs'.nodes| {
        AttachChildren(fs, d, name, n, e);
      }
    }
  }

  lemma NodeNamed(fs: Fs, n: nat, node: Inode)
    requires Named(fs) && n < |fs.nodes| && node.ino == fs.nodes[n].ino
    requires node.private == fs.nodes[n].private || node.private.None?
    ensures Named(fs.(nodes := fs.nodes[n := node]))
  {
    var nodes' := fs.nodes[n := node];
    forall e: nat, i: nat
      ensures ShortName(nodes', e, i)
    {
      assert ShortName(fs.nodes, e, i);
    }
  }

  lemma MakeInNamed(fs: Fs, d: nat, name: string)
    requires TreeOk(fs) && Named(fs) && d < |fs.nodes| && Paths.LegalName(name) && |name| < Paths.MAX_NAME
    ensures Named(MakeIn(fs, d, name).1)
  {
    if MakeIn(fs, d, name).0 == Success {
      var n := Inode(fs.nextIno, Directory, 0, Some(Private(0, [], Some(d))));
      AttachNamed(fs.(nextIno := fs.nextIno + 1), d, name, n);
    }
  }

  lemma CreateNamed(fs: Fs, d: nat, name: string)
    requires TreeOk(fs) && Named(fs) && d < |fs.nodes| && Paths.LegalName(name) && |name| < Paths.MAX_NAME
    ensures Named(Create(fs, d, name).2)
  {
    if Create(fs, d, name).0 == Success {
      AttachNamed(fs.(nextIno := fs.nextIno + 1, nextFile := fs.nextFile + 1), d, name,
                  Inode(fs.nextIno, Regular, 0, Some(Private(fs.nextFile, [], Some(d)))));
    }
  }

  lemma OpenExistingNamed(fs: Fs, d: nat, n: nat, flags: Flags)
    requires Named(fs) && d < |fs.nodes| && n < |fs.nodes|
    ensures Named(OpenExisting(fs, d, n, flags).2)
  {
    var fs' := OpenExisting(fs, d, n, flags).2;
    NodeNamed(fs, n, fs'.nodes[n]);
    assert fs'.nodes == fs.nodes[n := fs'.nodes[n]];
  }

  lemma MkdirNamed(fs: Fs, path: string)
    requires TreeOk(fs) && Named(fs)
    ensures Named(Mkdir(fs, path).1) && Mkdir(fs, path).1.nextIno <= fs.nextIno + 1
  {
    if Locate(fs, path).In? {
      Paths.ComponentsAreNames(path);
      Paths.ComponentsAreShort(path);
      if Locate(fs, path).dir < |fs.nodes| {
        MakeInNamed(fs, Locate(fs, path).dir, Locate(fs, path).name);
      }
    }
  }

  lemma OpenNamed(fs: Fs, path: string, flags: Flags)
    requires TreeOk(fs) && Named(fs)
    ensures Named(Open(fs, path, flags).2) && Open(fs, path, flags).2.nextIno <= fs.nextIno + 1
  {
    if Locate(fs, path).In? {
      Paths.ComponentsAreNames(path);
      Paths.ComponentsAreShort(path);
      if Locate(fs, path).dir < |fs.nodes| {
        OpenInNamed(fs, Locate(fs, path).dir, Locate(fs, path).name, flags);
      }
    }
  }

  lemma OpenInNamed(fs: Fs, d: nat, name: string, flags: Flags)
    requires TreeOk(fs) && Named(fs) && d < |fs.nodes| && Paths.LegalName(name) && |name| < Paths.MAX_NAME
    ensures Named(OpenIn(fs, d, name, flags).2) && OpenIn(fs, d, name, flags).2.nextIno <= fs.nextIno + 1
  {
    match Lookup(fs.nodes[d], name) {
      case Absent => CreateNamed(fs, d, name);
      case At(n) => if n < |fs.nodes| { OpenExistingNamed(fs, d, n, flags); }
      case Broken =>
    }
  }

  // Every directory that is not unbound can be listed: the inodes that its entries stand
  // for are there, and every entry fits in a record.
  ghost predicate AllListable(fs: Fs) {
    forall d: nat {:trigger fs.nodes[d]} | d < |fs.nodes| && fs.nodes[d].private.Some? ::
      Listable(fs, d) && AllWritable(Entries(fs, d))
  }

  lemma NamedIsListable(fs: Fs)
    requires TreeOk(fs) && ParentsOk(fs.nodes) && Named(fs) && fs.nextIno <= WORD
    ensures AllListable(fs)
  {
    forall d: nat | d < |fs.nodes| && fs.nodes[d].private.Some?
      ensures Listable(fs, d) && AllWritable(Entries(fs, d))
    {
      assert ParentKnown(fs.nodes, d);
      forall i | 0 <= i < |Entries(fs, d)|
        ensures Writable(Entries(fs, d)[i])
      {
        if i >= 2 {
          assert ShortName(fs.nodes, d, i - 2);
        }
      }
    }
  }

  // Over every run ".." keeps naming the parent, and every bound directory can be listed
  // as long as inode numbers last.
  lemma {:induction false} RunKeepsParents(fs: Fs, ops: seq<Op>)
    requires TreeOk(fs) && ParentsOk(fs.nodes) && Named(fs) && fs.nextIno + |ops| <= WORD
    ensures TreeOk(Run(fs, ops)) && ParentsOk(Run(fs, ops).nodes) && AllListable(Run(fs, ops))
    decreases |ops|
  {
    if ops == [] {
      NamedIsListable(fs);
    } else {
      ApplyKeeps(fs, ops[0], []);
      ApplyKeepsParents(fs, ops[0]);
      match ops[0] {
        case MakeDir(path) => MkdirNamed(fs, path);
        case OpenFile(path, flags) => OpenNamed(fs, path, flags);
      }
      RunKeepsParents(Apply(fs, ops[0]), ops[1..]);
    }
  }
}
