/** The flash of a key-value database, sector by sector: what the header of a sector says, and how every change
    of a sector or of a record is made on its bytes. */
module KvFlashes {
  import opened KvStore
  import opened KvCollect
  import opened FlashBytes
  import opened StatusTable
  import opened KvWalks
  import opened RecordBytes
  import opened KvScans
  import opened Wrappers

  // ---- The header of a sector ----

  const SECTOR_STATUS_NUM: nat := 4
  const DIRTY_OFFSET: nat := 1
  /** "FDB0", the magic word of a sector. */
  const SECTOR_MAGIC: Bytes := [0x46, 0x44, 0x42, 0x30]
  const UNSET_WORDS: Bytes := [0xFF, 0xFF, 0xFF, 0xFF, 0xFF, 0xFF, 0xFF, 0xFF]

  function StoreIndex(s: StoreStatus): (i: nat)
    ensures 0 < i < SECTOR_STATUS_NUM
  {
    match s
    case Empty => 1
    case Using => 2
    case Full => 3
  }

  function StoreOf(i: nat): (s: StoreStatus)
    ensures 0 < i < SECTOR_STATUS_NUM ==> StoreIndex(s) == i
  {
    if i == 1 then Empty else if i == 2 then Using else Full
  }

  function DirtyIndex(s: DirtyStatus): (i: nat)
    ensures 0 < i < SECTOR_STATUS_NUM
  {
    match s
    case Clean => 1
    case Dirty => 2
    case Collecting => 3
  }

  function DirtyOf(i: nat): (s: DirtyStatus)
    ensures 0 < i < SECTOR_STATUS_NUM ==> DirtyIndex(s) == i
  {
    if i == 1 then Clean else if i == 2 then Dirty else Collecting
  }

  /** The two statuses, one byte each, the magic word, and two words that stay erased. */
  ghost predicate HeaderHolds(f: Bytes, s: Sector) {
    && SECTOR_HDR_SIZE <= |f|
    && Encodes([f[0]], SECTOR_STATUS_NUM, StoreIndex(s.store))
    && Encodes([f[DIRTY_OFFSET]], SECTOR_STATUS_NUM, DirtyIndex(s.dirty))
    && Slice(f, 4, 4) == SECTOR_MAGIC && Slice(f, 8, 8) == UNSET_WORDS
  }

  /** No write in this sector was cut short. */
  ghost predicate Whole(recs: seq<Record>) { forall k :: 0 <= k < |recs| ==> Intact(recs[k]) }

  predicate Intact(r: Record) { !r.Stray() && r.crcOk }

  /** There are no stray bytes among the records, but maybe incomplete ones. */
  ghost predicate Unbroken(recs: seq<Record>) { forall k :: 0 <= k < |recs| ==> !recs[k].Stray() }

  /** The bytes of a sector are its header, its records one behind the other, and erased flash. */
  ghost predicate HoldsSector(f: Bytes, s: Sector) {
    HeaderHolds(f, s) && Holds(f, s.recs) && (s.recs == [] || Spacious(f, s.recs))
  }

  /** The header of a formatted sector, as it is written in one go. */
  function FormatHeader(): (h: Bytes)
    ensures |h| == SECTOR_HDR_SIZE
  {
    [BYTE_ERASED & Mask(1), BYTE_ERASED & Mask(1), BYTE_ERASED, BYTE_ERASED] + SECTOR_MAGIC + UNSET_WORDS
  }

  lemma FirstStatus()
    ensures Encodes([BYTE_ERASED & Mask(1)], SECTOR_STATUS_NUM, 1)
  {
  }

  lemma FormattedHolds(f: Bytes, f': Bytes)
    requires SECTOR_HDR_SIZE <= |f| < SECTOR_LIMIT && ErasedFrom(f, 0, |f|) && Patched(f, f', 0, FormatHeader())
    ensures HoldsSector(f', EMPTY_SECTOR)
  {
    hide Encodes;
    FirstStatus();
    PatchedSlice(f, f', 0, FormatHeader(), 4, 4);
    PatchedSlice(f, f', 0, FormatHeader(), 8, 8);
    ErasedBehind(f, f', 0, FormatHeader(), |f| - SECTOR_HDR_SIZE);
    assert FormatHeader()[4..8] == SECTOR_MAGIC && FormatHeader()[8..16] == UNSET_WORDS;
    assert f'[0] == FormatHeader()[0] && f'[1] == FormatHeader()[1];
  }

  /** What lies behind the header does not depend on it. */
  lemma HeaderApart(f: Bytes, f': Bytes, recs: seq<Record>)
    requires Holds(f, recs) && |f'| == |f| && forall p :: SECTOR_HDR_SIZE <= p < |f| ==> f'[p] == f[p]
    ensures Holds(f', recs)
  {
    hide UsedBytes, HoldsOne;
    forall k | 0 <= k < |recs| ensures HoldsOne(f', recs, k) {
      RecordFits(f, recs, k);
      SameWhereUnchanged(f, f', recs, recs, k);
    }
  }

  /** A change of the store status, and of the dirty status. */
  lemma StoreChanged(f: Bytes, f': Bytes, s: Sector, store: StoreStatus)
    requires HoldsSector(f, s) && OnlyAt(f, f', 0) && Encodes([f'[0]], SECTOR_STATUS_NUM, StoreIndex(store))
    ensures HoldsSector(f', s.(store := store))
  {
    hide Encodes, Holds, UsedBytes;
    HeaderApart(f, f', s.recs);
    SameSlice(f, f', 0, 4, 4);
    SameSlice(f, f', 0, 8, 8);
  }

  lemma DirtyChanged(f: Bytes, f': Bytes, s: Sector, dirty: DirtyStatus)
    requires HoldsSector(f, s) && OnlyAt(f, f', DIRTY_OFFSET)
    requires Encodes([f'[DIRTY_OFFSET]], SECTOR_STATUS_NUM, DirtyIndex(dirty))
    ensures HoldsSector(f', s.(dirty := dirty))
  {
    hide Encodes, Holds, UsedBytes;
    HeaderApart(f, f', s.recs);
    SameSlice(f, f', DIRTY_OFFSET, 3, 4);
    SameSlice(f, f', DIRTY_OFFSET, 7, 8);
  }

  /** A change behind the header leaves what the header says. */
  lemma RecordsChanged(f: Bytes, f': Bytes, s: Sector, recs: seq<Record>)
    requires HoldsSector(f, s) && |f'| == |f| && f'[..SECTOR_HDR_SIZE] == f[..SECTOR_HDR_SIZE]
    requires Holds(f', recs) && (recs == [] || Spacious(f', recs))
    ensures HoldsSector(f', s.(recs := recs))
  {
    hide Encodes, Holds, UsedBytes;
    assert forall p :: 0 <= p < SECTOR_HDR_SIZE ==> f'[p] == f'[..SECTOR_HDR_SIZE][p] == f[p];
    SliceUnchanged(f, f', 0, SECTOR_HDR_SIZE, 4, 4);
    SliceUnchanged(f, f', 0, SECTOR_HDR_SIZE, 8, 8);
  }

  // ---- Copying a record ----

  /** All of a record but its status field. */
  lemma RecordAsCopied(f: Bytes, a: nat, name: Bytes, value: Bytes)
    requires LiesAt(f, a, name, value)
    ensures Slice(f, a + 4, RecordSize(name, value) - 4) == Header(name, value) + Payload(name, value)
  {
    hide Payload, NameLenField, FlashNumbers.NatBytes, WordBytes;
    PayloadOnFlash(f, a, name, value);
    SliceParts(f, a + 4, 4, 4);
    SliceParts(f, a + 4, 8, 4);
    SliceParts(f, a + 4, 12, 8 + |name| + |value|);
  }

  /** Copy a record, in pieces of up to 32 bytes, from another sector into erased flash. */
  method CopyRecordBytes(medium: Medium, source: array<byte>, b: nat, flash: array<byte>, a: nat, len: nat,
                         ghost name: Bytes, ghost value: Bytes)
    requires source != flash && LiesAt(source[..], b, name, value) && len == RecordSize(name, value)
    requires ErasedFrom(flash[..], a, len)
    modifies flash
    ensures RecordWritten(old(flash[..]), flash[..], a, name, value)
  {
    hide Header, Payload, Encodes, Patched, ErasedFrom, OnlyAt, RecordWritten, LowBitsErased, LiesAt, Slice;
    ghost var f0, src := flash[..], source[..];
    ErasedStatus(f0, a, len, KV_STATUS_NUM);
    ErasedLowBits(f0, a, len);
    AdvanceStatus(medium, flash, a, KV_STATUS_NUM, 0, StatusIndex(PreWrite));
    ghost var f1 := flash[..];
    ErasedBehindStatus(f0, f1, a, len);
    CopyPieces(medium, source, b + 4, flash, a + 4, len - 4);
    ghost var f4 := flash[..];
    RecordAsCopied(src, b, name, value);
    StatusKept(f1, f4, a, Header(name, value) + Payload(name, value));
    AdvanceStatus(medium, flash, a, KV_STATUS_NUM, StatusIndex(PreWrite), StatusIndex(Written));
    WrittenInAll(f0, f1, f4, flash[..], a, name, value);
  }

  method CopyPieces(medium: Medium, source: array<byte>, b: nat, flash: array<byte>, a: nat, n: nat)
    requires source != flash && ErasedFrom(flash[..], a, n)
    modifies flash
    ensures Patched(old(flash[..]), flash[..], a, Slice(source[..], b, n))
  {
    hide Patched, ErasedFrom, Slice;
    ghost var f := flash[..];
    var done: nat := 0;
    PatchedNothing(f, a, n);
    SliceNothing(source[..], b);
    while done < n
      invariant done <= n && Patched(f, flash[..], a, Slice(source[..], b, done))
    {
      var size := if done + 32 < n then 32 else n - done;
      var piece := Slice(source[..], b + done, size);
      ErasedBehind(f, flash[..], a, Slice(source[..], b, done), n - done);
      ErasedSplit(flash[..], a + done, size, n - done - size);
      SliceParts(source[..], b, done, size);
      ghost var g := flash[..];
      WriteBytes(medium, flash, a + done, piece);
      PatchedTwice(f, g, flash[..], a, Slice(source[..], b, done), piece);
      done := done + size;
    }
  }

  lemma PatchedNothing(f: Bytes, a: nat, n: nat)
    requires ErasedFrom(f, a, n)
    ensures Patched(f, f, a, [])
  {
  }

  lemma SliceNothing(f: Bytes, a: nat)
    ensures Slice(f, a, 0) == []
  {
  }

  // ---- Reading ----

  /** What a search compares: the name as it was read. */
  predicate KvMatches(kv: KvObject, key: Bytes) {
    |key| == kv.nameLen && kv.crcOk && kv.status == Written && kv.name == key
  }

  lemma ReadMatches(f: Bytes, kv: KvObject, r: Record, key: Bytes)
    requires ReadAs(f, kv, r) && |r.name| <= NAME_MAX
    ensures KvMatches(kv, key) <==> r.Matches(key)
  {
  }

  lemma WholeNext(recs: seq<Record>, k: nat)
    requires Unbroken(recs) && k < |recs|
    ensures NextReal(recs, k + 1) == k + 1
  {
  }

  lemma {:induction false} WholeTotal(recs: seq<Record>)
    requires Unbroken(recs)
    ensures StrayTotal(recs) == 0 && WalkShort(recs) == 0
  {
    if recs != [] {
      WholeTotal(recs[..|recs| - 1]);
    }
  }

  lemma NamedShort(f: Bytes, recs: seq<Record>, k: nat)
    requires Holds(f, recs) && k < |recs| && !recs[k].Stray()
    ensures |recs[k].name| <= NAME_MAX
  {
    hide UsedBytes, LiesAt, Encodes;
    assert HoldsOne(f, recs, k);
  }

  class KvFlash {
    const medium: Medium
    const secSize: nat
    const sectors: seq<array<byte>>

    ghost predicate Shaped() {
      && (forall i :: 0 <= i < |sectors| ==> sectors[i].Length == secSize)
      && forall i, j :: 0 <= i < j < |sectors| ==> sectors[i] != sectors[j]
    }

    ghost predicate HoldsAll(secs: seq<Sector>)
      reads sectors
    {
      Shaped() && |secs| == |sectors| && forall i :: 0 <= i < |sectors| ==> HoldsSector(sectors[i][..], secs[i])
    }

    /** One sector has changed, and holds `s` now. */
    lemma SectorChanged(secs: seq<Sector>, i: nat, s: Sector)
      requires Shaped() && |secs| == |sectors| && i < |secs| && HoldsSector(sectors[i][..], s)
      requires forall j :: 0 <= j < |sectors| && j != i ==> HoldsSector(sectors[j][..], secs[j])
      ensures HoldsAll(secs[i := s])
    {
      hide HoldsSector;
    }

    /** Formatted flash. */
    constructor (medium: Medium, secSize: nat, secNum: nat)
      requires SECTOR_HDR_SIZE <= secSize < SECTOR_LIMIT
      ensures HoldsAll(seq(secNum, _ => EMPTY_SECTOR)) && this.secSize == secSize && |sectors| == secNum
      ensures fresh(sectors)
    {
      hide HoldsSector;
      this.medium, this.secSize := medium, secSize;
      var all: seq<array<byte>> := [];
      while |all| < secNum
        invariant |all| <= secNum && fresh(all)
        invariant forall i :: 0 <= i < |all| ==> all[i].Length == secSize && HoldsSector(all[i][..], EMPTY_SECTOR)
        invariant forall i, j :: 0 <= i < j < |all| ==> all[i] != all[j]
      {
        var sector := new byte[secSize];
        FormatSector(medium, sector);
        all := all + [sector];
      }
      sectors := all;
    }

    /** Erase a sector and write its header. */
    method Format(i: nat, ghost secs: seq<Sector>)
      requires HoldsAll(secs) && i < |secs|
      modifies sectors[i]
      ensures HoldsAll(secs[i := EMPTY_SECTOR])
    {
      hide HoldsSector;
      SizeOfSector(secs, i);
      FormatSector(medium, sectors[i]);
      SectorChanged(secs, i, EMPTY_SECTOR);
    }

    lemma SizeOfSector(secs: seq<Sector>, i: nat)
      requires HoldsAll(secs) && i < |secs|
      ensures SECTOR_HDR_SIZE <= secSize < SECTOR_LIMIT && sectors[i].Length == secSize
    {
      hide Encodes, UsedBytes, HoldsOne;
      assert HoldsSector(sectors[i][..], secs[i]);
    }

    method SetStore(i: nat, store: StoreStatus, ghost secs: seq<Sector>)
      requires HoldsAll(secs) && i < |secs| && StoreIndex(secs[i].store) < StoreIndex(store)
      modifies sectors[i]
      ensures HoldsAll(secs[i := secs[i].(store := store)])
    {
      hide Holds, Encodes, OnlyAt;
      assert HoldsSector(sectors[i][..], secs[i]);
      AdvanceStatus(medium, sectors[i], 0, SECTOR_STATUS_NUM, StoreIndex(secs[i].store), StoreIndex(store));
      StoreChanged(old(sectors[i][..]), sectors[i][..], secs[i], store);
      SectorChanged(secs, i, secs[i].(store := store));
    }

    method SetDirty(i: nat, dirty: DirtyStatus, ghost secs: seq<Sector>)
      requires HoldsAll(secs) && i < |secs| && DirtyIndex(secs[i].dirty) < DirtyIndex(dirty)
      modifies sectors[i]
      ensures HoldsAll(secs[i := secs[i].(dirty := dirty)])
    {
      hide Holds, Encodes, OnlyAt;
      assert HoldsSector(sectors[i][..], secs[i]);
      AdvanceStatus(medium, sectors[i], DIRTY_OFFSET, SECTOR_STATUS_NUM, DirtyIndex(secs[i].dirty), DirtyIndex(dirty));
      DirtyChanged(old(sectors[i][..]), sectors[i][..], secs[i], dirty);
      SectorChanged(secs, i, secs[i].(dirty := dirty));
    }

    /** Write a later status of the `k`-th record. */
    method MarkRecord(i: nat, k: nat, a: nat, status: KvStatus, ghost secs: seq<Sector>)
      requires HoldsAll(secs) && i < |secs| && k < |secs[i].recs| && a == Start(secs[i].recs, k)
      requires StatusIndex(secs[i].recs[k].status) < StatusIndex(status) && !secs[i].recs[k].Stray()
      requires secs[i].recs[k].crcOk || status == ErrHdr
      modifies sectors[i]
      ensures HoldsAll(secs[i := secs[i].(recs := secs[i].recs[k := secs[i].recs[k].(status := status)])])
    {
      hide Holds, HeaderHolds, UsedBytes;
      assert HoldsSector(sectors[i][..], secs[i]);
      MarkRecordBytes(medium, sectors[i], a, status, secs[i].recs, k);
      ghost var recs := secs[i].recs[k := secs[i].recs[k].(status := status)];
      StartOfUpdate(secs[i].recs, k, secs[i].recs[k].(status := status), |secs[i].recs|);
      RecordsChanged(old(sectors[i][..]), sectors[i][..], secs[i], recs);
      SectorChanged(secs, i, secs[i].(recs := recs));
    }

    /** Write a new record behind the others. */
    method WriteRecord(i: nat, a: nat, name: Bytes, value: Bytes, ghost secs: seq<Sector>)
      requires HoldsAll(secs) && i < |secs| && a == Start(secs[i].recs, |secs[i].recs|)
      requires |name| <= NAME_MAX && a + RecordSize(name, value) + REMAIN_THRESHOLD < secSize
      modifies sectors[i]
      ensures HoldsAll(secs[i := secs[i].(recs := secs[i].recs + [Record(Written, true, name, value)])])
    {
      hide Holds, HeaderHolds, UsedBytes;
      assert HoldsSector(sectors[i][..], secs[i]);
      var error := AppendRecordBytes(medium, sectors[i], a, name, value, secs[i].recs);
      RecordAppended(old(sectors[i][..]), sectors[i][..], secs[i], Record(Written, true, name, value));
      SectorChanged(secs, i, secs[i].(recs := secs[i].recs + [Record(Written, true, name, value)]));
    }

    /** Copy a record of another sector behind the others. */
    method CopyRecord(i: nat, a: nat, x: nat, k: nat, b: nat, len: nat, ghost secs: seq<Sector>)
      requires HoldsAll(secs) && i < |secs| && a == Start(secs[i].recs, |secs[i].recs|)
      requires x < |secs| && x != i && k < |secs[x].recs| && b == Start(secs[x].recs, k)
      requires len == secs[x].recs[k].Len() && a + len + REMAIN_THRESHOLD < secSize && Intact(secs[x].recs[k])
      modifies sectors[i]
      ensures HoldsAll(secs[i := secs[i].(recs := secs[i].recs + [secs[x].recs[k].(status := Written)])])
    {
      hide Holds, HeaderHolds, UsedBytes, RecordWritten, LiesAt, ErasedFrom;
      assert HoldsSector(sectors[i][..], secs[i]) && HoldsSector(sectors[x][..], secs[x]);
      ghost var r, f := secs[x].recs[k], sectors[i][..];
      SourceOfCopy(sectors[x][..], secs[x], k);
      ErasedBehindRecords(f, secs[i], len);
      CopyRecordBytes(medium, sectors[x], b, sectors[i], a, len, r.name, r.value);
      WrittenExtends(f, sectors[i][..], secs[i].recs, r.name, r.value);
      WrittenBehind(f, sectors[i][..], a, r.name, r.value);
      RecordAppended(f, sectors[i][..], secs[i], Record(Written, true, r.name, r.value));
      SectorChanged(secs, i, secs[i].(recs := secs[i].recs + [r.(status := Written)]));
    }

    /** The status of a sector, and whether its header is one. */
    method ReadHeader(i: nat, ghost secs: seq<Sector>) returns (checkOk: bool, store: StoreStatus, dirty: DirtyStatus)
      requires HoldsAll(secs) && i < |secs|
      ensures checkOk && store == secs[i].store && dirty == secs[i].dirty
    {
      hide Holds, Encodes;
      assert HoldsSector(sectors[i][..], secs[i]);
      var combined := Slice(sectors[i][..], 8, 4);
      CombinedUnset(sectors[i][..]);
      checkOk := Slice(sectors[i][..], 4, 4) == SECTOR_MAGIC
          && (combined == UNSET_WORDS[..4] || combined == [0, 0, 0, 0]);
      var n := GetStatus([sectors[i][0]], SECTOR_STATUS_NUM);
      EncodingUnique([sectors[i][0]], SECTOR_STATUS_NUM, n, StoreIndex(secs[i].store));
      var m := GetStatus([sectors[i][DIRTY_OFFSET]], SECTOR_STATUS_NUM);
      EncodingUnique([sectors[i][DIRTY_OFFSET]], SECTOR_STATUS_NUM, m, DirtyIndex(secs[i].dirty));
      store, dirty := StoreOf(n), DirtyOf(m);
    }

    /** The flash is smaller than any length that a header could be mistaken to have. */
    predicate SizeBounded() { secSize * |sectors| < LEN_LIMIT }

    /** The free space of a sector that holds records, by walking them: more than there is by as much as the walk
        falls short. */
    method Walk(i: nat, ghost secs: seq<Sector>) returns (remain: int)
      requires HoldsAll(secs) && i < |secs| && secs[i].recs != [] && !secs[i].recs[0].Stray()
      requires Whole(secs[i].recs) || SizeBounded()
      requires var last := secs[i].recs[|secs[i].recs| - 1];
               last.Stray() || last.crcOk || StrayTotal(secs[i].recs) == 0
      modifies sectors[i]
      ensures HoldsAll(secs) && sectors[i][..] == old(sectors[i][..])
      ensures remain == secSize - SECTOR_HDR_SIZE - UsedBytes(secs[i].recs) + WalkShort(secs[i].recs)
    {
      hide Holds, HeaderHolds, UsedBytes, AllReadAs, WalkShort, StrayTotal;
      assert HoldsSector(sectors[i][..], secs[i]);
      var kvs, empty;
      kvs, empty, remain := WalkSector(medium, sectors[i], secSize * |sectors|, secs[i].recs);
      WholeStart(secs[i].recs);
      SectorChanged(secs, i, secs[i]);
      assert secs[i := secs[i]] == secs;
    }

    /** The first matching record of a sector that holds records, complete or not. */
    method FindInSector(i: nat, key: Bytes, knownEmpty: Option<nat>, ghost secs: seq<Sector>) returns (r: Option<nat>)
      requires HoldsAll(secs) && i < |secs| && secs[i].recs != [] && Unbroken(secs[i].recs)
      requires Whole(secs[i].recs) || SizeBounded()
      requires knownEmpty.Some? ==> knownEmpty.value == Start(secs[i].recs, |secs[i].recs|)
      modifies sectors[i]
      ensures HoldsAll(secs) && sectors[i][..] == old(sectors[i][..])
      ensures r == KvStore.FindInSector(secs[i].recs, key, 0)
    {
      hide HoldsSector;
      assert HoldsSector(sectors[i][..], secs[i]);
      ghost var s := secs[i];
      r := SearchSector(medium, sectors[i], secSize * |sectors|, key, knownEmpty, s);
      SectorChanged(secs, i, s);
      assert secs[i := s] == secs;
    }

    /** Would garbage collection move the `k`-th record? */
    method IsMovable(i: nat, k: nat, a: nat, ghost secs: seq<Sector>) returns (r: bool)
      requires HoldsAll(secs) && i < |secs| && k < |secs[i].recs| && a == Start(secs[i].recs, k)
      requires !secs[i].recs[k].Stray() && (secs[i].recs[k].crcOk || SizeBounded())
      modifies sectors[i]
      ensures HoldsAll(secs) && sectors[i][..] == old(sectors[i][..])
      ensures r == secs[i].recs[k].Movable()
    {
      hide Holds, HeaderHolds, UsedBytes;
      assert HoldsSector(sectors[i][..], secs[i]);
      ghost var s := secs[i];
      var kv := ReadHeld(medium, sectors[i], secSize * |sectors|, s.recs, k, a);
      r := kv.crcOk && (kv.status == Written || kv.status == PreDelete);
      SectorChanged(secs, i, s);
      assert secs[i := s] == secs;
    }

    /** The value of the `k`-th record. */
    method ReadValue(i: nat, k: nat, a: nat, ghost secs: seq<Sector>) returns (value: Bytes)
      requires HoldsAll(secs) && i < |secs| && k < |secs[i].recs| && a == Start(secs[i].recs, k)
      requires Intact(secs[i].recs[k])
      modifies sectors[i]
      ensures HoldsAll(secs) && sectors[i][..] == old(sectors[i][..])
      ensures value == secs[i].recs[k].value
    {
      hide Holds, HeaderHolds, UsedBytes;
      assert HoldsSector(sectors[i][..], secs[i]);
      ghost var s := secs[i];
      var kv := ReadHeld(medium, sectors[i], secSize * |sectors|, s.recs, k, a);
      value := Slice(sectors[i][..], kv.valueAddr, kv.valueLen);
      SectorChanged(secs, i, s);
      assert secs[i := s] == secs;
    }
  }

  method FormatSector(medium: Medium, sector: array<byte>)
    requires SECTOR_HDR_SIZE <= sector.Length < SECTOR_LIMIT
    modifies sector
    ensures HoldsSector(sector[..], EMPTY_SECTOR)
  {
    hide HoldsSector, Patched, FormatHeader;
    for p := 0 to sector.Length
      invariant forall q :: 0 <= q < p ==> sector[q] == BYTE_ERASED
    {
      sector[p] := BYTE_ERASED;
    }
    ghost var f := sector[..];
    WriteBytes(medium, sector, 0, FormatHeader());
    FormattedHolds(f, sector[..]);
  }

  lemma CombinedUnset(f: Bytes)
    requires Slice(f, 8, 8) == UNSET_WORDS
    ensures Slice(f, 8, 4) == UNSET_WORDS[..4]
  {
    assert Slice(f, 8, 4) == Slice(f, 8, 8)[..4];
  }

  lemma WholeStart(recs: seq<Record>)
    ensures Start(recs, |recs|) == SECTOR_HDR_SIZE + UsedBytes(recs)
  {
    assert recs[..|recs|] == recs;
  }

  lemma RecordAppended(f: Bytes, f': Bytes, s: Sector, r: Record)
    requires HoldsSector(f, s) && |f'| == |f| && f'[..SECTOR_HDR_SIZE] == f[..SECTOR_HDR_SIZE]
    requires Holds(f', s.recs + [r]) && Start(s.recs, |s.recs|) + r.Len() + REMAIN_THRESHOLD < |f|
    ensures HoldsSector(f', s.(recs := s.recs + [r]))
  {
    hide Holds, HeaderHolds, UsedBytes;
    StartOfPrefix(s.recs, r, |s.recs|);
    StartNext(s.recs + [r], |s.recs|);
    RecordsChanged(f, f', s, s.recs + [r]);
  }

  lemma SourceOfCopy(f: Bytes, s: Sector, k: nat)
    requires HoldsSector(f, s) && k < |s.recs| && Intact(s.recs[k])
    ensures var r := s.recs[k];
            && !r.Stray() && r.crcOk && |r.name| <= NAME_MAX && LiesAt(f, Start(s.recs, k), r.name, r.value)
  {
    hide HeaderHolds, UsedBytes, LiesAt, Encodes;
    assert HoldsOne(f, s.recs, k);
  }

  lemma ErasedBehindRecords(f: Bytes, s: Sector, n: nat)
    requires HoldsSector(f, s) && Start(s.recs, |s.recs|) + n <= |f|
    ensures ErasedFrom(f, Start(s.recs, |s.recs|), n)
  {
    hide HeaderHolds, UsedBytes, HoldsOne;
  }

  /** Search a sector, record by record. */
  method SearchSector(medium: Medium, flash: array<byte>, maxSize: nat, key: Bytes, knownEmpty: Option<nat>,
                      ghost s: Sector)
    returns (r: Option<nat>)
    requires HoldsSector(flash[..], s) && s.recs != [] && maxSize >= flash.Length && Unbroken(s.recs)
    requires Whole(s.recs) || maxSize < LEN_LIMIT
    requires knownEmpty.Some? ==> knownEmpty.value == Start(s.recs, |s.recs|)
    modifies flash
    ensures flash[..] == old(flash[..]) && r == KvStore.FindInSector(s.recs, key, 0)
  {
    hide Holds, HeaderHolds, UsedBytes, ReadAs, MagicAt;
    ghost var recs := s.recs;
    var k: nat, a: nat := 0, SECTOR_HDR_SIZE;
    WalkBegins(recs);
    while true
      invariant flash[..] == old(flash[..]) && k < |recs| && a == Start(recs, k)
      invariant KvStore.FindInSector(recs, key, 0) == KvStore.FindInSector(recs, key, k)
      decreases |recs| - k
    {
      var kv := ReadHeld(medium, flash, maxSize, recs, k, a);
      NamedShort(flash[..], recs, k);
      ReadMatches(flash[..], kv, recs[k], key);
      if KvMatches(kv, key) {
        return Some(k);
      }
      LenRead(flash[..], kv, recs[k]);
      StartNext(recs, k);
      WholeNext(recs, k);
      var next := FindNext(flash, if kv.crcOk then a + kv.len else a + 1, flash.Length - SECTOR_HDR_SIZE, knownEmpty);
      NextFound(flash[..], recs, k, knownEmpty, next);
      if next.None? || next.value > flash.Length || kv.len == 0 {
        break;
      }
      a, k := next.value, k + 1;
    }
    r := None;
  }
}
