/** The flash of a time series database, sector by sector: what the header of a sector says, and how every change
    of a sector is made on its bytes. */
module TsFlashes {
  import opened FlashBytes
  import opened FlashNumbers
  import opened StatusTable
  import opened TsLog
  import opened TslBytes
  import opened Wrappers

  // ---- The header of a sector ----

  const SECTOR_STATUS_NUM: nat := 4
  const MAGIC_OFFSET: nat := 1
  const START_TIME_OFFSET: nat := 5
  const END_TIME_OFFSET: nat := 9
  const END_INDEX_OFFSET: nat := 13
  const END_STATUS_OFFSET: nat := 17
  const SECTOR_LIMIT: nat := 0x1_0000_0000
  const TIME_LIMIT: nat := 0x8000_0000
  /** "TSL0", the magic word of a sector. */
  const SECTOR_MAGIC: Bytes := [0x54, 0x53, 0x4C, 0x30]
  const UNSET: Bytes := [0xFF, 0xFF, 0xFF, 0xFF]

  function StoreIndex(s: StoreStatus): (i: nat)
    ensures 0 < i < SECTOR_STATUS_NUM
  {
    match s
    case Empty => 1
    case Using => 2
    case Full => 3
  }

  function StoreOf(i: nat): (s: StoreStatus)
    ensures 0 < i < SECTOR_STATUS_NUM ==> StoreIndex(s) == i
  {
    if i == 1 then Empty else if i == 2 then Using else Full
  }

  ghost predicate NumberAt(f: Bytes, a: nat, n: int) { 0 <= n && Slice(f, a, 4) == NatBytes(n) }

  /** The time of the first entry, or erased flash. */
  ghost predicate StartHolds(f: Bytes, start: Option<int>) {
    match start
    case None => ErasedFrom(f, START_TIME_OFFSET, 4)
    case Some(t) => 0 < t < TIME_LIMIT && NumberAt(f, START_TIME_OFFSET, t)
  }

  /** The time and the index of the last entry with a status of their own, or erased flash. */
  ghost predicate EndHolds(f: Bytes, end: Option<EndInfo>) {
    match end
    case None => ErasedFrom(f, END_TIME_OFFSET, 9)
    case Some(e) =>
      && 0 < e.time < TIME_LIMIT && 0 <= e.index < SECTOR_LIMIT
      && NumberAt(f, END_TIME_OFFSET, e.time) && NumberAt(f, END_INDEX_OFFSET, e.index)
      && END_STATUS_OFFSET < |f| && Encodes([f[END_STATUS_OFFSET]], TSL_STATUS_NUM, TSL_WRITE)
  }

  ghost predicate StatusHolds(f: Bytes, store: StoreStatus) {
    SECTOR_HDR_SIZE <= |f| && Encodes([f[0]], SECTOR_STATUS_NUM, StoreIndex(store))
  }

  /** The bytes of a sector: its header, its entries and their data, and erased flash between them. */
  ghost predicate HoldsSector(f: Bytes, s: Sector) {
    && StatusHolds(f, s.store) && Slice(f, MAGIC_OFFSET, 4) == SECTOR_MAGIC
    && StartHolds(f, s.startTime) && EndHolds(f, s.end) && HoldsLog(f, s.log)
  }

  // ---- Parts of a sector that a change leaves alone ----

  /** The bytes from `a` on, `n` of them, are as they were. */
  ghost predicate SameIn(f: Bytes, f': Bytes, a: nat, n: nat) {
    |f'| == |f| && forall p :: a <= p < a + n && p < |f| ==> f'[p] == f[p]
  }

  lemma SameSliceIn(f: Bytes, f': Bytes, a: nat, n: nat)
    requires SameIn(f, f', a, n)
    ensures Slice(f', a, n) == Slice(f, a, n)
  {
  }

  lemma StartStays(f: Bytes, f': Bytes, start: Option<int>)
    requires StartHolds(f, start) && SameIn(f, f', START_TIME_OFFSET, 4)
    ensures StartHolds(f', start)
  {
    hide NatBytes;
    SameSliceIn(f, f', START_TIME_OFFSET, 4);
  }

  lemma EndStays(f: Bytes, f': Bytes, end: Option<EndInfo>)
    requires EndHolds(f, end) && SameIn(f, f', END_TIME_OFFSET, 9)
    ensures EndHolds(f', end)
  {
    hide NatBytes, Encodes;
    SameSliceIn(f, f', END_TIME_OFFSET, 4);
    SameSliceIn(f, f', END_INDEX_OFFSET, 4);
  }

  lemma EntrySame(f: Bytes, f': Bytes, a: nat, t: Tsl, addr: nat)
    requires EntryAt(f, a, t, addr) && SECTOR_HDR_SIZE <= a && SECTOR_HDR_SIZE <= addr
    requires SameIn(f, f', SECTOR_HDR_SIZE, |f|)
    ensures EntryAt(f', a, t, addr)
  {
    hide NatBytes, Encodes;
    SameSliceIn(f, f', a + 4, 4);
    SameSliceIn(f, f', a + 8, 4);
    SameSliceIn(f, f', a + 12, 4);
    SameSliceIn(f, f', addr, |t.blob|);
  }

  /** What lies behind the header does not depend on it. */
  lemma LogStays(f: Bytes, f': Bytes, log: seq<Tsl>)
    requires HoldsLog(f, log) && SameIn(f, f', SECTOR_HDR_SIZE, |f|)
    ensures HoldsLog(f', log)
  {
    hide EntryAt, DataBytes;
    forall k | 0 <= k < |log| ensures HoldsEntry(f', log, k) {
      assert HoldsEntry(f, log, k);
      DataAtBound(|f|, log, k);
      EntrySame(f, f', IndexAt(k), log[k], DataAt(|f|, log, k));
    }
  }

  /** A change behind the header leaves what the header says. */
  lemma HeaderStays(f: Bytes, f': Bytes, s: Sector, log: seq<Tsl>)
    requires HoldsSector(f, s) && SameIn(f, f', 0, SECTOR_HDR_SIZE) && HoldsLog(f', log)
    ensures HoldsSector(f', s.(log := log))
  {
    hide HoldsLog, NatBytes, Encodes, StartHolds, EndHolds;
    SameSliceIn(f, f', MAGIC_OFFSET, 4);
    StartStays(f, f', s.startTime);
    EndStays(f, f', s.end);
  }

  // ---- Changes of the header ----

  /** A status byte was changed. */
  lemma StatusChanged(f: Bytes, f': Bytes, s: Sector, store: StoreStatus)
    requires HoldsSector(f, s) && OnlyAt(f, f', 0) && StatusHolds(f', store)
    ensures HoldsSector(f', s.(store := store))
  {
    hide HoldsLog, NatBytes, Encodes, StartHolds, EndHolds;
    SameSliceIn(f, f', MAGIC_OFFSET, 4);
    StartStays(f, f', s.startTime);
    EndStays(f, f', s.end);
    LogStays(f, f', s.log);
  }

  /** A time was written where the first time belongs. */
  lemma StartWritten(f: Bytes, f': Bytes, s: Sector, time: nat)
    requires HoldsSector(f, s) && 0 < time < TIME_LIMIT && Patched(f, f', START_TIME_OFFSET, NatBytes(time))
    ensures HoldsSector(f', s.(startTime := Some(time)))
  {
    hide HoldsLog, NatBytes, Encodes, EndHolds;
    SameSliceIn(f, f', MAGIC_OFFSET, 4);
    PatchedSlice(f, f', START_TIME_OFFSET, NatBytes(time), 0, 4);
    EndStays(f, f', s.end);
    LogStays(f, f', s.log);
  }

  /** The information about the last entry was written. */
  lemma EndWritten(f: Bytes, f': Bytes, s: Sector, e: EndInfo)
    requires HoldsSector(f, s) && EndHolds(f', Some(e))
    requires SameIn(f, f', 0, END_TIME_OFFSET) && SameIn(f, f', END_STATUS_OFFSET + 1, |f|)
    ensures HoldsSector(f', s.(end := Some(e)))
  {
    hide HoldsLog, NatBytes, Encodes, StartHolds, EndHolds;
    SameSliceIn(f, f', MAGIC_OFFSET, 4);
    StartStays(f, f', s.startTime);
    LogStays(f, f', s.log);
  }

  /** Write the information about the last entry of a sector: status, time, index, status. */
  method WriteEnd(medium: Medium, flash: array<byte>, e: EndInfo, ghost s: Sector)
    requires HoldsSector(flash[..], s) && s.end == None
    requires 0 < e.time < TIME_LIMIT && 0 <= e.index < SECTOR_LIMIT
    modifies flash
    ensures HoldsSector(flash[..], s.(end := Some(e)))
  {
    hide NatBytes, Encodes, StartHolds, HoldsLog, OnlyAt, Patched, Slice;
    ghost var f0 := flash[..];
    ErasedStatus(f0, END_STATUS_OFFSET, 1, TSL_STATUS_NUM);
    AdvanceStatus(medium, flash, END_STATUS_OFFSET, TSL_STATUS_NUM, TSL_UNUSED, TSL_PRE_WRITE);
    ghost var f1 := flash[..];
    ErasedBeforeStatus(f0, f1);
    WriteBytes(medium, flash, END_TIME_OFFSET, NatBytes(e.time));
    ghost var f2 := flash[..];
    ErasedBehind(f1, f2, END_TIME_OFFSET, NatBytes(e.time), 4);
    WriteBytes(medium, flash, END_INDEX_OFFSET, NatBytes(e.index));
    ghost var f3 := flash[..];
    PatchedTwice(f1, f2, f3, END_TIME_OFFSET, NatBytes(e.time), NatBytes(e.index));
    EndStatusKept(f1, f3, NatBytes(e.time) + NatBytes(e.index));
    AdvanceStatus(medium, flash, END_STATUS_OFFSET, TSL_STATUS_NUM, TSL_PRE_WRITE, TSL_WRITE);
    EndInAll(f0, f1, f3, flash[..], e);
    EndWritten(f0, flash[..], s, e);
  }

  lemma ErasedBeforeStatus(f: Bytes, f': Bytes)
    requires ErasedFrom(f, END_TIME_OFFSET, 9) && OnlyAt(f, f', END_STATUS_OFFSET)
    ensures ErasedFrom(f', END_TIME_OFFSET, 8) && ErasedFrom(f', END_TIME_OFFSET, 4)
  {
  }

  lemma EndStatusKept(f: Bytes, f': Bytes, data: Bytes)
    requires Patched(f, f', END_TIME_OFFSET, data) && |data| == 8 && END_STATUS_OFFSET < |f|
    ensures |f'| == |f| && f'[END_STATUS_OFFSET] == f[END_STATUS_OFFSET]
  {
  }

  lemma EndInAll(f0: Bytes, f1: Bytes, f3: Bytes, f4: Bytes, e: EndInfo)
    requires 0 < e.time < TIME_LIMIT && 0 <= e.index < SECTOR_LIMIT && END_STATUS_OFFSET < |f0|
    requires OnlyAt(f0, f1, END_STATUS_OFFSET) && OnlyAt(f3, f4, END_STATUS_OFFSET)
    requires Patched(f1, f3, END_TIME_OFFSET, NatBytes(e.time) + NatBytes(e.index))
    requires |f4| == |f0| ==> Encodes([f4[END_STATUS_OFFSET]], TSL_STATUS_NUM, TSL_WRITE)
    ensures EndHolds(f4, Some(e))
    ensures SameIn(f0, f4, 0, END_TIME_OFFSET) && SameIn(f0, f4, END_STATUS_OFFSET + 1, |f0|)
  {
    hide NatBytes, Encodes;
    var data := NatBytes(e.time) + NatBytes(e.index);
    PatchedSlice(f1, f3, END_TIME_OFFSET, data, 0, 4);
    PatchedSlice(f1, f3, END_TIME_OFFSET, data, 4, 4);
    SameSliceIn(f3, f4, END_TIME_OFFSET, 4);
    SameSliceIn(f3, f4, END_INDEX_OFFSET, 4);
  }

  // ---- Formatting ----

  /** Erase a sector and write its status and its magic word. */
  method FormatSector(medium: Medium, sector: array<byte>)
    requires SECTOR_HDR_SIZE <= sector.Length < SECTOR_LIMIT
    modifies sector
    ensures HoldsSector(sector[..], EMPTY_SECTOR)
  {
    hide HoldsSector, Patched, Encodes, OnlyAt;
    for p := 0 to sector.Length
      invariant forall q :: 0 <= q < p ==> sector[q] == BYTE_ERASED
    {
      sector[p] := BYTE_ERASED;
    }
    ghost var f0 := sector[..];
    ErasedStatus(f0, 0, 1, SECTOR_STATUS_NUM);
    AdvanceStatus(medium, sector, 0, SECTOR_STATUS_NUM, 0, StoreIndex(Empty));
    ghost var f1 := sector[..];
    ErasedBehindFirst(f0, f1);
    WriteBytes(medium, sector, MAGIC_OFFSET, SECTOR_MAGIC);
    FormattedHolds(f0, f1, sector[..]);
  }

  lemma ErasedBehindFirst(f: Bytes, f': Bytes)
    requires SECTOR_HDR_SIZE <= |f| && ErasedFrom(f, 0, |f|) && OnlyAt(f, f', 0)
    ensures ErasedFrom(f', MAGIC_OFFSET, 4)
  {
  }

  lemma FormattedHolds(f0: Bytes, f1: Bytes, f2: Bytes)
    requires SECTOR_HDR_SIZE <= |f0| < SECTOR_LIMIT && ErasedFrom(f0, 0, |f0|) && OnlyAt(f0, f1, 0)
    requires Encodes([f1[0]], SECTOR_STATUS_NUM, StoreIndex(Empty)) && Patched(f1, f2, MAGIC_OFFSET, SECTOR_MAGIC)
    ensures HoldsSector(f2, EMPTY_SECTOR)
  {
    hide Encodes;
    PatchedSlice(f1, f2, MAGIC_OFFSET, SECTOR_MAGIC, 0, 4);
  }

  // ---- The sectors ----

  lemma LogHeld(f: Bytes, s: Sector)
    requires HoldsSector(f, s)
    ensures HoldsLog(f, s.log) && SECTOR_HDR_SIZE <= |f| < SECTOR_LIMIT
  {
    hide StartHolds, EndHolds, Encodes, HoldsEntry;
  }

  /** A written entry changes nothing in the header. */
  lemma EntryBehindHeader(f: Bytes, f': Bytes, log: seq<Tsl>)
    requires OutsideKept(f, f', IndexAt(|log|), |f|)
    ensures SameIn(f, f', 0, SECTOR_HDR_SIZE)
  {
  }

  class TsFlash {
    const medium: Medium
    const secSize: nat
    const sectors: seq<array<byte>>

    ghost predicate Shaped() {
      && (forall i :: 0 <= i < |sectors| ==> sectors[i].Length == secSize)
      && forall i, j :: 0 <= i < j < |sectors| ==> sectors[i] != sectors[j]
    }

    ghost predicate HoldsAll(secs: seq<Sector>)
      reads sectors
    {
      Shaped() && |secs| == |sectors| && forall i :: 0 <= i < |sectors| ==> HoldsSector(sectors[i][..], secs[i])
    }

    /** One sector has changed, and holds `s` now. */
    lemma SectorChanged(secs: seq<Sector>, i: nat, s: Sector)
      requires Shaped() && |secs| == |sectors| && i < |secs| && HoldsSector(sectors[i][..], s)
      requires forall j :: 0 <= j < |sectors| && j != i ==> HoldsSector(sectors[j][..], secs[j])
      ensures HoldsAll(secs[i := s])
    {
      hide HoldsSector;
    }

    /** Formatted flash. */
    constructor (medium: Medium, secSize: nat, secNum: nat)
      requires SECTOR_HDR_SIZE <= secSize < SECTOR_LIMIT
      ensures HoldsAll(seq(secNum, _ => EMPTY_SECTOR)) && this.secSize == secSize && |sectors| == secNum
      ensures fresh(sectors)
    {
      hide HoldsSector;
      this.medium, this.secSize := medium, secSize;
      var all: seq<array<byte>> := [];
      while |all| < secNum
        invariant |all| <= secNum && fresh(all)
        invariant forall i :: 0 <= i < |all| ==> all[i].Length == secSize && HoldsSector(all[i][..], EMPTY_SECTOR)
        invariant forall i, j :: 0 <= i < j < |all| ==> all[i] != all[j]
      {
        var sector := new byte[secSize];
        FormatSector(medium, sector);
        all := all + [sector];
      }
      sectors := all;
    }

    lemma LastEntryStorable(secs: seq<Sector>, i: nat)
      requires HoldsAll(secs) && i < |secs| && secs[i].log != []
      ensures Storable(secs[i].log[|secs[i].log| - 1]) && IndexAt(|secs[i].log|) <= secSize < SECTOR_LIMIT
    {
      hide HoldsSector, Encodes, NatBytes, DataBytes, ErasedFrom;
      LogHeld(sectors[i][..], secs[i]);
      assert HoldsEntry(sectors[i][..], secs[i].log, |secs[i].log| - 1);
    }

    method Format(i: nat, ghost secs: seq<Sector>)
      requires HoldsAll(secs) && i < |secs|
      modifies sectors[i]
      ensures HoldsAll(secs[i := EMPTY_SECTOR])
    {
      hide HoldsSector;
      LogHeld(sectors[i][..], secs[i]);
      FormatSector(medium, sectors[i]);
      SectorChanged(secs, i, EMPTY_SECTOR);
    }

    /** Mark an empty sector as in use from `time` on. */
    method Start(i: nat, time: int, ghost secs: seq<Sector>)
      requires HoldsAll(secs) && i < |secs| && secs[i] == EMPTY_SECTOR && 0 < time < TIME_LIMIT
      modifies sectors[i]
      ensures HoldsAll(secs[i := Sector(Using, Some(time), None, [])])
    {
      hide HoldsLog, EndHolds, Encodes, OnlyAt, Patched, ErasedFrom, NatBytes;
      assert HoldsSector(sectors[i][..], secs[i]);
      ghost var f := sectors[i][..];
      AdvanceStatus(medium, sectors[i], 0, SECTOR_STATUS_NUM, StoreIndex(Empty), StoreIndex(Using));
      StatusChanged(f, sectors[i][..], secs[i], Using);
      ghost var g, s := sectors[i][..], secs[i].(store := Using);
      WriteBytes(medium, sectors[i], START_TIME_OFFSET, NatBytes(time));
      StartWritten(g, sectors[i][..], s, time);
      SectorChanged(secs, i, s.(startTime := Some(time)));
    }

    /** Write the end of a sector in use into its header and mark it full. */
    method Close(i: nat, e: EndInfo, ghost secs: seq<Sector>)
      requires HoldsAll(secs) && i < |secs| && secs[i].store == Using && secs[i].end == None
      requires 0 < e.time < TIME_LIMIT && 0 <= e.index < SECTOR_LIMIT
      modifies sectors[i]
      ensures HoldsAll(secs[i := secs[i].(store := Full, end := Some(e))])
    {
      hide HoldsLog, StartHolds, EndHolds, Encodes, OnlyAt;
      assert HoldsSector(sectors[i][..], secs[i]);
      WriteEnd(medium, sectors[i], e, secs[i]);
      ghost var g, s := sectors[i][..], secs[i].(end := Some(e));
      AdvanceStatus(medium, sectors[i], 0, SECTOR_STATUS_NUM, StoreIndex(Using), StoreIndex(Full));
      StatusChanged(g, sectors[i][..], s, Full);
      SectorChanged(secs, i, s.(store := Full));
    }

    /** Write an entry: its index behind the others, its data before theirs. */
    method WriteEntry(i: nat, emptyIdx: nat, emptyData: nat, t: Tsl, ghost secs: seq<Sector>)
      requires HoldsAll(secs) && i < |secs| && Storable(t)
      requires emptyIdx == IndexAt(|secs[i].log|) && emptyData == secSize - DataBytes(secs[i].log)
      requires emptyIdx + LOG_IDX_SIZE + |t.blob| <= emptyData
      modifies sectors[i]
      ensures HoldsAll(secs[i := secs[i].(log := secs[i].log + [t])])
    {
      hide HoldsSector, HoldsLog, DataBytes, OutsideKept;
      ghost var f := sectors[i][..];
      LogHeld(f, secs[i]);
      WriteTslBytes(medium, sectors[i], emptyIdx, emptyData, t, secs[i].log);
      EntryBehindHeader(f, sectors[i][..], secs[i].log);
      HeaderStays(f, sectors[i][..], secs[i], secs[i].log + [t]);
      SectorChanged(secs, i, secs[i].(log := secs[i].log + [t]));
    }

    /** What the header of a sector says, and whether it is one. */
    method ReadHeader(i: nat, ghost secs: seq<Sector>)
      returns (checkOk: bool, store: StoreStatus, start: Option<int>, end: Option<EndInfo>)
      requires HoldsAll(secs) && i < |secs|
      ensures checkOk && store == secs[i].store && start == secs[i].startTime && end == secs[i].end
    {
      hide HoldsLog, StartHolds, EndHolds, Encodes;
      assert HoldsSector(sectors[i][..], secs[i]);
      checkOk := Slice(sectors[i][..], MAGIC_OFFSET, 4) == SECTOR_MAGIC;
      var n := GetStatus([sectors[i][0]], SECTOR_STATUS_NUM);
      EncodingUnique([sectors[i][0]], SECTOR_STATUS_NUM, n, StoreIndex(secs[i].store));
      store := StoreOf(n);
      start := ReadStart(sectors[i], secs[i].startTime);
      end := ReadEnd(sectors[i], secs[i].end);
    }

    /** Read the `k`-th slot of the index, and the data it refers to. */
    method ReadSlot(i: nat, k: nat, maxLen: nat, ghost secs: seq<Sector>) returns (r: Option<Tsl>)
      requires HoldsAll(secs) && i < |secs| && k <= |secs[i].log|
      requires k == |secs[i].log| ==> Remain(secSize, secs[i].log) > 0
      ensures r == if k < |secs[i].log| then Some(secs[i].log[k]) else None
    {
      hide HoldsSector, HoldsLog, DataBytes;
      LogHeld(sectors[i][..], secs[i]);
      SlotInSector(sectors[i][..], secs[i].log, k);
      var t := ReadSlotOf(sectors[i], k, maxLen, secs[i].log);
      r := if t.status == TSL_UNUSED then None else Some(Tsl(t.time, Slice(sectors[i][..], t.addr, t.len)));
    }
  }

  lemma SlotInSector(f: Bytes, log: seq<Tsl>, k: nat)
    requires HoldsLog(f, log) && k <= |log| && (k == |log| ==> Remain(|f|, log) > 0)
    ensures IndexAt(k) < |f|
  {
    hide EntryAt, DataBytes;
    if k < |log| {
      assert HoldsEntry(f, log, k);
    }
  }

  /** The time of the first entry; erased bytes are no time. */
  method ReadStart(flash: array<byte>, ghost start: Option<int>) returns (r: Option<int>)
    requires StartHolds(flash[..], start)
    ensures r == start
  {
    hide NatBytes, NatOf;
    var bytes := Slice(flash[..], START_TIME_OFFSET, 4);
    r := if bytes == UNSET then None else Some(NatOf(bytes));
    if start.Some? {
      NatRoundTrip(start.value);
      TimeIsSet(start.value);
    } else {
      assert bytes == UNSET;
    }
  }

  lemma TimeIsSet(time: nat)
    requires time < TIME_LIMIT
    ensures NatBytes(time) != UNSET
  {
    hide NatBytes;
    NatRoundTrip(time);
    UnsetIsHighest();
  }

  lemma UnsetIsHighest()
    ensures NatOf(UNSET) == SECTOR_LIMIT - 1
  {
  }

  /** The information about the last entry counts once its status says so. */
  method ReadEnd(flash: array<byte>, ghost end: Option<EndInfo>) returns (r: Option<EndInfo>)
    requires EndHolds(flash[..], end)
    ensures r == end
  {
    hide NatBytes, NatOf, Encodes, ErasedFrom;
    EndStatus(flash[..], end);
    var status := GetStatus([flash[END_STATUS_OFFSET]], TSL_STATUS_NUM);
    if status == TSL_WRITE {
      r := Some(EndInfo(NatOf(Slice(flash[..], END_TIME_OFFSET, 4)), NatOf(Slice(flash[..], END_INDEX_OFFSET, 4))));
    } else {
      r := None;
    }
    EncodingUnique([flash[END_STATUS_OFFSET]], TSL_STATUS_NUM, status, if end.Some? then TSL_WRITE else TSL_UNUSED);
    if end.Some? {
      NatRoundTrip(end.value.time);
      NatRoundTrip(end.value.index);
    }
  }

  lemma EndStatus(f: Bytes, end: Option<EndInfo>)
    requires EndHolds(f, end)
    ensures END_STATUS_OFFSET < |f|
    ensures Encodes([f[END_STATUS_OFFSET]], TSL_STATUS_NUM, if end.Some? then TSL_WRITE else TSL_UNUSED)
  {
    hide Encodes;
    if end.None? {
      ErasedStatus(f, END_STATUS_OFFSET, 1, TSL_STATUS_NUM);
    }
  }
}
