/** A sector of the time series log as bytes on flash: index entries of 16 bytes grow up from the header, data
    grows down from the end. Times are those of a 32-bit clock. */
module TslBytes {
  import opened FlashBytes
  import opened FlashNumbers
  import opened StatusTable
  import opened TsLog

  const TSL_STATUS_NUM: nat := 6
  const TSL_UNUSED: nat := 0
  const TSL_PRE_WRITE: nat := 1
  const TSL_WRITE: nat := 2

  /** What an entry's fields can hold. */
  predicate Storable(t: Tsl) { 0 < t.time < 0x8000_0000 && |t.blob| < 0x1_0000_0000 }

  /** Where the data of entry `k` begins: behind it are the data of the entries before it. */
  function DataAt(secSize: nat, log: seq<Tsl>, k: nat): int
    requires k < |log|
  {
    secSize - DataBytes(log[..k + 1])
  }

  /** Behind the status: time, length and place of the data. */
  function IndexFields(time: nat, len: nat, addr: nat): (s: Bytes)
    ensures |s| == 12
  {
    NatBytes(time) + NatBytes(len) + NatBytes(addr)
  }

  ghost predicate EntryAt(f: Bytes, a: nat, t: Tsl, addr: nat) {
    && Storable(t) && a < |f| && Encodes([f[a]], TSL_STATUS_NUM, TSL_WRITE)
    && Slice(f, a + 4, 4) == NatBytes(t.time) && Slice(f, a + 8, 4) == NatBytes(|t.blob|)
    && Slice(f, a + 12, 4) == NatBytes(addr) && Slice(f, addr, |t.blob|) == t.blob
  }

  ghost predicate HoldsEntry(f: Bytes, log: seq<Tsl>, k: nat)
    requires k < |log|
  {
    DataAt(|f|, log, k) >= 0 && EntryAt(f, IndexAt(k), log[k], DataAt(|f|, log, k))
  }

  /** The sector holds the log; the index and the data do not overlap, and what is between them is erased. */
  ghost predicate HoldsLog(f: Bytes, log: seq<Tsl>) {
    && |f| < 0x1_0000_0000 && Remain(|f|, log) >= 0
    && (forall k :: 0 <= k < |log| ==> HoldsEntry(f, log, k))
    && ErasedFrom(f, IndexAt(|log|), Remain(|f|, log))
  }

  // ---- Reading ----

  datatype TslObject = TslObject(status: nat, time: nat, len: nat, addr: nat)

  /** Read the entry at an index address. */
  method ReadTsl(flash: array<byte>, a: nat, maxLen: nat) returns (t: TslObject)
    requires a < flash.Length
    ensures t.status < TSL_STATUS_NUM && Encodes([flash[a]], TSL_STATUS_NUM, t.status)
    ensures t.status == TSL_PRE_WRITE || t.status == TSL_UNUSED ==> t.len == maxLen && t.time == 0
    ensures t.status != TSL_PRE_WRITE && t.status != TSL_UNUSED ==>
              && t.time == NatOf(Slice(flash[..], a + 4, 4)) && t.len == NatOf(Slice(flash[..], a + 8, 4))
              && t.addr == NatOf(Slice(flash[..], a + 12, 4))
  {
    hide Encodes, NatOf;
    var status := GetStatus([flash[a]], TSL_STATUS_NUM);
    if status == TSL_PRE_WRITE || status == TSL_UNUSED {
      return TslObject(status, 0, maxLen, 0);
    }
    return TslObject(status, NatOf(Slice(flash[..], a + 4, 4)), NatOf(Slice(flash[..], a + 8, 4)),
        NatOf(Slice(flash[..], a + 12, 4)));
  }

  /** Every entry reads back, its blob unchanged; and the slot behind the last one reads as unused as long as
      a single byte is free. */
  method ReadSlotOf(flash: array<byte>, k: nat, maxLen: nat, ghost log: seq<Tsl>) returns (t: TslObject)
    requires HoldsLog(flash[..], log) && k <= |log|
    requires k == |log| ==> Remain(flash.Length, log) > 0
    requires IndexAt(k) < flash.Length
    ensures k < |log| ==>
              && t.status == TSL_WRITE && t.time == log[k].time && t.len == |log[k].blob|
              && Slice(flash[..], t.addr, t.len) == log[k].blob
    ensures k == |log| ==> t.status == TSL_UNUSED
  {
    hide Encodes, NatOf, NatBytes, Slice;
    t := ReadTsl(flash, IndexAt(k), maxLen);
    if k < |log| {
      assert HoldsEntry(flash[..], log, k);
      EncodingUnique([flash[IndexAt(k)]], TSL_STATUS_NUM, t.status, TSL_WRITE);
      NatRoundTrip(log[k].time);
      NatRoundTrip(|log[k].blob|);
      DataAtBound(flash.Length, log, k);
      NatRoundTrip(DataAt(flash.Length, log, k));
    } else {
      ErasedStatus(flash[..], IndexAt(k), 1, TSL_STATUS_NUM);
      EncodingUnique([flash[IndexAt(k)]], TSL_STATUS_NUM, t.status, TSL_UNUSED);
    }
  }

  lemma DataAtBound(secSize: nat, log: seq<Tsl>, k: nat)
    requires k < |log|
    ensures secSize - DataBytes(log) <= DataAt(secSize, log, k) <= secSize - |log[k].blob|
  {
    DataBytesNext(log, k);
    DataBytesPrefix(log, k + 1);
  }

  // ---- Writing ----

  lemma DataAtPrefix(secSize: nat, log: seq<Tsl>, t: Tsl, k: nat)
    requires k <= |log|
    ensures DataAt(secSize, log + [t], k) == if k < |log| then DataAt(secSize, log, k)
        else secSize - DataBytes(log) - |t.blob|
  {
    if k < |log| {
      assert (log + [t])[..k + 1] == log[..k + 1];
    } else {
      assert (log + [t])[..k + 1] == log + [t];
      DataBytesAppend(log, t);
    }
  }

  /** What a write leaves alone: the index entries before the new one, and the data behind the new data. */
  ghost predicate OutsideKept(f: Bytes, f': Bytes, lo: nat, hi: nat) {
    && |f'| == |f|
    && (forall p :: 0 <= p < lo && p < |f| ==> f'[p] == f[p])
    && (forall p :: hi <= p < |f| ==> f'[p] == f[p])
  }

  lemma EntryKept(f: Bytes, f': Bytes, a: nat, t: Tsl, addr: nat, lo: nat, hi: nat)
    requires EntryAt(f, a, t, addr) && OutsideKept(f, f', lo, hi)
    requires a + LOG_IDX_SIZE <= lo <= |f| && hi <= addr && addr + |t.blob| <= |f|
    ensures EntryAt(f', a, t, addr)
  {
    hide NatBytes, Encodes;
    SliceUnchanged(f, f', a, 16, 4, 4);
    SliceUnchanged(f, f', a, 16, 8, 4);
    SliceUnchanged(f, f', a, 16, 12, 4);
    SliceUnchanged(f, f', addr, |t.blob|, 0, |t.blob|);
  }

  /** The new entry is in its place, and nothing else of the log was touched. */
  ghost predicate EntryWritten(f: Bytes, f': Bytes, log: seq<Tsl>, t: Tsl) {
    var a, addr := IndexAt(|log|), |f| - DataBytes(log) - |t.blob|;
    && addr >= a + LOG_IDX_SIZE
    && OutsideKept(f, f', a, addr + |t.blob|) && EntryAt(f', a, t, addr)
    && ErasedFrom(f', a + LOG_IDX_SIZE, addr - (a + LOG_IDX_SIZE))
  }

  lemma EntryStays(f: Bytes, f': Bytes, log: seq<Tsl>, t: Tsl, k: nat)
    requires HoldsLog(f, log) && EntryWritten(f, f', log, t) && k <= |log|
    ensures HoldsEntry(f', log + [t], k)
  {
    hide EntryAt, ErasedFrom, DataAt, OutsideKept;
    DataAtPrefix(|f|, log, t, k);
    SameLength(f, f', IndexAt(|log|), |f| - DataBytes(log));
    if k < |log| {
      assert HoldsEntry(f, log, k);
      DataAtBound(|f|, log, k);
      EntryKept(f, f', IndexAt(k), log[k], DataAt(|f|, log, k), IndexAt(|log|), |f| - DataBytes(log));
    }
  }

  /** The four writes of an entry extend the sector by exactly that entry. */
  lemma WrittenEntryExtends(f: Bytes, f': Bytes, log: seq<Tsl>, t: Tsl)
    requires HoldsLog(f, log) && EntryWritten(f, f', log, t)
    ensures HoldsLog(f', log + [t])
  {
    hide HoldsEntry, EntryAt, DataBytes;
    DataBytesAppend(log, t);
    SameLength(f, f', IndexAt(|log|), |f| - DataBytes(log));
    forall k | 0 <= k < |log + [t]| ensures HoldsEntry(f', log + [t], k) {
      EntryStays(f, f', log, t, k);
    }
  }

  lemma SameLength(f: Bytes, f': Bytes, lo: nat, hi: nat)
    requires OutsideKept(f, f', lo, hi)
    ensures |f'| == |f|
  {
  }

  /** Write an entry: its status, its index fields, its data, and its final status. */
  method WriteTslBytes(medium: Medium, flash: array<byte>, emptyIdx: nat, emptyData: nat, t: Tsl, ghost log: seq<Tsl>)
    requires HoldsLog(flash[..], log) && Storable(t)
    requires emptyIdx == IndexAt(|log|) && emptyData == flash.Length - DataBytes(log)
    requires emptyIdx + LOG_IDX_SIZE + |t.blob| <= emptyData
    modifies flash
    ensures HoldsLog(flash[..], log + [t])
    ensures OutsideKept(old(flash[..]), flash[..], IndexAt(|log|), flash.Length)
  {
    hide HoldsLog, EntryAt, OutsideKept, ErasedFrom, Patched, OnlyAt, Encodes, IndexFields, NatBytes, DataBytes,
      IndexAt;
    ghost var f0 := flash[..];
    var addr := emptyData - |t.blob|;
    SectorErased(f0, log, emptyIdx, emptyData);
    ErasedStatus(f0, emptyIdx, emptyData - emptyIdx, TSL_STATUS_NUM);
    AdvanceStatus(medium, flash, emptyIdx, TSL_STATUS_NUM, TSL_UNUSED, TSL_PRE_WRITE);
    ghost var f1 := flash[..];
    ErasedBehindOne(f0, f1, emptyIdx, emptyData);
    ErasedSplit(f1, emptyIdx + 4, 12, emptyData - emptyIdx - 16);
    WriteBytes(medium, flash, emptyIdx + 4, IndexFields(t.time, |t.blob|, addr));
    ghost var f2 := flash[..];
    ErasedBehind(f1, f2, emptyIdx + 4, IndexFields(t.time, |t.blob|, addr), emptyData - emptyIdx - 16);
    ErasedSplit(f2, emptyIdx + 16, addr - emptyIdx - 16, |t.blob|);
    WriteBytes(medium, flash, addr, t.blob);
    ghost var f3 := flash[..];
    StatusKept(f1, f2, f3, emptyIdx, IndexFields(t.time, |t.blob|, addr), addr, t.blob);
    AdvanceStatus(medium, flash, emptyIdx, TSL_STATUS_NUM, TSL_PRE_WRITE, TSL_WRITE);
    WrittenInAll(f0, f1, f2, f3, flash[..], emptyIdx, addr, t);
    WrittenEntryExtends(f0, flash[..], log, t);
    KeptBefore(f0, flash[..], emptyIdx, addr + |t.blob|);
  }

  lemma KeptBefore(f: Bytes, f': Bytes, lo: nat, hi: nat)
    requires OutsideKept(f, f', lo, hi)
    ensures OutsideKept(f, f', lo, |f|)
  {
  }

  lemma SectorErased(f: Bytes, log: seq<Tsl>, emptyIdx: nat, emptyData: nat)
    requires HoldsLog(f, log) && emptyIdx == IndexAt(|log|) && emptyData == |f| - DataBytes(log)
        && emptyIdx + 16 <= emptyData
    ensures ErasedFrom(f, emptyIdx, emptyData - emptyIdx) && emptyIdx < |f| < 0x1_0000_0000 && emptyData <= |f|
    ensures Remain(|f|, log) == emptyData - emptyIdx
  {
  }

  lemma ErasedBehindOne(f: Bytes, f': Bytes, a: nat, end: nat)
    requires a + 16 <= end && ErasedFrom(f, a, end - a) && OnlyAt(f, f', a)
    ensures ErasedFrom(f', a + 4, end - (a + 4))
  {
  }

  lemma StatusKept(f1: Bytes, f2: Bytes, f3: Bytes, a: nat, fields: Bytes, addr: nat, blob: Bytes)
    requires Patched(f1, f2, a + 4, fields) && Patched(f2, f3, addr, blob) && a < addr
    ensures |f1| == |f3| && a < |f3| && f3[a] == f1[a]
  {
  }

  lemma WrittenInAll(f0: Bytes, f1: Bytes, f2: Bytes, f3: Bytes, f4: Bytes, a: nat, addr: nat, t: Tsl)
    requires Storable(t) && a + 16 <= addr < 0x1_0000_0000
    requires OnlyAt(f0, f1, a) && Patched(f1, f2, a + 4, IndexFields(t.time, |t.blob|, addr))
        && Patched(f2, f3, addr, t.blob)
    requires ErasedFrom(f2, a + 16, addr - a - 16)
    requires OnlyAt(f3, f4, a) && a < |f4| && Encodes([f4[a]], TSL_STATUS_NUM, TSL_WRITE)
    ensures OutsideKept(f0, f4, a, addr + |t.blob|) && EntryAt(f4, a, t, addr)
    ensures ErasedFrom(f4, a + 16, addr - (a + 16))
  {
    hide NatBytes, Encodes;
    var fields := IndexFields(t.time, |t.blob|, addr);
    FieldsKept(f1, f2, f3, f4, a, fields, addr, t.blob, 0);
    FieldsKept(f1, f2, f3, f4, a, fields, addr, t.blob, 4);
    FieldsKept(f1, f2, f3, f4, a, fields, addr, t.blob, 8);
    PatchedSlice(f2, f3, addr, t.blob, 0, |t.blob|);
    SameSlice(f3, f4, a, addr - a, |t.blob|);
  }

  lemma FieldsKept(f1: Bytes, f2: Bytes, f3: Bytes, f4: Bytes, a: nat, fields: Bytes, addr: nat, blob: Bytes, j: nat)
    requires |fields| == 12 && j + 4 <= 12 && a + 16 <= addr
    requires Patched(f1, f2, a + 4, fields) && Patched(f2, f3, addr, blob) && OnlyAt(f3, f4, a)
    ensures Slice(f4, a + 4 + j, 4) == fields[j..j + 4]
  {
    PatchedSlice(f1, f2, a + 4, fields, j, 4);
    SliceUnchanged(f2, f3, a, 16, 4 + j, 4);
    SameSlice(f3, f4, a, 4 + j, 4);
  }
}
