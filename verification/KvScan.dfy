/** Finding the records of a sector again: by their magic word, in windows of 32 bytes. Addresses are
    relative to the sector. */
module KvScans {
  import opened FlashBytes
  import opened KvStore
  import opened KvCollect
  import opened StatusTable
  import opened KvWalks
  import opened RecordBytes
  import opened Wrappers

  // ---- The search for a magic word ----

  ghost predicate MagicAt(f: Bytes, p: nat) { Slice(f, p, 4) == MAGIC }

  /** The first address from `start` on with a magic word in its place; the last 32 bytes before `end` are
      not searched. If `start` is known to be where erased flash begins, there is nothing to search. */
  method FindNext(flash: array<byte>, start: nat, end: nat, knownEmpty: Option<nat>) returns (r: Option<nat>)
    ensures knownEmpty == Some(start) ==> r == None
    ensures r.Some? ==> start <= r.value && r.value + 9 < end && MagicAt(flash[..], r.value + 4)
    ensures r.Some? ==> forall p :: start + 4 <= p < r.value + 4 ==> !MagicAt(flash[..], p)
    ensures r.None? && knownEmpty != Some(start) ==>
              forall p :: start + 4 <= p && p + 32 < end ==> !MagicAt(flash[..], p)
  {
    hide Slice;
    if knownEmpty == Some(start) {
      return None;
    }
    var at := start;
    while at < end && at + 32 < end
      invariant at >= start
      invariant forall p :: start + 4 <= p < at ==> !MagicAt(flash[..], p)
      decreases end - at
    {
      var buf := Slice(flash[..], at, 32);
      var i := 0;
      while i < 28 && at + i < end
        invariant 0 <= i <= 28
        invariant forall p :: start + 4 <= p < at + i ==> !MagicAt(flash[..], p)
      {
        WindowOfSlice(flash[..], at, i);
        if buf[i..i + 4] == MAGIC && at + i >= start + 4 {
          return Some(at + i - 4);
        }
        i := i + 1;
      }
      at := at + 28;
    }
    return None;
  }

  lemma WindowOfSlice(f: Bytes, at: nat, i: nat)
    requires i + 4 <= 32
    ensures Slice(f, at, 32)[i..i + 4] == Slice(f, at + i, 4)
  {
  }

  /** The address from which on everything up to `end` is erased. */
  method ContinueFf(flash: array<byte>, start: nat, end: nat) returns (r: nat)
    requires start <= end <= flash.Length
    ensures start <= r <= end && ErasedFrom(flash[..], r, end - r)
    ensures r > start ==> flash[r - 1] != BYTE_ERASED
  {
    var at: nat, addr: nat, last: byte := start, start, 0x00;
    while at < end
      invariant start <= at && (at > end > start ==> last == flash[end - 1])
      invariant at > end ==> end > start
      invariant start < at <= end ==> last == flash[at - 1]
      invariant at == start ==> last == 0x00
      invariant TrailingRun(flash[..], start, if at < end then at else end, addr)
      decreases end - at
    {
      var size := if at + 32 < end then 32 else end - at;
      for i := 0 to size
        invariant (if at + i == start then last == 0x00 else last == flash[at + i - 1])
        invariant TrailingRun(flash[..], start, at + i, addr)
      {
        if last != BYTE_ERASED && flash[at + i] == BYTE_ERASED {
          addr := at + i;
        }
        last := flash[at + i];
      }
      at := at + 32;
    }
    return if last == BYTE_ERASED then addr else end;
  }

  /** If the byte before `to` is erased, `addr` is where the run of erased bytes before `to` begins. */
  ghost predicate TrailingRun(f: Bytes, start: nat, to: nat, addr: nat) {
    && start <= to <= |f|
    && (to > start && f[to - 1] == BYTE_ERASED ==>
          && start <= addr < to && ErasedFrom(f, addr, to - addr)
          && (addr > start ==> f[addr - 1] != BYTE_ERASED))
  }

  // ---- Sectors that hold records ----

  /** A database has two sectors at least, and its size is a number of 32 bits. */
  const SECTOR_LIMIT: nat := 0x8000_0000

  /** Where the `k`-th record begins: the records before it lie between it and the sector's header. */
  function Start(recs: seq<Record>, k: nat): nat
    requires k <= |recs|
  {
    SECTOR_HDR_SIZE + UsedBytes(recs[..k])
  }

  /** No length of a header is as large as this. */
  const LEN_LIMIT: nat := 0xFF00_0000

  /** A record whose write was cut short behind its length; or before that, and it is marked then, which takes a
      complete magic word for any but the first record of a sector. As long as no other magic word lies among its
      bytes it is passed over as a whole. */
  ghost predicate LiesBroken(f: Bytes, a: nat, r: Record, first: bool) {
    var len := FlashNumbers.NatOf(Slice(f, a + 8, 4));
    && (r.status == PreWrite || r.status == ErrHdr)
    && Slice(f, a + 1, 3) == [BYTE_ERASED, BYTE_ERASED, BYTE_ERASED] && (first || Slice(f, a + 4, 4) == MAGIC)
    && (if KV_HDR_SIZE <= len < LEN_LIMIT then
          len == r.Len() && Crc32.Crc(0, Slice(f, a + 16, len - 16)) != WordOf(Slice(f, a + 12, 4))
        else
          r.status == ErrHdr && r.Len() == KV_HDR_SIZE)
    && forall p :: a + 5 <= p && p + 4 <= a + r.Len() ==> !MagicAt(f, p)
  }

  /** Record `k` lies intact in its place, or broken; or it is stray bytes, and they do. */
  ghost predicate HoldsOne(f: Bytes, recs: seq<Record>, k: nat)
    requires k < |recs|
  {
    var a, r := Start(recs, k), recs[k];
    && a < |f| && LowBitsErased(f[a])
    && if r.Stray() then
         (exists header: nat | header < 4 :: r == StrayRecord(header)) && Slice(f, a, |r.name|) == r.name
       else
         && |r.name| <= NAME_MAX && Encodes([f[a]], KV_STATUS_NUM, StatusIndex(r.status))
         && if r.crcOk then LiesAt(f, a, r.name, r.value) else LiesBroken(f, a, r, k == 0)
  }

  /** The records, and stray bytes between them, fill the sector from its header on, without gap or overlap;
      what is behind them is erased. */
  ghost predicate Holds(f: Bytes, recs: seq<Record>) {
    && (forall k :: 0 <= k < |recs| ==> HoldsOne(f, recs, k))
    && Start(recs, |recs|) <= |f| < SECTOR_LIMIT
    && ErasedFrom(f, Start(recs, |recs|), |f| - Start(recs, |recs|))
  }

  /** More than the threshold is free. */
  ghost predicate Spacious(f: Bytes, recs: seq<Record>) { Start(recs, |recs|) + REMAIN_THRESHOLD < |f| }

  lemma StartNext(recs: seq<Record>, k: nat)
    requires k < |recs|
    ensures Start(recs, k + 1) == Start(recs, k) + recs[k].Len()
  {
    assert recs[..k + 1][..k] == recs[..k];
  }

  lemma {:induction false} StartsInOrder(recs: seq<Record>, k: nat, l: nat)
    requires k <= l <= |recs|
    ensures Start(recs, k) <= Start(recs, l)
    decreases l - k
  {
    if k < l {
      StartNext(recs, k);
      StartsInOrder(recs, k + 1, l);
    }
  }

  // ---- No magic word but those of records ----

  lemma NoMagicAtByte(f: Bytes, p: nat)
    requires p < |f| ==> f[p] != MAGIC[0]
    ensures !MagicAt(f, p)
  {
    assert Slice(f, p, 4)[0] == if p < |f| then f[p] else BYTE_ERASED;
  }

  /** A status byte is neither the second nor the third byte of the magic word, nor the first. */
  lemma StatusIsNoMagic(b: byte)
    requires LowBitsErased(b)
    ensures b != 0x4B && b != 0x56 && b != 0x30
  {
  }

  /** Stray bytes with part of a magic word do not become one by what follows them. */
  lemma NoMagicInStray(f: Bytes, a: nat, header: nat, p: nat)
    requires header < 4 && Slice(f, a, |StrayBytes(header)|) == StrayBytes(header)
    requires a + |StrayBytes(header)| < |f| ==> LowBitsErased(f[a + |StrayBytes(header)|])
    requires a + |StrayBytes(header)| <= |f| && a <= p < a + |StrayBytes(header)|
    ensures !MagicAt(f, p)
  {
    var s, n := StrayBytes(header), |StrayBytes(header)|;
    assert f[p] == Slice(f, a, n)[p - a] == s[p - a];
    if s[p - a] != MAGIC[0] {
      NoMagicAtByte(f, p);
    } else {
      assert header > 0 && p == a + 4 && n == 4 + header;
      var next := Slice(f, p, 4)[header];
      assert next == if a + n < |f| then f[a + n] else BYTE_ERASED;
      StatusIsNoMagic(next);
      assert MAGIC[header] == 0x56 || MAGIC[header] == 0x30;
    }
  }

  lemma NoMagicBehind(f: Bytes, a: nat, p: nat)
    requires a <= p && a <= |f| && ErasedFrom(f, a, |f| - a)
    ensures !MagicAt(f, p)
  {
    NoMagicAtByte(f, p);
  }

  lemma FirstByte(f: Bytes, recs: seq<Record>, k: nat)
    requires Holds(f, recs) && k <= |recs|
    ensures Start(recs, k) <= |f|
    ensures Start(recs, k) < |f| ==> LowBitsErased(f[Start(recs, k)])
  {
    hide UsedBytes;
    StartsInOrder(recs, k, |recs|);
    if k < |recs| {
      assert HoldsOne(f, recs, k);
    } else if Start(recs, k) < |f| {
      assert f[Start(recs, k)] == BYTE_ERASED;
    }
  }

  lemma MagicOfRecord(f: Bytes, recs: seq<Record>, k: nat)
    requires k < |recs| && HoldsOne(f, recs, k) && !recs[k].Stray() && k > 0
    ensures MagicAt(f, Start(recs, k) + 4)
    ensures forall p :: Start(recs, k) <= p < Start(recs, k) + 4 ==> !MagicAt(f, p)
  {
    hide Encodes, UsedBytes, Slice, LowBitsErased;
    var a := Start(recs, k);
    forall p | a <= p < a + 4 ensures !MagicAt(f, p) {
      NoMagicInStatus(f, a, p);
    }
  }

  lemma NoMagicInStatus(f: Bytes, a: nat, p: nat)
    requires a < |f| && LowBitsErased(f[a]) && Slice(f, a + 1, 3) == [BYTE_ERASED, BYTE_ERASED, BYTE_ERASED]
    requires a <= p < a + 4
    ensures !MagicAt(f, p)
  {
    StatusIsNoMagic(f[a]);
    assert p > a ==> (if p < |f| then f[p] else BYTE_ERASED) == Slice(f, a + 1, 3)[p - a - 1];
    NoMagicAtByte(f, p);
  }

  /** Nor is there one behind that of a broken record. */
  lemma NoMagicInBroken(f: Bytes, a: nat, r: Record, first: bool, p: nat)
    requires LiesBroken(f, a, r, first) && !r.Stray() && a + r.Len() <= |f|
    requires a + r.Len() < |f| ==> LowBitsErased(f[a + r.Len()])
    requires a + 5 <= p < a + r.Len()
    ensures !MagicAt(f, p)
  {
    hide FlashNumbers.NatOf, Crc32.Crc, WordOf, LowBitsErased;
    if p + 4 > a + r.Len() {
      NoMagicAcross(f, p, a + r.Len());
    }
  }

  /** Nor one that reaches over the end of a record. */
  lemma NoMagicAcross(f: Bytes, p: nat, end: nat)
    requires p < end < p + 4 && end <= |f| && (end < |f| ==> LowBitsErased(f[end]))
    ensures !MagicAt(f, p)
  {
    var next := Slice(f, p, 4)[end - p];
    assert next == if end < |f| then f[end] else BYTE_ERASED;
    StatusIsNoMagic(next);
    assert MAGIC[1] == 0x56 && MAGIC[2] == MAGIC[3] == 0x30;
  }

  lemma BrokenHolds(f: Bytes, recs: seq<Record>, k: nat, p: nat)
    requires Holds(f, recs) && k < |recs| && !recs[k].Stray() && !recs[k].crcOk
    requires Start(recs, k) + 5 <= p < Start(recs, k + 1)
    ensures !MagicAt(f, p)
  {
    hide UsedBytes, MagicAt, LiesBroken, Encodes, Slice, LowBitsErased;
    assert HoldsOne(f, recs, k);
    StartNext(recs, k);
    FirstByte(f, recs, k + 1);
    NoMagicInBroken(f, Start(recs, k), recs[k], k == 0, p);
  }

  /** The first record from the `k`-th on that is no stray bytes. */
  function NextReal(recs: seq<Record>, k: nat): (n: nat)
    requires k <= |recs|
    ensures k <= n <= |recs| && (n < |recs| ==> !recs[n].Stray())
    ensures forall l :: k <= l < n ==> recs[l].Stray()
    decreases |recs| - k
  {
    if k == |recs| || !recs[k].Stray() then k else NextReal(recs, k + 1)
  }

  lemma {:induction false} NoMagicBefore(f: Bytes, recs: seq<Record>, k: nat, p: nat)
    requires Holds(f, recs) && 0 < k <= |recs| && Start(recs, k) <= p
    requires NextReal(recs, k) < |recs| ==> p < Start(recs, NextReal(recs, k)) + 4
    ensures !MagicAt(f, p)
    decreases |recs| - k
  {
    hide UsedBytes, HoldsOne, MagicAt, Slice;
    if k == |recs| {
      NoMagicBehind(f, Start(recs, k), p);
    } else if !recs[k].Stray() {
      MagicOfRecord(f, recs, k);
    } else {
      StartNext(recs, k);
      if p < Start(recs, k + 1) {
        FirstByte(f, recs, k + 1);
        StrayHolds(f, recs, k, p);
      } else {
        NoMagicBefore(f, recs, k + 1, p);
      }
    }
  }

  lemma StrayHolds(f: Bytes, recs: seq<Record>, k: nat, p: nat)
    requires k < |recs| && recs[k].Stray() && HoldsOne(f, recs, k)
    requires Start(recs, k + 1) == Start(recs, k) + recs[k].Len() && Start(recs, k) <= p < Start(recs, k + 1) <= |f|
    requires Start(recs, k + 1) < |f| ==> LowBitsErased(f[Start(recs, k + 1)])
    ensures !MagicAt(f, p)
  {
    hide UsedBytes, MagicAt;
    var header: nat :| header < 4 && recs[k] == StrayRecord(header);
    NoMagicInStray(f, Start(recs, k), header, p);
  }

  /** Where the search for the next record begins: behind an intact record, and one byte into a broken one. */
  function SearchFrom(recs: seq<Record>, k: nat): nat
    requires k < |recs|
  {
    if recs[k].crcOk then Start(recs, k) + recs[k].Len() else Start(recs, k) + 1
  }

  lemma NoMagicBetween(f: Bytes, recs: seq<Record>, k: nat, p: nat)
    requires Holds(f, recs) && k < |recs| && !recs[k].Stray() && SearchFrom(recs, k) + 4 <= p
    requires NextReal(recs, k + 1) < |recs| ==> p < Start(recs, NextReal(recs, k + 1)) + 4
    ensures !MagicAt(f, p)
  {
    hide UsedBytes, HoldsOne, MagicAt, Holds;
    StartNext(recs, k);
    if p < Start(recs, k + 1) {
      BrokenHolds(f, recs, k, p);
    } else {
      NoMagicBefore(f, recs, k + 1, p);
    }
  }

  /** The search behind a record finds the next record, and none behind the last. */
  lemma NextFound(f: Bytes, recs: seq<Record>, k: nat, known: Option<nat>, r: Option<nat>)
    requires Holds(f, recs) && Spacious(f, recs) && k < |recs| && !recs[k].Stray()
    requires known.Some? ==> known.value == Start(recs, |recs|)
    requires known == Some(SearchFrom(recs, k)) ==> r == None
    requires r.Some? ==> SearchFrom(recs, k) <= r.value && MagicAt(f, r.value + 4)
    requires r.Some? ==> forall p :: SearchFrom(recs, k) + 4 <= p < r.value + 4 ==> !MagicAt(f, p)
    requires r.None? && known != Some(SearchFrom(recs, k)) ==>
               forall p :: SearchFrom(recs, k) + 4 <= p && p + 32 < |f| - SECTOR_HDR_SIZE ==> !MagicAt(f, p)
    ensures var n := NextReal(recs, k + 1); r == if n < |recs| then Some(Start(recs, n)) else None
  {
    hide UsedBytes, HoldsOne, MagicAt;
    var n := NextReal(recs, k + 1);
    StartNext(recs, k);
    StartsInOrder(recs, k + 1, n);
    if n < |recs| {
      StartNext(recs, n);
      StartsInOrder(recs, n + 1, |recs|);
      assert HoldsOne(f, recs, n);
      MagicOfRecord(f, recs, n);
      if r.Some? && r.value < Start(recs, n) {
        NoMagicBetween(f, recs, k, r.value + 4);
      }
    } else if r.Some? {
      NoMagicBetween(f, recs, k, r.value + 4);
    }
  }

  // ---- Walking a sector ----

  /** What is read agrees with the record. */
  ghost predicate ReadAs(f: Bytes, kv: KvObject, r: Record) {
    && kv.status == r.status && kv.len == r.Len() && kv.crcOk == r.crcOk
    && (r.crcOk ==>
          && kv.nameLen == |r.name|
          && kv.name == (if |r.name| < NAME_MAX then r.name else r.name[..NAME_MAX - 1])
          && kv.valueLen == |r.value| && Slice(f, kv.valueAddr, kv.valueLen) == r.value)
  }

  lemma RecordFits(f: Bytes, recs: seq<Record>, k: nat)
    requires Holds(f, recs) && k < |recs|
    ensures recs[k].Len() <= |f| && Start(recs, k) + recs[k].Len() <= |f|
  {
    hide HoldsOne, UsedBytes;
    StartNext(recs, k);
    StartsInOrder(recs, k + 1, |recs|);
  }

  lemma StatusIsRead(b: byte, s: KvStatus, status: nat)
    requires status < KV_STATUS_NUM && Encodes([b], KV_STATUS_NUM, status)
    requires Encodes([b], KV_STATUS_NUM, StatusIndex(s))
    ensures StatusOf(status) == s
  {
    EncodingUnique([b], KV_STATUS_NUM, status, StatusIndex(s));
  }

  /** Read the `k`-th record. */
  method ReadHeld(medium: Medium, flash: array<byte>, maxSize: nat, ghost recs: seq<Record>, ghost k: nat, a: nat)
    returns (kv: KvObject)
    requires Holds(flash[..], recs) && k < |recs| && !recs[k].Stray() && a == Start(recs, k) && maxSize >= flash.Length
    requires recs[k].crcOk || maxSize < LEN_LIMIT
    modifies flash
    ensures flash[..] == old(flash[..]) && ReadAs(flash[..], kv, recs[k])
  {
    hide Reads, LiesAt, LiesBroken, Encodes, UsedBytes, Slice, LenPlausible;
    assert HoldsOne(flash[..], recs, k);
    RecordFits(flash[..], recs, k);
    ghost var f := flash[..];
    if recs[k].crcOk {
      LenIsPlausible(f, a, maxSize, recs[k]);
    } else {
      BrokenLen(f, a, maxSize, recs[k], k == 0);
    }
    kv := ReadKv(medium, flash, a, maxSize);
    ghost var status: nat :| status < KV_STATUS_NUM && Encodes([f[a]], KV_STATUS_NUM, status)
                             && Reads(f, a, maxSize, status, kv);
    StatusIsRead(f[a], recs[k].status, status);
    if recs[k].crcOk {
      ReadsBack(f, a, maxSize, status, kv, recs[k].name, recs[k].value);
    } else {
      ReadsBroken(f, a, maxSize, status, kv, recs[k], k == 0);
    }
  }

  lemma BrokenLen(f: Bytes, a: nat, maxSize: nat, r: Record, first: bool)
    requires LiesBroken(f, a, r, first) && r.Len() <= maxSize < LEN_LIMIT
    ensures LenPlausible(FlashNumbers.NatOf(Slice(f, a + 8, 4)), maxSize) || r.status == ErrHdr
  {
    hide FlashNumbers.NatOf, Crc32.Crc, WordOf;
  }

  lemma ReadsBroken(f: Bytes, a: nat, maxSize: nat, status: nat, kv: KvObject, r: Record, first: bool)
    requires LiesBroken(f, a, r, first) && r.Len() <= maxSize < LEN_LIMIT && !r.crcOk
    requires status < KV_STATUS_NUM && StatusOf(status) == r.status && Reads(f, a, maxSize, status, kv)
    ensures ReadAs(f, kv, r)
  {
    hide FlashNumbers.NatOf, Crc32.Crc, WordOf;
  }

  lemma LenIsPlausible(f: Bytes, a: nat, maxSize: nat, r: Record)
    requires LiesAt(f, a, r.name, r.value) && !r.Stray() && r.Len() <= maxSize && r.Len() < LEN_UNSET
    ensures LenPlausible(FlashNumbers.NatOf(Slice(f, a + 8, 4)), maxSize)
  {
    hide FlashNumbers.NatOf, FlashNumbers.NatBytes;
    FlashNumbers.NatRoundTrip(r.Len());
  }

  /** The records without the stray bytes between them. */
  function Reals(recs: seq<Record>): (s: seq<Record>)
    ensures |s| <= |recs|
  {
    if recs == [] then []
    else Reals(recs[..|recs| - 1]) + (if recs[|recs| - 1].Stray() then [] else [recs[|recs| - 1]])
  }

  lemma RealsNext(recs: seq<Record>, k: nat)
    requires k < |recs|
    ensures Reals(recs[..k + 1]) == Reals(recs[..k]) + (if recs[k].Stray() then [] else [recs[k]])
    ensures StrayTotal(recs[..k + 1]) == StrayTotal(recs[..k]) + (if recs[k].Stray() then |recs[k].name| else 0)
  {
    assert recs[..k + 1][..k] == recs[..k];
  }

  /** Between a record and the next one there are only stray bytes. */
  lemma {:induction false} SkipStrays(recs: seq<Record>, k: nat)
    requires k <= |recs|
    ensures var n := NextReal(recs, k);
            && Reals(recs[..n]) == Reals(recs[..k])
            && Start(recs, n) - StrayTotal(recs[..n]) == Start(recs, k) - StrayTotal(recs[..k])
    decreases |recs| - k
  {
    hide UsedBytes;
    if k < |recs| && recs[k].Stray() {
      RealsNext(recs, k);
      StartNext(recs, k);
      SkipStrays(recs, k + 1);
    }
  }

  ghost predicate AllReadAs(f: Bytes, kvs: seq<KvObject>, recs: seq<Record>) {
    |kvs| == |recs| && forall k :: 0 <= k < |recs| ==> ReadAs(f, kvs[k], recs[k])
  }

  /** Walk the records of a sector in use, as is done to learn its free space and to visit its records: every
      record is read, once and in order, and no record is missed. The address it ends at is where the records
      end, unless there are stray bytes among them and the last record ends in erased bytes. */
  method WalkSector(medium: Medium, flash: array<byte>, maxSize: nat, ghost recs: seq<Record>)
    returns (kvs: seq<KvObject>, empty: nat, remain: int)
    requires Holds(flash[..], recs) && Spacious(flash[..], recs) && maxSize >= flash.Length
    requires recs != [] && !recs[0].Stray()
    requires (forall k :: 0 <= k < |recs| ==> recs[k].Stray() || recs[k].crcOk) || maxSize < LEN_LIMIT
    requires recs[|recs| - 1].Stray() || recs[|recs| - 1].crcOk || StrayTotal(recs) == 0
    modifies flash
    ensures flash[..] == old(flash[..]) && AllReadAs(flash[..], kvs, Reals(recs))
    ensures empty == Start(recs, |recs|) - WalkShort(recs) && remain == flash.Length - empty
  {
    hide HoldsOne, ReadAs, MagicAt, ErasedFrom, UsedBytes, WalkShort, StrayTotal, Reals;
    kvs, empty, remain := [], SECTOR_HDR_SIZE, flash.Length - SECTOR_HDR_SIZE;
    var a := SECTOR_HDR_SIZE;
    ghost var k: nat := 0;
    WalkBegins(recs);
    while true
      invariant flash[..] == old(flash[..]) && k < |recs| && !recs[k].Stray() && a == Start(recs, k)
      invariant empty == Start(recs, k) - StrayTotal(recs[..k]) && remain == flash.Length - empty
      invariant AllReadAs(flash[..], kvs, Reals(recs[..k]))
      decreases |recs| - k
    {
      var kv := ReadHeld(medium, flash, maxSize, recs, k, a);
      LenRead(flash[..], kv, recs[k]);
      StartNext(recs, k);
      RealsNext(recs, k);
      empty, remain := empty + kv.len, remain - kv.len;
      var next := FindNext(flash, if kv.crcOk then a + kv.len else a + 1, flash.Length - SECTOR_HDR_SIZE, None);
      NextFound(flash[..], recs, k, None, next);
      SkipStrays(recs, k + 1);
      kvs := kvs + [kv];
      k := NextReal(recs, k + 1);
      if next.None? || next.value > flash.Length || kv.len == 0 {
        break;
      }
      a := next.value;
    }
    assert recs[..|recs|] == recs;
    var ff := ContinueFf(flash, empty, flash.Length);
    ghost var walked := empty;
    if empty != ff {
      empty := ff;
      remain := flash.Length - ff;
    }
    WalkEnds(flash[..], recs, walked, ff);
  }

  lemma WalkBegins(recs: seq<Record>)
    requires recs != []
    ensures Start(recs, 0) == SECTOR_HDR_SIZE && StrayTotal(recs[..0]) == 0 && Reals(recs[..0]) == []
  {
  }

  lemma LenRead(f: Bytes, kv: KvObject, r: Record)
    requires ReadAs(f, kv, r) && !r.Stray()
    ensures kv.crcOk == r.crcOk && kv.len == r.Len() >= KV_HDR_SIZE
  {
  }

  /** The highest byte of the value's length lies before name and value, and is not erased. */
  lemma LengthNotErased(f: Bytes, a: nat, name: Bytes, value: Bytes)
    requires LiesAt(f, a, name, value) && a + 24 <= |f| && |value| < SECTOR_LIMIT
    ensures f[a + 23] != BYTE_ERASED
  {
    hide FlashNumbers.ByteOf, FlashNumbers.Value;
    assert f[a + 23] == Slice(f, a + 20, 4)[3] == FlashNumbers.ByteOf(|value| / 0x100_0000);
    FlashNumbers.ByteRoundTrip(|value| / 0x100_0000);
    ErasedIsHighest();
  }

  lemma ErasedIsHighest()
    ensures FlashNumbers.Value(BYTE_ERASED) == 255
  {
  }

  /** The bytes of a record's name and value are those behind its header. */
  lemma DataOfRecord(f: Bytes, a: nat, name: Bytes, value: Bytes, j: nat)
    requires LiesAt(f, a, name, value) && a + RecordSize(name, value) <= |f| && j < |name| + |value|
    ensures f[a + 24 + j] == (name + value)[j]
  {
    hide NameLenField, FlashNumbers.NatBytes, WordBytes, Payload;
    assert j < |name| ==> f[a + 24 + j] == Slice(f, a + 24, |name|)[j];
    assert j >= |name| ==> f[a + 24 + j] == Slice(f, a + 24 + |name|, |value|)[j - |name|];
  }

  /** The last record, where it lies. */
  lemma LastRecord(f: Bytes, recs: seq<Record>)
    requires Holds(f, recs) && recs != [] && !recs[|recs| - 1].Stray() && recs[|recs| - 1].crcOk
    ensures var k := |recs| - 1;
            && LiesAt(f, Start(recs, k), recs[k].name, recs[k].value)
            && Start(recs, |recs|) == Start(recs, k) + RecordSize(recs[k].name, recs[k].value)
            && Start(recs, |recs|) <= |f| < SECTOR_LIMIT
  {
    hide UsedBytes, Encodes, LiesAt, ErasedFrom;
    assert HoldsOne(f, recs, |recs| - 1);
    StartNext(recs, |recs| - 1);
  }

  /** The bytes at the end of a record are those of its name and value, and before them is a byte that is not
      erased. */
  lemma EndOfRecord(f: Bytes, recs: seq<Record>, j: nat)
    requires Holds(f, recs) && recs != [] && !recs[|recs| - 1].Stray() && recs[|recs| - 1].crcOk
    requires var r := recs[|recs| - 1]; j <= |r.name| + |r.value|
    ensures var r, end := recs[|recs| - 1], Start(recs, |recs|);
            && |r.name| + |r.value| + 24 <= end <= |f|
            && (j > 0 ==> f[end - j] == (r.name + r.value)[|r.name| + |r.value| - j])
            && f[end - |r.name| - |r.value| - 1] != BYTE_ERASED
  {
    hide UsedBytes, HoldsOne, LiesAt, ErasedFrom;
    var r := recs[|recs| - 1];
    var a := Start(recs, |recs| - 1);
    LastRecord(f, recs);
    LengthNotErased(f, a, r.name, r.value);
    if j > 0 {
      DataOfRecord(f, a, r.name, r.value, |r.name| + |r.value| - j);
    }
  }

  lemma EndOfStray(f: Bytes, recs: seq<Record>)
    requires Holds(f, recs) && recs != [] && recs[|recs| - 1].Stray()
    ensures 0 < Start(recs, |recs|) <= |f| && f[Start(recs, |recs|) - 1] != BYTE_ERASED
  {
    hide UsedBytes;
    var k := |recs| - 1;
    assert HoldsOne(f, recs, k);
    StartNext(recs, k);
    var header: nat :| header < 4 && recs[k] == StrayRecord(header);
    var s := StrayBytes(header);
    assert f[Start(recs, k) + |s| - 1] == Slice(f, Start(recs, k), |s|)[|s| - 1];
  }

  lemma {:induction false} StrayBound(recs: seq<Record>)
    ensures StrayTotal(recs) <= UsedBytes(recs)
  {
    if recs != [] {
      StrayBound(recs[..|recs| - 1]);
    }
  }

  /** The run of erased bytes at the end begins at `t`, if it is searched from no later address on. */
  lemma RunIsFrom(f: Bytes, walked: nat, r: nat, t: nat)
    requires walked <= r <= |f| && ErasedFrom(f, r, |f| - r) && (r > walked ==> f[r - 1] != BYTE_ERASED)
    requires t <= |f| && ErasedFrom(f, t, |f| - t) && (t > 0 ==> f[t - 1] != BYTE_ERASED)
    ensures r == if walked <= t then t else walked
  {
    var byR, byT := r > walked && f[r - 1] == BYTE_ERASED, t > 0 && f[t - 1] == BYTE_ERASED;
    assert r < t ==> byT;
    assert t < r && walked < r ==> byR;
  }

  lemma TailBegins(f: Bytes, recs: seq<Record>)
    requires Holds(f, recs) && recs != [] && !recs[|recs| - 1].Stray() && recs[|recs| - 1].crcOk
    ensures var t := Start(recs, |recs|) - TrailingErased(recs[|recs| - 1].name + recs[|recs| - 1].value);
            0 < t <= Start(recs, |recs|) <= |f| && f[t - 1] != BYTE_ERASED
  {
    hide UsedBytes, HoldsOne, Holds;
    var data := recs[|recs| - 1].name + recs[|recs| - 1].value;
    var n := TrailingErased(data);
    EndOfRecord(f, recs, if n < |data| then n + 1 else n);
  }

  /** Behind the last record only as many bytes are erased as it ends in. */
  lemma ErasedTail(f: Bytes, recs: seq<Record>)
    requires Holds(f, recs) && recs != [] && !recs[|recs| - 1].Stray() && recs[|recs| - 1].crcOk
    ensures var t := Start(recs, |recs|) - TrailingErased(recs[|recs| - 1].name + recs[|recs| - 1].value);
            0 < t <= |f| && ErasedFrom(f, t, |f| - t) && f[t - 1] != BYTE_ERASED
  {
    hide UsedBytes, HoldsOne, Holds, TrailingErased;
    TailBegins(f, recs);
    var t := Start(recs, |recs|) - TrailingErased(recs[|recs| - 1].name + recs[|recs| - 1].value);
    forall p | t <= p < |f| ensures f[p] == BYTE_ERASED {
      TailByte(f, recs, p);
    }
  }

  lemma TailByte(f: Bytes, recs: seq<Record>, p: nat)
    requires Holds(f, recs) && recs != [] && !recs[|recs| - 1].Stray() && recs[|recs| - 1].crcOk
    requires p < |f|
    requires p >= Start(recs, |recs|) - TrailingErased(recs[|recs| - 1].name + recs[|recs| - 1].value)
    ensures f[p] == BYTE_ERASED
  {
    hide UsedBytes, HoldsOne;
    var data, end := recs[|recs| - 1].name + recs[|recs| - 1].value, Start(recs, |recs|);
    if p < end {
      EndOfRecord(f, recs, end - p);
      assert data[|data| - (end - p)] == 0xFF;
    }
  }

  lemma NothingFollows(f: Bytes, walked: nat, r: nat)
    requires walked <= r <= |f| && ErasedFrom(f, walked, |f| - walked) && (r > walked ==> f[r - 1] != BYTE_ERASED)
    ensures r == walked
  {
  }

  /** Where the run of erased bytes behind the sum of the lengths begins. */
  lemma WalkEnds(f: Bytes, recs: seq<Record>, walked: nat, r: nat)
    requires Holds(f, recs) && recs != [] && walked == Start(recs, |recs|) - StrayTotal(recs)
    requires walked <= r <= |f| && ErasedFrom(f, r, |f| - r)
    requires r > walked ==> f[r - 1] != BYTE_ERASED
    requires recs[|recs| - 1].Stray() || recs[|recs| - 1].crcOk || StrayTotal(recs) == 0
    ensures r == Start(recs, |recs|) - WalkShort(recs)
  {
    hide UsedBytes, HoldsOne, StrayTotal, TrailingErased, ErasedFrom;
    if recs[|recs| - 1].Stray() {
      EndOfStray(f, recs);
      RunIsFrom(f, walked, r, Start(recs, |recs|));
    } else if !recs[|recs| - 1].crcOk {
      NothingFollows(f, walked, r);
    } else {
      ErasedTail(f, recs);
      RunIsFrom(f, walked, r, Start(recs, |recs|) - TrailingErased(recs[|recs| - 1].name + recs[|recs| - 1].value));
    }
  }

  // ---- What writes do to a sector that holds records ----

  lemma StartOfPrefix(recs: seq<Record>, r: Record, k: nat)
    requires k <= |recs|
    ensures Start(recs + [r], k) == Start(recs, k)
  {
    assert (recs + [r])[..k] == recs[..k];
  }

  lemma LiesUnchanged(f: Bytes, f': Bytes, a: nat, name: Bytes, value: Bytes)
    requires |f'| == |f| && a + RecordSize(name, value) <= |f|
    requires forall p :: a <= p < a + RecordSize(name, value) ==> f'[p] == f[p]
    requires LiesAt(f, a, name, value)
    ensures LiesAt(f', a, name, value)
  {
    hide Payload, NameLenField, FlashNumbers.NatBytes, WordBytes, Crc32.Crc;
    var n := RecordSize(name, value);
    SliceUnchanged(f, f', a, n, 1, 3);
    SliceUnchanged(f, f', a, n, 4, 4);
    SliceUnchanged(f, f', a, n, 8, 4);
    SliceUnchanged(f, f', a, n, 12, 4);
    SliceUnchanged(f, f', a, n, 16, 4);
    SliceUnchanged(f, f', a, n, 20, 4);
    SliceUnchanged(f, f', a, n, 24, |name|);
    SliceUnchanged(f, f', a, n, 24 + |name|, |value|);
  }

  lemma BrokenUnchanged(f: Bytes, f': Bytes, a: nat, r: Record, first: bool)
    requires LiesBroken(f, a, r, first) && !r.Stray() && |f'| == |f| && a + r.Len() <= |f|
    requires forall p :: a < p < a + r.Len() ==> f'[p] == f[p]
    ensures LiesBroken(f', a, r, first)
  {
    hide FlashNumbers.NatOf, WordOf, Crc32.Crc;
    var n := r.Len();
    SliceSame(f, f', a, n, 1, 3);
    SliceSame(f, f', a, n, 4, 4);
    SliceSame(f, f', a, n, 8, 4);
    SliceSame(f, f', a, n, 12, 4);
    SliceSame(f, f', a, n, 16, n - 16);
    forall p | a + 5 <= p && p + 4 <= a + n ensures !MagicAt(f', p) {
      assert !MagicAt(f, p);
      SliceSame(f, f', a, n, p - a, 4);
    }
  }

  lemma SliceSame(f: Bytes, f': Bytes, a: nat, n: nat, j: nat, m: nat)
    requires |f'| == |f| && a + n <= |f| && 1 <= j && j + m <= n
    requires forall p :: a < p < a + n ==> f'[p] == f[p]
    ensures Slice(f', a + j, m) == Slice(f, a + j, m)
  {
  }

  /** A record whose bytes have not changed is still held, in any sequence that has it in the same place. */
  lemma SameWhereUnchanged(f: Bytes, f': Bytes, recs: seq<Record>, recs': seq<Record>, k: nat)
    requires k < |recs| && k < |recs'| && recs'[k] == recs[k] && Start(recs', k) == Start(recs, k)
    requires HoldsOne(f, recs, k) && |f'| == |f| && Start(recs, k) + recs[k].Len() <= |f|
    requires forall p :: Start(recs, k) <= p < Start(recs, k) + recs[k].Len() ==> f'[p] == f[p]
    ensures HoldsOne(f', recs', k)
  {
    hide UsedBytes, LiesAt, LiesBroken, Encodes, LowBitsErased, Slice;
    var a, r := Start(recs, k), recs[k];
    if r.Stray() {
      SliceUnchanged(f, f', a, r.Len(), 0, |r.name|);
    } else if r.crcOk {
      LiesUnchanged(f, f', a, r.name, r.value);
    } else {
      BrokenUnchanged(f, f', a, r, k == 0);
    }
  }

  /** Writing a record behind the others extends the sector by exactly that record. */
  lemma WrittenExtends(f: Bytes, f': Bytes, recs: seq<Record>, name: Bytes, value: Bytes)
    requires Holds(f, recs) && |name| <= NAME_MAX
    requires RecordWritten(f, f', Start(recs, |recs|), name, value)
    ensures Holds(f', recs + [Record(Written, true, name, value)])
  {
    hide UsedBytes, LiesAt, Encodes, HoldsOne, LowBitsErased;
    var r := Record(Written, true, name, value);
    var recs' := recs + [r];
    StartOfPrefix(recs, r, |recs|);
    StartNext(recs', |recs|);
    forall k | 0 <= k < |recs'| ensures HoldsOne(f', recs', k) {
      StartOfPrefix(recs, r, k);
      if k < |recs| {
        RecordFits(f, recs, k);
        StartNext(recs, k);
        StartsInOrder(recs, k + 1, |recs|);
        SameWhereUnchanged(f, f', recs, recs', k);
      } else {
        HeldAsWritten(f, f', recs', k);
      }
    }
  }

  lemma HeldAsWritten(f: Bytes, f': Bytes, recs: seq<Record>, k: nat)
    requires k < |recs| && recs[k].crcOk && recs[k].status == Written && |recs[k].name| <= NAME_MAX
    requires RecordWritten(f, f', Start(recs, k), recs[k].name, recs[k].value)
    ensures HoldsOne(f', recs, k)
  {
    hide UsedBytes, LiesAt, Encodes, LowBitsErased;
  }

  lemma StartOfUpdate(recs: seq<Record>, k: nat, r: Record, l: nat)
    requires k < |recs| && r.Len() == recs[k].Len() && l <= |recs|
    ensures Start(recs[k := r], l) == Start(recs, l)
  {
    if k < l {
      assert recs[k := r][..l] == recs[..l][k := r];
      UsedBytesUpdate(recs[..l], k, r);
    } else {
      assert recs[k := r][..l] == recs[..l];
    }
  }

  /** Writing a record's status changes that record's status and nothing else. */
  lemma MarkedHolds(f: Bytes, f': Bytes, recs: seq<Record>, k: nat, status: KvStatus)
    requires Holds(f, recs) && k < |recs| && !recs[k].Stray() && status != Unused
    requires recs[k].crcOk || status == ErrHdr
    requires OnlyAt(f, f', Start(recs, k)) && Start(recs, k) < |f'|
    requires Encodes([f'[Start(recs, k)]], KV_STATUS_NUM, StatusIndex(status)) && LowBitsErased(f'[Start(recs, k)])
    ensures Holds(f', recs[k := recs[k].(status := status)])
  {
    hide UsedBytes, LiesAt, LiesBroken, Encodes, HoldsOne, LowBitsErased;
    var r := recs[k].(status := status);
    var recs' := recs[k := r];
    forall l | 0 <= l < |recs'| ensures HoldsOne(f', recs', l) {
      StartOfUpdate(recs, k, r, l);
      RecordFits(f, recs, l);
      if l == k {
        HeldAsMarked(f, f', recs, k, status);
      } else {
        Apart(recs, k, l);
        SameWhereUnchanged(f, f', recs, recs', l);
      }
    }
    StartOfUpdate(recs, k, r, |recs|);
    RecordFits(f, recs, k);
    StartNext(recs, k);
    StartsInOrder(recs, k + 1, |recs|);
  }

  lemma HeldAsMarked(f: Bytes, f': Bytes, recs: seq<Record>, k: nat, status: KvStatus)
    requires k < |recs| && HoldsOne(f, recs, k) && !recs[k].Stray() && status != Unused
    requires recs[k].crcOk || status == ErrHdr
    requires OnlyAt(f, f', Start(recs, k)) && Start(recs, k) + recs[k].Len() <= |f'|
    requires Encodes([f'[Start(recs, k)]], KV_STATUS_NUM, StatusIndex(status)) && LowBitsErased(f'[Start(recs, k)])
    ensures HoldsOne(f', recs[k := recs[k].(status := status)], k)
  {
    hide UsedBytes, LiesAt, LiesBroken, Encodes, LowBitsErased;
    var r := recs[k].(status := status);
    StartOfUpdate(recs, k, r, k);
    if recs[k].crcOk {
      StatusByteOnly(f, f', Start(recs, k), r.name, r.value);
    } else {
      BrokenUnchanged(f, f', Start(recs, k), recs[k], k == 0);
      BrokenMarked(f', Start(recs, k), recs[k], k == 0);
    }
  }

  lemma BrokenMarked(f: Bytes, a: nat, r: Record, first: bool)
    requires LiesBroken(f, a, r, first) && !r.Stray()
    ensures LiesBroken(f, a, r.(status := ErrHdr), first)
  {
    hide FlashNumbers.NatOf, WordOf, Crc32.Crc, MagicAt;
  }

  /** Records do not overlap, and each takes at least a byte. */
  lemma Apart(recs: seq<Record>, k: nat, l: nat)
    requires k < |recs| && l < |recs| && k != l
    ensures Start(recs, k) + recs[k].Len() <= Start(recs, l) || Start(recs, l) + recs[l].Len() <= Start(recs, k)
  {
    hide UsedBytes;
    StartNext(recs, k);
    StartNext(recs, l);
    if k < l {
      StartsInOrder(recs, k + 1, l);
    } else {
      StartsInOrder(recs, l + 1, k);
    }
  }

  /** A set's new record, on flash: the sector holds one more record. */
  method AppendRecordBytes(medium: Medium, flash: array<byte>, a: nat, name: Bytes, value: Bytes,
                           ghost recs: seq<Record>)
    returns (error: Error)
    requires Holds(flash[..], recs) && a == Start(recs, |recs|)
    requires |name| <= NAME_MAX ==> a + RecordSize(name, value) <= flash.Length
    modifies flash
    ensures error == if |name| > NAME_MAX then NameError else NoError
    ensures Holds(flash[..], if error == NoError then recs + [Record(Written, true, name, value)] else recs)
    ensures flash[..SECTOR_HDR_SIZE] == old(flash[..SECTOR_HDR_SIZE])
  {
    hide UsedBytes, RecordWritten, HoldsOne;
    error := CreateBlob(medium, flash, flash.Length, a, name, value);
    if error == NoError {
      WrittenExtends(old(flash[..]), flash[..], recs, name, value);
      WrittenBehind(old(flash[..]), flash[..], a, name, value);
    }
  }

  /** Nothing before a written record has changed. */
  lemma WrittenBehind(f: Bytes, f': Bytes, a: nat, name: Bytes, value: Bytes)
    requires RecordWritten(f, f', a, name, value)
    ensures |f'| == |f| && a <= |f| && f'[..a] == f[..a]
    ensures SECTOR_HDR_SIZE <= a ==> f'[..SECTOR_HDR_SIZE] == f[..SECTOR_HDR_SIZE]
  {
    hide LiesAt, Encodes;
    assert f'[..a] == f[..a];
    assert SECTOR_HDR_SIZE <= a ==> f'[..SECTOR_HDR_SIZE] == f'[..a][..SECTOR_HDR_SIZE];
    assert SECTOR_HDR_SIZE <= a ==> f[..SECTOR_HDR_SIZE] == f[..a][..SECTOR_HDR_SIZE];
  }

  /** A later status for a record, on flash. */
  method MarkRecordBytes(medium: Medium, flash: array<byte>, a: nat, status: KvStatus, ghost recs: seq<Record>,
                         ghost k: nat)
    requires Holds(flash[..], recs) && k < |recs| && a == Start(recs, k) && !recs[k].Stray()
    requires StatusIndex(recs[k].status) < StatusIndex(status) && (recs[k].crcOk || status == ErrHdr)
    modifies flash
    ensures Holds(flash[..], recs[k := recs[k].(status := status)])
    ensures flash[..SECTOR_HDR_SIZE] == old(flash[..SECTOR_HDR_SIZE])
  {
    hide UsedBytes, LiesAt, Encodes, OnlyAt, LowBitsErased;
    assert HoldsOne(flash[..], recs, k);
    AdvanceStatus(medium, flash, a, KV_STATUS_NUM, StatusIndex(recs[k].status), StatusIndex(status));
    MarkedHolds(old(flash[..]), flash[..], recs, k, status);
    OnlyBehind(old(flash[..]), flash[..], a);
  }

  lemma OnlyBehind(f: Bytes, f': Bytes, a: nat)
    requires OnlyAt(f, f', a) && SECTOR_HDR_SIZE <= a < |f|
    ensures f'[..SECTOR_HDR_SIZE] == f[..SECTOR_HDR_SIZE]
  {
  }
}
