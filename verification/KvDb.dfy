/** The key-value database as the program runs it: loops over sectors and records, status changes one by
    one, and two caches, on the bytes of its flash, proved against the functions of `KvStore`. */
module KvDbs {
  import opened KvStore
  import opened KvCollect
  import opened KvRefinement
  import opened KvEvery
  import opened KvCaches
  import opened KvNames
  import opened StatusTable
  import opened RecordBytes
  import opened KvScans
  import opened KvFlashes
  import opened KvWalks
  import opened Wrappers

  /** A collection is under way only while one is requested. */
  ghost predicate CollectingOnlyOnRequest(db: Db) {
    forall i :: 0 <= i < |db.secs| && db.secs[i].dirty == Collecting ==> db.gcRequest
  }

  /** A sector in use has records, an empty one has none, and none is full. */
  ghost predicate NoneFull(db: Db) {
    forall i :: 0 <= i < |db.secs| ==>
      db.secs[i].store != Full && (db.secs[i].store == Empty <==> db.secs[i].recs == [])
  }

  /** The sectors in scan order. */
  function ScanOrder(db: Db): (s: seq<Sector>)
    requires db.oldest < |db.secs|
    ensures |s| == |db.secs|
    ensures forall k :: 0 <= k < |s| ==> s[k] == db.secs[db.SectorAt(k)]
  {
    db.secs[db.oldest..] + db.secs[..db.oldest]
  }

  lemma {:induction false} CountStoreConcat(a: seq<Sector>, b: seq<Sector>, store: StoreStatus)
    ensures CountStore(a + b, store) == CountStore(a, store) + CountStore(b, store)
  {
    if b == [] {
      assert a + b == a;
    } else {
      assert (a + b)[..|a + b| - 1] == a + b[..|b| - 1];
      CountStoreConcat(a, b[..|b| - 1], store);
    }
  }

  lemma CountInScanOrder(db: Db, store: StoreStatus)
    requires db.oldest < |db.secs|
    ensures CountStore(ScanOrder(db), store) == CountStore(db.secs, store)
  {
    var a, b := db.secs[db.oldest..], db.secs[..db.oldest];
    CountStoreConcat(a, b, store);
    CountStoreConcat(b, a, store);
    assert b + a == db.secs;
  }

  lemma CountStoreNext(s: seq<Sector>, k: nat, store: StoreStatus)
    requires k < |s|
    ensures CountStore(s[..k + 1], store) == CountStore(s[..k], store) + (if s[k].store == store then 1 else 0)
  {
    assert s[..k + 1][..k] == s[..k];
  }

  /** No write was ever cut short. */
  ghost predicate AllWhole(secs: seq<Sector>) { forall i :: 0 <= i < |secs| ==> Whole(secs[i].recs) }

  lemma WholeSector(secs: seq<Sector>, i: nat)
    requires AllWhole(secs) && i < |secs|
    ensures Whole(secs[i].recs) && Unbroken(secs[i].recs) && WalkShort(secs[i].recs) == 0
    ensures secs[i].recs != [] ==> Intact(secs[i].recs[0]) && Intact(secs[i].recs[|secs[i].recs| - 1])
  {
    WholeTotal(secs[i].recs);
  }

  lemma NothingUsed()
    ensures UsedBytes([]) == 0
  {
  }

  lemma CountNothing(s: seq<Sector>)
    ensures CountStore(s[..0], Empty) == 0 && CountStore(s[..0], Using) == 0
  {
  }

  class KvDb {
    const secSize: nat
    const kvCache: KvCache
    const sectorCache: SectorCache
    const flash: KvFlash
    var secs: seq<Sector>
    var oldest: nat
    var gcRequest: bool
    var lastIsCompleteDel: bool
    /** Checksums of names of the maximal length whose records have been moved. */
    ghost var tainted: set<bv32>

    function State(): Db
      reads this`secs, this`oldest, this`gcRequest
    {
      Db(secSize, secs, oldest, gcRequest, false)
    }

    /** The flash is none of the tables. */
    ghost predicate Separate() {
      forall i :: 0 <= i < |flash.sectors| ==>
        flash.sectors[i] as object != kvCache.nodes as object
            && flash.sectors[i] as object != sectorCache.infos as object
    }

    /** The bytes of every sector are those of its header, its records and erased flash. */
    ghost predicate OnFlash()
      reads this`secs, flash.sectors
    {
      && flash.secSize == secSize && |flash.sectors| == |secs| && flash.HoldsAll(secs) && Separate()
      && AllWhole(secs)
    }

    /** The sector cache agrees with the flash. */
    ghost predicate SectorsCached()
      reads this`secs, this`oldest, this`gcRequest, sectorCache.infos, flash.sectors
    {
      && OnFlash() && State().Shaped() && CollectingOnlyOnRequest(State()) && NoneFull(State())
      && sectorCache.Shaped() && AllAgree(sectorCache.infos[..], State())
    }

    /** The name cache agrees with the flash. */
    ghost predicate NamesCached()
      reads this`secs, this`oldest, this`gcRequest, this`tainted, kvCache.nodes
    {
      kvCache.Valid() && PointsExcept(kvCache.nodes[..], State(), tainted)
    }

    /** The same, but for a name whose record is being replaced. */
    ghost predicate NamesCachedExcept(name: Bytes)
      reads this`secs, this`oldest, this`gcRequest, this`tainted, kvCache.nodes
    {
      kvCache.Valid() && PointsExcept(kvCache.nodes[..], State(), tainted + {NameCrc(name)})
    }

    ghost predicate Valid()
      reads this, kvCache.nodes, sectorCache.infos, flash.sectors
    {
      Idle(State()) && SectorsCached() && NamesCached() && !lastIsCompleteDel
    }

    /** A freshly formatted database. */
    constructor (medium: Medium, secSize: nat, secNum: nat)
      requires SECTOR_HDR_SIZE <= secSize < SECTOR_LIMIT && secNum >= 2
      ensures Valid() && State() == Formatted(secSize, secNum) && tainted == {}
      ensures fresh(kvCache.nodes) && fresh(sectorCache.infos) && fresh(flash.sectors)
    {
      hide NameCrc, KvFlash.HoldsAll, Idle;
      this.secSize := secSize;
      kvCache := new KvCache();
      sectorCache := new SectorCache();
      flash := new KvFlash(medium, secSize, secNum);
      secs := seq(secNum, _ => EMPTY_SECTOR);
      oldest, gcRequest, lastIsCompleteDel, tainted := 0, false, false, {};
      new;
      FormattedIsIdle(secSize, secNum);
    }

    /** What the bytes of every sector are. */
    lemma SectorsHold()
      requires Valid()
      ensures |flash.sectors| == |secs|
      ensures forall i :: 0 <= i < |secs| ==>
                && flash.sectors[i].Length == flash.secSize && HoldsSector(flash.sectors[i][..], secs[i])
                && Whole(secs[i].recs)
    {
      hide Idle, AllAgree, NameCrc, PointsExcept, KvCache.Valid, HoldsSector;
    }

    lemma IsShaped(key: Bytes)
      requires Valid()
      ensures oldest < |secs| && (Safe(NameCrc(key)) ==> NameCrc(key) !in tainted)
    {
      hide Idle, AllAgree, NameCrc, PointsExcept, KvCache.Valid, KvFlash.HoldsAll, Every;
    }

    // ---- Sectors ----

    /** The free space of a sector, by walking its records. */
    method WalkRecords(i: nat) returns (remain: int)
      requires OnFlash() && NoneFull(State()) && i < |secs|
      modifies flash.sectors
      ensures OnFlash() && remain == State().Remain(i)
    {
      hide KvFlash.HoldsAll, UsedBytes;
      var checkOk, store, dirty := flash.ReadHeader(i, secs);
      match store
      case Full =>
        remain := 0;
      case Empty =>
        remain := secSize - SECTOR_HDR_SIZE;
      case Using =>
        WholeSector(secs, i);
        remain := flash.Walk(i, secs);
    }

    /** What is known about a sector, from the cache if it suffices. */
    method ReadSectorInfo(i: nat, traversal: bool) returns (info: SectorInfo)
      requires SectorsCached() && i < |secs|
      modifies sectorCache.infos, flash.sectors
      ensures SectorsCached() && info.sector == Some(i) && Agrees(info, State())
      ensures traversal ==> info.remain.Some?
      ensures if forall j :: 0 <= j < SECTOR_CACHE_TABLE_SIZE && old(sectorCache.infos[j]).sector == Some(i) ==>
                       traversal && old(sectorCache.infos[j]).remain.None?
              then Stores(old(sectorCache.infos[..]), sectorCache.infos[..], info)
              else sectorCache.infos[..] == old(sectorCache.infos[..]) && info in sectorCache.infos[..]
    {
      hide KvFlash.HoldsAll, UsedBytes, Stores;
      var j := sectorCache.Find(i);
      if j < SECTOR_CACHE_TABLE_SIZE && (!traversal || sectorCache.infos[j].remain.Some?) {
        return sectorCache.infos[j];
      }
      var checkOk, store, dirty := flash.ReadHeader(i, secs);
      info := SectorInfo(Some(i), store, dirty, None);
      if traversal {
        var remain := WalkRecords(i);
        info := info.(remain := Some(remain));
        sectorCache.Update(info, State());
      } else if j == SECTOR_CACHE_TABLE_SIZE {
        sectorCache.Update(info, State());
      }
    }

    /** How many sectors are empty and in use. */
    method CountSectors() returns (empties: nat, inUse: nat)
      requires SectorsCached()
      modifies sectorCache.infos, flash.sectors
      ensures SectorsCached()
      ensures empties == CountStore(secs, Empty) && inUse == CountStore(secs, Using)
    {
      hide SectorsCached, CountStore, Db.SectorAt;
      SectorsOnFlash();
      ghost var order := ScanOrder(State());
      empties, inUse := 0, 0;
      CountNothing(order);
      for k := 0 to |secs|
        invariant SectorsCached()
        invariant empties == CountStore(order[..k], Empty) && inUse == CountStore(order[..k], Using)
      {
        CountStoreNext(order, k, Empty);
        CountStoreNext(order, k, Using);
        var info := ReadSectorInfo(State().SectorAt(k), false);
        if info.store == Empty {
          empties := empties + 1;
        } else if info.store == Using {
          inUse := inUse + 1;
        }
      }
      assert order[..|secs|] == order;
      CountInScanOrder(State(), Empty);
      CountInScanOrder(State(), Using);
    }

    /** What was read about a sector decides whether it can hold a record. */
    lemma CanHoldAsRead(i: nat, info: SectorInfo, size: nat)
      requires SectorsCached() && i < |secs| && info.sector == Some(i) && Agrees(info, State()) && info.remain.Some?
      ensures CanHold(State(), i, size) <==>
              && info.remain.value > size + REMAIN_THRESHOLD
              && (info.dirty == Clean || (info.dirty == Dirty && !gcRequest))
    {
      hide KvFlash.HoldsAll, AllAgree, Db.Remain;
    }

    /** The first sector with a status that can hold a record. */
    method FindSector(store: StoreStatus, size: nat) returns (r: Option<nat>)
      requires SectorsCached()
      modifies sectorCache.infos, flash.sectors
      ensures SectorsCached()
      ensures r == FirstFit(State(), store, size, 0)
    {
      hide SectorsCached, OnFlash, Db.SectorAt, Db.Remain, CanHold;
      SectorsOnFlash();
      for k := 0 to |secs|
        invariant SectorsCached()
        invariant FirstFit(State(), store, size, 0) == FirstFit(State(), store, size, k)
      {
        var i := State().SectorAt(k);
        var info := ReadSectorInfo(i, false);
        if info.store == store {
          info := ReadSectorInfo(i, true);
          CanHoldAsRead(i, info, size);
          if info.remain.value > size + REMAIN_THRESHOLD
             && (info.dirty == Clean || (info.dirty == Dirty && !gcRequest)) {
            return Some(i);
          }
        }
      }
      return None;
    }

    /** Find a sector for a record; request a collection rather than use the last empty sector. */
    method AllocKv(size: nat) returns (r: Option<nat>)
      requires SectorsCached()
      modifies this`gcRequest, sectorCache.infos, flash.sectors
      ensures SectorsCached()
      ensures State() == Alloc(old(State()), size).db && r == Alloc(old(State()), size).sector
      ensures old(NamesCached()) ==> NamesCached()
    {
      hide SectorsCached, NamesCached, FirstFit, CountStore;
      SectorsOnFlash();
      var empties, inUse := CountSectors();
      r := None;
      if inUse > 0 {
        r := FindSector(Using, size);
      }
      if empties > 0 && r.None? {
        if empties > GC_EMPTY_SEC_THRESHOLD || gcRequest {
          r := FindSector(Empty, size);
        } else {
          RequestCollection();
        }
      }
    }

    method RequestCollection()
      requires SectorsCached()
      modifies this`gcRequest
      ensures SectorsCached() && State() == old(State()).(gcRequest := true)
      ensures old(NamesCached()) ==> NamesCached()
    {
      hide NameCrc;
      gcRequest := true;
    }

    // ---- Lookup ----

    /** Where the cached information about a sector says that erased flash begins. */
    method KnownEmpty(i: nat) returns (a: Option<nat>)
      requires SectorsCached() && i < |secs| && secs[i].recs != []
      ensures a.Some? ==> a.value == Start(secs[i].recs, |secs[i].recs|)
    {
      hide KvFlash.HoldsAll, UsedBytes;
      var j := sectorCache.Find(i);
      a := None;
      WholeStart(secs[i].recs);
      if j < SECTOR_CACHE_TABLE_SIZE && sectorCache.infos[j].remain.Some? {
        a := Some(secSize - sectorCache.infos[j].remain.value);
      }
    }

    /** The first matching record on flash. */
    method FindKvNoCache(key: Bytes) returns (r: Option<Address>)
      requires SectorsCached()
      modifies sectorCache.infos, flash.sectors
      ensures SectorsCached()
      ensures r == Find(State(), key)
    {
      hide KvFlash.HoldsAll, FindInSector, AllAgree;
      for k := 0 to |secs|
        invariant SectorsCached()
        invariant Find(State(), key) == FindFrom(State(), key, k)
      {
        var i := State().SectorAt(k);
        var info := ReadSectorInfo(i, false);
        if info.store != Empty {
          var known := KnownEmpty(i);
          WholeSector(secs, i);
          var j := flash.FindInSector(i, key, known, secs);
          if j.Some? {
            return Some(Address(i, j.value));
          }
        }
      }
      return None;
    }

    /** The cache knows an address for the checksum of the key, and the check by prefix accepts it. */
    ghost predicate Hits(key: Bytes, a: Address)
      requires OnFlash()
      reads this`secs, this`oldest, this`gcRequest, kvCache.nodes, flash.sectors
    {
      Knows(kvCache.nodes[..], NameCrc(key), a) && Passes(a, key)
    }

    ghost predicate Passes(a: Address, key: Bytes)
      requires OnFlash()
      reads this`secs, this`oldest, this`gcRequest, flash.sectors
    {
      && State().HasRecord(a)
      && StartsWithKey(flash.sectors[a.sector][..], Start(secs[a.sector].recs, a.pos), key)
    }

    /** The cached record for a checksum is not the one asked for, but starts with its key: the check by
        prefix is fooled. */
    ghost predicate FalseHit(key: Bytes)
      requires OnFlash()
      reads this`secs, this`oldest, this`gcRequest, kvCache.nodes, flash.sectors
    {
      exists a :: Hits(key, a) && State().RecordAt(a).name != key
    }

    /** The cached address for a key, if the record there starts with the key. */
    method GetKvFromCache(key: Bytes) returns (r: Option<Address>)
      requires OnFlash() && NamesCached() && NameCrc(key) !in tainted
      modifies kvCache.nodes
      ensures OnFlash() && NamesCached() && SameEntries(old(kvCache.nodes[..]), kvCache.nodes[..])
      ensures forall a :: r == Some(a) <==> old(Hits(key, a))
      ensures r.None? ==> kvCache.nodes[..] == old(kvCache.nodes[..])
      ensures r.Some? ==> HitActivates(old(kvCache.nodes[..]), kvCache.nodes[..], NameCrc(key), r.value)
    {
      hide NameCrc, KvFlash.HoldsAll, FirstOfCrc, PointsExcept, StartsWithKey, Start;
      var crc := NameCrc(key);
      var nodes := kvCache.nodes;
      forall a | Hits(key, a) ensures forall b :: Hits(key, b) <==> b == a {
        OnlyHit(key, a);
      }
      for i := 0 to KV_CACHE_TABLE_SIZE
        invariant nodes[..] == old(nodes[..])
        invariant forall j :: 0 <= j < i && nodes[j].crc == crc && nodes[j].addr.Some? ==>
                    !Passes(nodes[j].addr.value, key)
      {
        if nodes[i].addr.Some? && nodes[i].crc == crc {
          var a := nodes[i].addr.value;
          assert Knows(nodes[..], crc, a);
          KnownIsWritten(nodes[..], State(), tainted, crc, a);
          var passes := CheckName(a, key);
          if passes {
            assert old(Hits(key, a));
            Activate(i);
            return Some(a);
          }
        }
      }
      return None;
    }

    method CheckName(a: Address, key: Bytes) returns (passes: bool)
      requires OnFlash() && State().HasRecord(a)
      ensures passes == Passes(a, key)
    {
      hide Start, StartsWithKey, HoldsSector;
      passes := StartsWithKey(flash.sectors[a.sector][..], Start(secs[a.sector].recs, a.pos), key);
    }

    lemma OnlyHit(key: Bytes, a: Address)
      requires OnFlash() && kvCache.Valid() && Hits(key, a)
      ensures forall b :: Hits(key, b) <==> b == a
    {
      hide NameCrc, KvFlash.HoldsAll, Knows, Start, StartsWithKey, FirstOfCrc;
      forall b | Hits(key, b) ensures b == a {
        KnowsOne(kvCache.nodes[..], NameCrc(key), a, b);
      }
    }

    /** A node that was used is less likely to be given up. */
    method Activate(i: nat)
      requires NamesCached() && i < KV_CACHE_TABLE_SIZE
      modifies kvCache.nodes
      ensures NamesCached() && SameEntries(old(kvCache.nodes[..]), kvCache.nodes[..])
      ensures kvCache.nodes[..] == old(kvCache.nodes[..])[i := Activated(old(kvCache.nodes[i]))]
    {
      hide NameCrc, WrittenUnder;
      var nodes := kvCache.nodes;
      nodes[i] := nodes[i].(active := if nodes[i].active >= ACTIVE_MAX - KV_CACHE_TABLE_SIZE then ACTIVE_MAX
                                      else nodes[i].active + KV_CACHE_TABLE_SIZE);
    }

    lemma HitIsWritten(key: Bytes, a: Address)
      requires OnFlash() && NamesCached() && NameCrc(key) !in tainted && Hits(key, a)
      ensures |key| <= NAME_MAX && WrittenUnder(State(), a, NameCrc(key))
    {
      hide NameCrc, KvFlash.HoldsAll, WrittenUnder, PointsExcept, Knows, FirstOfCrc, Start;
      KnownIsWritten(kvCache.nodes[..], State(), tainted, NameCrc(key), a);
    }

    /** A hit with the right name is what a search on flash finds. */
    lemma HitIsFound(key: Bytes, a: Address)
      requires SectorsCached() && WrittenUnder(State(), a, NameCrc(key)) && UniqueName(State(), key)
      ensures State().RecordAt(a).name == key && |key| < NAME_MAX ==> Find(State(), key) == Some(a)
      ensures State().RecordAt(a).name != key ==> Find(State(), key) != Some(a)
    {
      hide NameCrc, KvFlash.HoldsAll, Find, AllAgree;
      if State().RecordAt(a).name == key && |key| < NAME_MAX {
        MatchIsFound(State(), a, key);
      }
    }

    lemma SectorsOnFlash()
      requires SectorsCached()
      ensures OnFlash() && State().Shaped() && Separate()
    {
      hide KvFlash.HoldsAll, AllAgree;
    }

    /** Whether the cache is fooled is decided by its one hit. */
    lemma HitDecides(key: Bytes, a: Address)
      requires SectorsCached() && WrittenUnder(State(), a, NameCrc(key))
      requires NamesCached() && OnFlash() && Hits(key, a)
      ensures FalseHit(key) <==> State().RecordAt(a).name != key
      ensures State().Shaped()
          && (UniqueName(State(), key) && |key| < NAME_MAX ==> (Find(State(), key) == Some(a) <==> !FalseHit(key)))
    {
      hide NameCrc, Hits, Find, UniqueName, KvFlash.HoldsAll, AllAgree;
      OnlyHit(key, a);
      if UniqueName(State(), key) {
        HitIsFound(key, a);
      }
    }

    /** Remember where a record was found. */
    method RememberFound(key: Bytes, a: Address)
      requires SectorsCached() && NamesCached() && State().HasRecord(a) && State().RecordAt(a).Matches(key)
      modifies kvCache.nodes
      ensures SectorsCached() && NamesCached() && WrittenUnder(State(), a, NameCrc(key))
      ensures Knows(kvCache.nodes[..], NameCrc(key), a)
    {
      hide NameCrc, KvFlash.HoldsAll, AllAgree, Updates;
      ghost var nodes := kvCache.nodes[..];
      PointsWeaker(nodes, State(), tainted, NameCrc(key));
      kvCache.Update(key, a);
      LearnedName(nodes, kvCache.nodes[..], State(), a, tainted);
    }

    /** Find a record through the cache: what the cache hits, or else what a search on flash finds. For keys
        shorter than the maximal length this is what the search on flash finds, exactly when the cache is not
        fooled; keys of the maximal length are found exactly while the cache has them. */
    method FindKv(key: Bytes) returns (r: Option<Address>)
      requires SectorsCached() && NamesCached() && NameCrc(key) !in tainted
      modifies kvCache.nodes, sectorCache.infos, flash.sectors
      ensures SectorsCached() && NamesCached()
      ensures forall a :: old(Hits(key, a)) ==> r == Some(a)
      ensures (forall a :: !old(Hits(key, a))) ==> r == Find(State(), key)
      ensures |key| == NAME_MAX ==> forall a :: r == Some(a) <==> old(Hits(key, a))
      ensures UniqueName(State(), key) && |key| != NAME_MAX ==> (r == Find(State(), key) <==> !old(FalseHit(key)))
      ensures r.Some? ==> |key| <= NAME_MAX && WrittenUnder(State(), r.value, NameCrc(key))
      ensures r.Some? ==> Knows(kvCache.nodes[..], NameCrc(key), r.value)
    {
      hide NameCrc, Find, Hits, SectorsCached, NamesCached, OnFlash, UniqueName;
      SectorsOnFlash();
      forall a | Hits(key, a)
        ensures WrittenUnder(State(), a, NameCrc(key)) && |key| <= NAME_MAX
        ensures FalseHit(key) <==> State().RecordAt(a).name != key
        ensures UniqueName(State(), key) && |key| < NAME_MAX ==> (Find(State(), key) == Some(a) <==> !FalseHit(key))
      {
        HitIsWritten(key, a);
        HitDecides(key, a);
      }
      r := GetKvFromCache(key);
      if r.Some? {
        return;
      }
      if |key| == NAME_MAX {
        LongIsNotFound(State(), key);
      }
      r := FindKvNoCache(key);
      if r.Some? {
        RememberFound(key, r.value);
      }
    }

    // ---- Single changes ----

    lemma NotStray(a: Address)
      requires OnFlash() && State().HasRecord(a)
      ensures Intact(State().RecordAt(a)) && |State().RecordAt(a).name| <= NAME_MAX
    {
      hide HeaderHolds, Holds, HoldsOne, Start;
      assert HoldsSector(flash.sectors[a.sector][..], secs[a.sector]);
      NamedShort(flash.sectors[a.sector][..], secs[a.sector].recs, a.pos);
    }

    /** Write the status of a record that is being deleted, and mark its sector dirty. */
    method ChangeStatus(a: Address, status: KvStatus)
      requires SectorsCached() && State().HasRecord(a)
      requires StatusIndex(State().RecordAt(a).status) < StatusIndex(status)
      modifies this`secs, sectorCache.infos, flash.sectors
      ensures SectorsCached() && State() == MarkRecord(old(State()), a, status)
    {
      hide KvFlash.HoldsAll, UsedBytes, AllAgree;
      ghost var db := State();
      var s := secs[a.sector];
      NotStray(a);
      UsedBytesUpdate(s.recs, a.pos, s.recs[a.pos].(status := status));
      flash.MarkRecord(a.sector, a.pos, Start(s.recs, a.pos), status, secs);
      secs := secs[a.sector := s.(recs := s.recs[a.pos := s.recs[a.pos].(status := status)])];
      var checkOk, store, dirty := flash.ReadHeader(a.sector, secs);
      if dirty == Clean {
        flash.SetDirty(a.sector, Dirty, secs);
        secs := secs[a.sector := secs[a.sector].(dirty := Dirty)];
      }
      sectorCache.Refresh(a.sector, store, true, None, db, State());
    }

    /** The first half of a deletion. */
    method PrepareDelete(a: Address)
      requires SectorsCached() && NamesCached() && State().HasRecord(a) && State().RecordAt(a).status == Written
      modifies this`secs, this`lastIsCompleteDel, sectorCache.infos, flash.sectors
      ensures SectorsCached() && lastIsCompleteDel
      ensures State() == MarkRecord(old(State()), a, PreDelete)
      ensures NamesCachedExcept(old(State()).RecordAt(a).name)
    {
      hide NameCrc, SectorsCached;
      SectorsOnFlash();
      MarkedNames(kvCache.nodes[..], State(), a, PreDelete, tainted);
      ChangeStatus(a, PreDelete);
      lastIsCompleteDel := true;
    }

    /** The second half of a deletion, or a deletion in one step, which also forgets the cached address. */
    method CompleteDelete(a: Address, name: Bytes)
      requires SectorsCached() && NamesCached() && State().HasRecord(a)
      requires State().RecordAt(a).status == Written || State().RecordAt(a).status == PreDelete
      requires State().RecordAt(a).status == Written ==>
                 !lastIsCompleteDel && NameCrc(name) == NameCrc(State().RecordAt(a).name)
      modifies this`secs, this`lastIsCompleteDel, kvCache.nodes, sectorCache.infos, flash.sectors
      ensures SectorsCached() && NamesCached() && !lastIsCompleteDel
      ensures State() == MarkRecord(old(State()), a, Deleted)
      ensures old(lastIsCompleteDel) ==> kvCache.nodes[..] == old(kvCache.nodes[..])
    {
      hide NameCrc, SectorsCached, OnFlash, PointsExcept, MarkRecord;
      SectorsOnFlash();
      ghost var nodes := kvCache.nodes[..];
      MarkedNames(nodes, State(), a, Deleted, tainted);
      ChangeStatus(a, Deleted);
      if !lastIsCompleteDel {
        kvCache.Remove(name);
        PointsWeaker(nodes, State(), tainted, NameCrc(name));
        ForgottenName(nodes, kvCache.nodes[..], State(), NameCrc(name), tainted);
      }
      lastIsCompleteDel := false;
    }

    /** The status of a sector that is about to take a record. */
    method UpdateSecStatus(i: nat, len: nat, remain: int) returns (isFull: bool)
      requires OnFlash() && i < |secs| && remain == State().Remain(i)
      modifies this`secs, flash.sectors
      ensures OnFlash() && secs == old(secs)[i := old(secs[i]).(store := StoreAfter(old(State()), i, len))]
      ensures isFull == (old(secs[i].store) == Using && StoreAfter(old(State()), i, len) == Full)
    {
      hide KvFlash.HoldsAll, UsedBytes;
      var s := secs[i];
      isFull := false;
      if s.store == Empty {
        flash.SetStore(i, Using, secs);
        secs := secs[i := s.(store := Using)];
      } else if s.store == Using && (remain < REMAIN_THRESHOLD || remain - len < REMAIN_THRESHOLD) {
        flash.SetStore(i, Full, secs);
        secs := secs[i := s.(store := Full)];
        isFull := true;
      }
    }

    /** Lay a record down behind the others of a sector that has room for it: a new one, or the copy of another
        sector's record. */
    method AppendOnFlash(i: nat, r: Record, source: Option<Address>) returns (isFull: bool)
      requires SectorsCached() && i < |secs| && r.crcOk && r.status == Written
      requires |r.name| <= NAME_MAX && State().Remain(i) > r.Len() + REMAIN_THRESHOLD
      requires source.Some? ==> source.value.sector != i && State().HasRecord(source.value)
                                && r == State().RecordAt(source.value).(status := Written)
      modifies this`secs, sectorCache.infos, flash.sectors
      ensures SectorsCached() && State() == AppendRecord(old(State()), i, r)
      ensures isFull == (old(secs[i].store) == Using && StoreAfter(old(State()), i, r.Len()) == Full)
    {
      hide AllAgree, KvFlash.HoldsAll, UsedBytes;
      ghost var db := State();
      var s := secs[i];
      WholeStart(s.recs);
      NothingUsed();
      if source.Some? {
        NotStray(source.value);
      }
      UsedBytesAppend(s.recs, r);
      var remain := if s.store == Empty then secSize - SECTOR_HDR_SIZE
                    else secSize - SECTOR_HDR_SIZE - UsedBytes(s.recs);
      var a: nat := secSize - remain;
      isFull := UpdateSecStatus(i, r.Len(), remain);
      assert secs[i].recs == s.recs;
      match source {
        case None => flash.WriteRecord(i, a, r.name, r.value, secs);
        case Some(x) =>
          flash.CopyRecord(i, a, x.sector, x.pos, Start(secs[x.sector].recs, x.pos), r.Len(), secs);
      }
      secs := secs[i := secs[i].(recs := secs[i].recs + [r])];
      sectorCache.Refresh(i, secs[i].store, false, Some(remain - r.Len()), db, State());
    }

    /** Write a new record and remember its address. */
    method WriteRecord(i: nat, r: Record) returns (isFull: bool)
      requires SectorsCached() && NamesCachedExcept(r.name) && i < |secs|
      requires r.crcOk && r.status == Written && |r.name| <= NAME_MAX && State().Remain(i) > r.Len() + REMAIN_THRESHOLD
      modifies this`secs, kvCache.nodes, sectorCache.infos, flash.sectors
      ensures SectorsCached() && NamesCached()
      ensures State() == AppendRecord(old(State()), i, r)
      ensures isFull == (old(secs[i].store) == Using && StoreAfter(old(State()), i, r.Len()) == Full)
      ensures Knows(kvCache.nodes[..], NameCrc(r.name), Address(i, |old(secs[i].recs)|))
    {
      hide SectorsCached, PointsExcept, NameCrc, AppendRecord, KvCache.Valid, Db.Remain, StoreAfter, OnFlash;
      SectorsOnFlash();
      ghost var db, nodes, a := State(), kvCache.nodes[..], Address(i, |secs[i].recs|);
      isFull := AppendOnFlash(i, r, None);
      AppendedNames(nodes, db, i, r, tainted + {NameCrc(r.name)});
      AppendedRecord(db, i, r);
      kvCache.Update(r.name, Address(i, |secs[i].recs| - 1));
      LearnedName(nodes, kvCache.nodes[..], State(), a, tainted);
    }

    // ---- Garbage collection ----

    /** Nothing about this checksum is in doubt, and no move can bring it in doubt. */
    ghost predicate Safe(crc: bv32)
      reads this`secs, this`tainted
    {
      crc !in tainted && Every(Db(0, secs, 0, false, false), SparesCrc(crc))
    }

    /** Move a record out of the sector being collected. */
    method MoveKv(a: Address, ghost empties: nat) returns (ok: bool)
      requires SectorsCached() && NamesCached() && !lastIsCompleteDel
      requires CollectingAt(State(), a.sector) && State().HasRecord(a) && State().RecordAt(a).Movable()
      requires Room(State(), a.sector, a.pos, empties)
      modifies this`secs, this`gcRequest, this`lastIsCompleteDel, this`tainted
      modifies kvCache.nodes, sectorCache.infos, flash.sectors
      ensures SectorsCached() && NamesCached() && !lastIsCompleteDel
      ensures ok && State() == Move(old(State()), a).db
      ensures forall c :: old(Safe(c)) ==> Safe(c)
    {
      hide SectorsCached, NamesCached, NamesCachedExcept, CollectingAt, Room, Alloc, CanHold, MarkRecord,
        AppendRecord, LiveOf, Live, Find, CountStore, Db.Remain, OnFlash;
      SectorsOnFlash();
      NotStray(a);
      var kv := secs[a.sector].recs[a.pos];
      Prepared(State(), a.sector, a.pos, empties);
      PrepareMove(a);
      AllocWhileCollecting(State(), a.sector, a.pos, empties);
      var i := AllocKv(kv.Len());
      ok := i.Some?;
      if ok {
        CanHoldMeans(State(), i.value, kv.Len());
        WriteCopy(i.value, a, kv);
        CompleteDelete(a, CutName(kv.name));
      }
      forall c | old(Safe(c)) ensures Safe(c) {
        MoveSpares(old(State()), a, c);
      }
    }

    /** The start of a move: a written record is prepared for deletion. */
    method PrepareMove(a: Address)
      requires SectorsCached() && NamesCached() && State().HasRecord(a) && State().RecordAt(a).Movable()
      modifies this`secs, this`lastIsCompleteDel, sectorCache.infos, flash.sectors
      ensures SectorsCached() && NamesCachedExcept(old(State()).RecordAt(a).name)
      ensures State() == if old(State()).RecordAt(a).status == Written then MarkRecord(old(State()), a, PreDelete)
          else old(State())
      ensures lastIsCompleteDel == (old(State()).RecordAt(a).status == Written || old(lastIsCompleteDel))
    {
      hide NameCrc, MarkRecord, AllAgree;
      if secs[a.sector].recs[a.pos].status == Written {
        PrepareDelete(a);
      } else {
        PointsWeaker(kvCache.nodes[..], State(), tainted, NameCrc(secs[a.sector].recs[a.pos].name));
      }
    }

    /** Write a copy of a record that is prepared for deletion. What is remembered is its address under the name
        as it was read. */
    method WriteCopy(i: nat, a: Address, kv: Record)
      requires SectorsCached() && i < |secs| && i != a.sector
      requires State().HasRecord(a) && State().RecordAt(a) == kv.(status := PreDelete)
      requires kv.crcOk && State().Remain(i) > kv.Len() + REMAIN_THRESHOLD && |kv.name| <= NAME_MAX
      requires kv.status == Written || kv.status == PreDelete
      requires NamesCachedExcept(kv.name)
      modifies this`secs, this`tainted, kvCache.nodes, sectorCache.infos, flash.sectors
      ensures SectorsCached() && NamesCached() && tainted == old(tainted) + Taint(kv.name)
      ensures State() == AppendRecord(old(State()), i, kv.(status := Written))
      ensures State().HasRecord(a) && State().RecordAt(a) == kv.(status := PreDelete)
    {
      hide NameCrc, SectorsCached, PointsExcept, KvCache.Valid, Db.Remain, Taint, Learns, OnFlash;
      SectorsOnFlash();
      ghost var db, nodes, to := State(), kvCache.nodes[..], Address(i, |secs[i].recs|);
      var r := kv.(status := Written);
      var isFull := AppendOnFlash(i, r, Some(a));
      AppendedNames(nodes, db, i, r, tainted + {NameCrc(r.name)});
      AppendedRecord(db, i, r);
      kvCache.Update(CutName(kv.name), Address(i, |secs[i].recs| - 1));
      LearnedCut(nodes, kvCache.nodes[..], State(), to, tainted);
      tainted := tainted + Taint(kv.name);
    }

    /** Mark a sector as being collected; the caches do not need to know. */
    method StartCollecting(x: nat)
      requires SectorsCached() && NamesCached() && gcRequest && x < |secs| && secs[x].dirty == Dirty
      modifies this`secs, flash.sectors
      ensures SectorsCached() && NamesCached()
      ensures State() == Marked(old(State()), x)
      ensures forall c :: old(Safe(c)) ==> Safe(c)
    {
      hide NameCrc, KvFlash.HoldsAll, Taint;
      flash.SetDirty(x, Collecting, secs);
      secs := secs[x := secs[x].(dirty := Collecting)];
    }

    /** Erase a sector none of whose records is written any more, and look for the next one behind it. */
    method Erase(x: nat)
      requires SectorsCached() && NamesCached() && x < |secs|
      requires forall j :: 0 <= j < |secs[x].recs| ==> secs[x].recs[j].status != Written
      modifies this`secs, this`oldest, sectorCache.infos, flash.sectors
      ensures SectorsCached() && NamesCached()
      ensures State() == old(State()).SetSector(x, EMPTY_SECTOR).(oldest := old(State()).NextSector(x))
      ensures forall c :: old(Safe(c)) ==> Safe(c)
    {
      hide NameCrc, KvFlash.HoldsAll, Taint;
      ghost var db := State();
      ErasedNames(kvCache.nodes[..], db, x, tainted);
      flash.Format(x, secs);
      secs := secs[x := EMPTY_SECTOR];
      sectorCache.Drop(x, db, State());
      oldest := State().NextSector(x);
    }

    method IsMovable(a: Address) returns (r: bool)
      requires SectorsCached() && NamesCached() && State().HasRecord(a)
      modifies flash.sectors
      ensures SectorsCached() && NamesCached() && r == State().RecordAt(a).Movable()
    {
      hide KvFlash.HoldsAll, AllAgree, PointsExcept, KvCache.Valid, Start;
      r := flash.IsMovable(a.sector, a.pos, Start(secs[a.sector].recs, a.pos), secs);
    }

    /** Collect one sector: its live records are moved, one by one, and it is erased. */
    method CollectOne(x: nat)
      requires SectorsCached() && NamesCached() && !lastIsCompleteDel
      requires Sound(State()) && gcRequest && x < |secs| && secs[x].dirty == Dirty
      modifies this`secs, this`oldest, this`gcRequest, this`lastIsCompleteDel, this`tainted
      modifies kvCache.nodes, sectorCache.infos, flash.sectors
      ensures SectorsCached() && NamesCached() && !lastIsCompleteDel
      ensures State() == CollectSector(old(State()), x).db
      ensures forall c :: old(Safe(c)) ==> Safe(c)
    {
      hide SectorsCached, NamesCached, Sound, CollectingAt, Untouched, Room, MoveRecords, CountStore, Move, Safe,
        OnFlash;
      SectorsOnFlash();
      ghost var db, empties := State(), CountStore(secs, Empty);
      StartIsRoomy(State(), x);
      StartCollecting(x);
      var n := |secs[x].recs|;
      for j := 0 to n
        invariant SectorsCached() && NamesCached() && !lastIsCompleteDel && x < |secs| && |secs[x].recs| == n
        invariant CollectingAt(State(), x) && Untouched(State(), x, j) && Room(State(), x, j, empties)
        invariant oldest < |secs| && MoveRecords(State(), x, j, n).db == MoveRecords(Marked(db, x), x, 0, n).db
        invariant forall c :: old(Safe(c)) ==> Safe(c)
      {
        MoveRecordsStep(State(), x, j, empties);
        var movable := IsMovable(Address(x, j));
        if movable {
          var ok := MoveKv(Address(x, j), empties);
        }
      }
      MoveRecordsDone(State(), x, n);
      Erase(x);
    }

    /** How many sectors are empty, and the last of them in scan order. */
    method LastEmptySector() returns (empties: nat, last: nat)
      requires SectorsCached()
      modifies sectorCache.infos, flash.sectors
      ensures SectorsCached()
      ensures empties == CountStore(secs, Empty) && last == LastEmpty(State(), 0, 0)
    {
      hide ScanOrder, LastEmpty, CollectingOnlyOnRequest, NoneFull, AllAgree, SectorCache.Shaped, Db.SectorAt, OnFlash;
      ghost var order := ScanOrder(State());
      empties, last := 0, 0;
      for k := 0 to |secs|
        invariant SectorsCached() && last < |secs|
        invariant empties == CountStore(order[..k], Empty)
        invariant LastEmpty(State(), k, last) == LastEmpty(State(), 0, 0)
      {
        LastEmptyStep(State(), k, last);
        var isEmpty := IsEmpty(State().SectorAt(k));
        if isEmpty {
          empties, last := empties + 1, State().SectorAt(k);
        }
      }
      LastEmptyEnds(State(), last);
    }

    /** Collect dirty sectors, from the oldest on, until the one collected before the last has more than
        `wanted` bytes free. */
    method CollectDirty(start: nat, wanted: nat)
      requires SectorsCached() && NamesCached() && !lastIsCompleteDel
      requires Sound(State()) && gcRequest && start < |secs|
      modifies this`secs, this`oldest, this`gcRequest, this`lastIsCompleteDel, this`tainted
      modifies kvCache.nodes, sectorCache.infos, flash.sectors
      ensures SectorsCached() && NamesCached() && !lastIsCompleteDel
      ensures Sound(State()) && State() == CollectFrom(old(State()), old(oldest), 0, start, wanted).db
      ensures forall c :: old(Safe(c)) ==> Safe(c)
    {
      hide Safe, SectorsCached, NamesCached, CollectFrom, CollectSector, SectorSound, Settled, CountStore, Db.Remain,
        OnFlash;
      SectorsOnFlash();
      ghost var db := State();
      var x: nat, last: nat, n: nat := oldest, start, |secs|;
      for k := 0 to n
        invariant SectorsCached() && NamesCached() && !lastIsCompleteDel
        invariant Sound(State()) && gcRequest && |secs| == n && last < n
        invariant k < n ==> x == State().(oldest := db.oldest).SectorAt(k)
        invariant CollectFrom(State(), db.oldest, k, last, wanted).db == CollectFrom(db, db.oldest, 0, start, wanted).db
        invariant forall c :: old(Safe(c)) ==> Safe(c)
      {
        NextInScan(State(), db.oldest, k);
        CollectFromStep(State(), db.oldest, k, last, wanted);
        var isDirty := IsDirty(x);
        if isDirty {
          CollectOne(x);
          var remain := ReadRemain(last);
          if remain > wanted {
            return;
          }
          last := x;
        }
        x := State().NextSector(x);
      }
      CollectFromDone(State(), db.oldest, last, wanted);
    }

    method ReadRemain(i: nat) returns (remain: int)
      requires SectorsCached() && i < |secs|
      modifies sectorCache.infos, flash.sectors
      ensures SectorsCached() && remain == State().Remain(i)
    {
      var info := ReadSectorInfo(i, true);
      remain := info.remain.value;
    }

    method IsEmpty(i: nat) returns (r: bool)
      requires SectorsCached() && i < |secs|
      modifies sectorCache.infos, flash.sectors
      ensures SectorsCached() && r == (secs[i].store == Empty)
    {
      var info := ReadSectorInfo(i, false);
      r := info.store == Empty;
    }

    method IsDirty(x: nat) returns (r: bool)
      requires SectorsCached() && x < |secs| && secs[x].dirty != Collecting
      modifies sectorCache.infos, flash.sectors
      ensures SectorsCached() && r == (secs[x].dirty == Dirty)
    {
      var info := ReadSectorInfo(x, false);
      r := info.dirty != Clean;
    }

    /** Collect garbage if too few sectors are empty. */
    method CollectGarbage(wanted: nat)
      requires SectorsCached() && NamesCached() && !lastIsCompleteDel && Sound(State()) && gcRequest
      modifies this`secs, this`oldest, this`gcRequest, this`lastIsCompleteDel, this`tainted
      modifies kvCache.nodes, sectorCache.infos, flash.sectors
      ensures SectorsCached() && NamesCached() && !lastIsCompleteDel
      ensures Sound(State()) && State() == Collect(old(State()), wanted).db
      ensures forall c :: old(Safe(c)) ==> Safe(c)
    {
      hide Safe, SectorsCached, NamesCached, Sound, Idle, CollectFrom, LastEmpty, CountStore, LiveOf, OnFlash;
      SectorsOnFlash();
      CollectLosesNothing(State(), wanted);
      var empties, last := LastEmptySector();
      if empties <= GC_EMPTY_SEC_THRESHOLD {
        CollectDirty(last, wanted);
      }
      EndRequest();
    }

    method EndRequest()
      requires SectorsCached() && NamesCached() && Sound(State())
      modifies this`gcRequest
      ensures SectorsCached() && NamesCached() && Sound(State())
      ensures State() == old(State()).(gcRequest := false)
    {
      hide NameCrc, CountStore, SectorSound;
      gcRequest := false;
    }

    /** Collect garbage after a change that asked for it. */
    method CollectIfRequested(wanted: nat)
      requires SectorsCached() && NamesCached() && !lastIsCompleteDel && Sound(State())
      modifies this`secs, this`oldest, this`gcRequest, this`lastIsCompleteDel, this`tainted
      modifies kvCache.nodes, sectorCache.infos, flash.sectors
      ensures Valid()
      ensures State() == if old(gcRequest) then Collect(old(State()), wanted).db else old(State())
      ensures forall c :: old(Safe(c)) ==> Safe(c)
      ensures !old(gcRequest) ==> tainted == old(tainted) && kvCache.nodes[..] == old(kvCache.nodes[..])
    {
      hide Safe, SectorsCached, NamesCached, Sound, Collect, LiveOf, CountStore, OnFlash;
      SectorsOnFlash();
      if gcRequest {
        CollectLosesNothing(State(), wanted);
        CollectGarbage(wanted);
      }
    }

    // ---- Operations ----

    /** Find room for a record, collecting garbage once if that is what it takes. */
    method MakeRoom(size: nat) returns (r: Option<nat>)
      requires Valid()
      modifies this`secs, this`oldest, this`gcRequest, this`lastIsCompleteDel, this`tainted
      modifies kvCache.nodes, sectorCache.infos, flash.sectors
      ensures Valid()
      ensures State() == NewKv(old(State()), size).db && r == NewKv(old(State()), size).sector
      ensures forall c :: old(Safe(c)) ==> Safe(c)
      ensures Alloc(old(State()), size).sector.Some? ==> tainted == old(tainted)
    {
      hide Safe, SectorsCached, NamesCached, Sound, Alloc, Collect, LiveOf, CountStore, Reserved, OnFlash;
      SectorsOnFlash();
      NewKvLosesNothing(State(), size);
      RequestIsSound(State(), size);
      r := AllocKv(size);
      if r.None? && gcRequest {
        CollectLosesNothing(State(), size);
        CollectGarbage(size);
        RequestIsSound(State(), size);
        r := AllocKv(size);
        if r.None? {
          EndRequest();
        }
      }
    }

    /** Write the new record of a set. */
    method CreateKv(i: nat, key: Bytes, value: Bytes) returns (error: Error)
      requires SectorsCached() && NamesCachedExcept(key) && i < |secs|
      requires State().Remain(i) > RecordSize(key, value) + REMAIN_THRESHOLD
      modifies this`secs, this`gcRequest, kvCache.nodes, sectorCache.infos, flash.sectors
      ensures SectorsCached() && gcRequest == old(gcRequest)
      ensures State() == KvStore.CreateKv(old(State()), i, key, value).db
      ensures error == KvStore.CreateKv(old(State()), i, key, value).error
      ensures error == NoError || old(NamesCached()) ==> NamesCached()
      ensures error == NoError ==> Remembers(key, value, Address(i, |old(secs[i].recs)|))
    {
      hide SectorsCached, NamesCached, NamesCachedExcept, AppendRecord, StoreAfter, Db.Remain, OnFlash, Knows, NameCrc;
      SectorsOnFlash();
      if |key| > NAME_MAX {
        return NameError;
      }
      if RecordSize(key, value) > secSize - SECTOR_HDR_SIZE {
        return SavedFull;
      }
      AppendedRecord(State(), i, Record(Written, true, key, value));
      var isFull := WriteRecord(i, Record(Written, true, key, value));
      if isFull {
        RequestCollection();
      }
      error := NoError;
      RoomLeft(old(State()), i, RecordSize(key, value));
    }

    /** The cache has the address of a record with this key and value. */
    ghost predicate Remembers(key: Bytes, value: Bytes, a: Address)
      reads this`secs, this`oldest, this`gcRequest, kvCache.nodes
    {
      && Knows(kvCache.nodes[..], NameCrc(key), a)
      && State().HasRecord(a) && State().RecordAt(a) == Record(Written, true, key, value)
    }

    /** What the cache remembers about a key of any length it hits, and with no other record. */
    lemma RememberedHits(key: Bytes, value: Bytes, a: Address)
      requires OnFlash() && NamesCached() && Remembers(key, value, a)
      ensures Hits(key, a) && !FalseHit(key)
    {
      hide NameCrc, HoldsSector, Start, StartsWithKey, Knows, FirstOfCrc;
      PassesCheck(flash.sectors[a.sector][..], secs[a.sector], a.pos, key);
      OnlyHit(key, a);
    }

    /** The rest of a set once there is room and the old record, if any, is known. */
    method Replace(i: nat, old_: Option<Address>, key: Bytes, value: Bytes) returns (error: Error)
      requires Valid() && Reserved(State(), i, RecordSize(key, value))
      requires old_.Some? ==> |key| <= NAME_MAX && WrittenUnder(State(), old_.value, NameCrc(key))
      modifies this`secs, this`oldest, this`gcRequest, this`lastIsCompleteDel, this`tainted
      modifies kvCache.nodes, sectorCache.infos, flash.sectors
      ensures Valid() && tainted == old(tainted)
      ensures State() == KvStore.Replace(old(State()), i, old_, key, value).db
      ensures error == KvStore.Replace(old(State()), i, old_, key, value).error
      ensures error == NoError ==> Remembers(key, value, Address(i, |old(secs[i].recs)|))
    {
      hide SectorsCached, NamesCached, NamesCachedExcept, Sound, Reserved, WrittenUnder, MarkRecord,
        KvStore.CreateKv, Collect, Db.Remain, Db.RecordAt, Knows, OnFlash;
      SectorsOnFlash();
      ReplaceInSteps(State(), i, old_, key, value);
      if old_.Some? {
        PrepareReplace(old_.value, key);
      } else {
        AnyNameCached(key);
      }
      error := CreateKv(i, key, value);
      if old_.Some? && error == NoError {
        FinishReplace(old_.value, key, value, Address(i, |old(secs[i].recs)|));
      }
      CollectIfRequested(RecordSize(key, value));
    }

    method PrepareReplace(a: Address, key: Bytes)
      requires SectorsCached() && NamesCached() && WrittenUnder(State(), a, NameCrc(key))
      modifies this`secs, this`lastIsCompleteDel, sectorCache.infos, flash.sectors
      ensures SectorsCached() && NamesCachedExcept(key) && lastIsCompleteDel
      ensures State() == MarkRecord(old(State()), a, PreDelete)
    {
      hide SectorsCached, NamesCached, PointsExcept, MarkRecord, NameCrc, KvCache.Valid, OnFlash;
      SectorsOnFlash();
      PrepareDelete(a);
    }

    /** Delete the old record of a set; the new one stays remembered. */
    method FinishReplace(a: Address, key: Bytes, value: Bytes, ghost new_: Address)
      requires SectorsCached() && NamesCached() && lastIsCompleteDel
      requires State().HasRecord(a) && State().RecordAt(a).status == PreDelete && Remembers(key, value, new_)
      modifies this`secs, this`lastIsCompleteDel, kvCache.nodes, sectorCache.infos, flash.sectors
      ensures SectorsCached() && NamesCached() && !lastIsCompleteDel
      ensures State() == MarkRecord(old(State()), a, Deleted) && Remembers(key, value, new_)
    {
      hide SectorsCached, NamesCached, NameCrc, Knows;
      SectorsOnFlash();
      CompleteDelete(a, key);
    }

    lemma AnyNameCached(key: Bytes)
      requires NamesCached()
      ensures NamesCachedExcept(key)
    {
      hide PointsExcept, NameCrc, KvCache.Valid;
      PointsWeaker(kvCache.nodes[..], State(), tainted, NameCrc(key));
    }

    /** The flash stands for the map `m`, and neither a key of it nor a name of the maximal length can be
        mistaken for the key. */
    ghost predicate Faithful(m: map<Bytes, Bytes>, key: Bytes)
      reads this`secs, this`oldest, this`gcRequest
    {
      Represents(LiveOf(secs), m) && Unmistakable(m, key) && Every(State(), ApartFromLong(key))
    }

    /** Then the cache is not fooled. */
    lemma NoFalseHit(key: Bytes, m: map<Bytes, Bytes>)
      requires OnFlash() && NamesCached() && NameCrc(key) !in tainted && Faithful(m, key)
      ensures !FalseHit(key)
    {
      hide NameCrc, LiveOf, Represents, KvFlash.HoldsAll, PointsExcept, Mistakable, Every, Knows, Start,
        StartsWithKey, FirstOfCrc;
      if FalseHit(key) {
        var a :| Hits(key, a) && State().RecordAt(a).name != key;
        HitIsWritten(key, a);
        HitIsMistakable(key, a);
        RecordHas(State(), a, ApartFromLong(key));
        if |State().RecordAt(a).name| < NAME_MAX {
          WrittenIsInMap(State(), a, m);
        }
      }
    }

    lemma HitIsMistakable(key: Bytes, a: Address)
      requires OnFlash() && Hits(key, a) && WrittenUnder(State(), a, NameCrc(key)) && State().RecordAt(a).name != key
      ensures Mistakable(State().RecordAt(a).name, key)
    {
      hide NameCrc, HoldsSector, Knows, Start, StartsWithKey, Mistakable;
      PrefixIsMistakable(flash.sectors[a.sector][..], secs[a.sector], a.pos, key);
    }

    /** Find a key for a set, a delete or a get. */
    method Lookup(key: Bytes, ghost m: map<Bytes, Bytes>) returns (r: Option<Address>)
      requires Valid() && NameCrc(key) !in tainted
      modifies kvCache.nodes, sectorCache.infos, flash.sectors
      ensures Valid() && (r.Some? ==> |key| <= NAME_MAX && WrittenUnder(State(), r.value, NameCrc(key)))
      ensures forall a :: old(OnFlash() && Hits(key, a)) ==> r == Some(a)
      ensures Faithful(m, key) ==>
                && (|key| != NAME_MAX || Every(State(), OtherName(key)) ==> r == Find(State(), key))
                && (|key| == NAME_MAX && r.Some? ==> State().RecordAt(r.value).name == key)
    {
      hide SectorsCached, NamesCached, OnFlash, Idle, Represents, LiveOf, Unmistakable, Find, UniqueName, Hits,
        NameCrc, Every;
      SectorsOnFlash();
      if Faithful(m, key) {
        RepresentedNamesAreUnique(State(), m, key);
        NoFalseHit(key, m);
      }
      r := FindKv(key);
      if |key| == NAME_MAX && r.Some? && Every(State(), OtherName(key)) {
        RecordHas(State(), r.value, OtherName(key));
      }
    }

    /** Nothing the cache knows about the key is in doubt, or becomes so in making room for a record. */
    ghost predicate Trusted(key: Bytes, size: nat)
      requires oldest < |secs|
      reads this
    {
      NameCrc(key) !in tainted && (Safe(NameCrc(key)) || Alloc(State(), size).sector.Some?)
    }

    /** Find the old record of a key and replace it. */
    method SetInRoom(i: nat, key: Bytes, value: Bytes, ghost m: map<Bytes, Bytes>) returns (error: Error)
      requires Valid() && Reserved(State(), i, RecordSize(key, value)) && NameCrc(key) !in tainted
      modifies this`secs, this`oldest, this`gcRequest, this`lastIsCompleteDel, this`tainted
      modifies kvCache.nodes, sectorCache.infos, flash.sectors
      ensures Valid() && tainted == old(tainted)
      ensures error == NoError ==> exists a :: Remembers(key, value, a)
      ensures old(Faithful(m, key)) ==>
                && error == KvStore.Replace(old(State()), i, Find(old(State()), key), key, value).error
                && Represents(LiveOf(secs), MapAfterSet(m, key, value, error))
                && (|key| != NAME_MAX || old(Every(State(), OtherName(key))) ==>
                      State() == KvStore.Replace(old(State()), i, Find(old(State()), key), key, value).db)
      ensures forall c :: old(Safe(c)) && c !in Taint(key) ==> Safe(c)
    {
      hide SectorsCached, NamesCached, Idle, Represents, LiveOf, Unmistakable, Find, KvStore.Replace, Reserved,
        RecordSize, Remembers, NameCrc, Every, Taint, OnFlash;
      SectorsOnFlash();
      ReservedSector(State(), i, RecordSize(key, value));
      ghost var db := State();
      assert forall c :: old(Safe(c)) ==> Every(Db(0, db.secs, 0, false, false), SparesCrc(c));
      if Represents(LiveOf(secs), m) {
        SetInReservedRoom(db, i, key, value, m);
      }
      var found := Lookup(key, m);
      if Represents(LiveOf(secs), m) && |key| == NAME_MAX && (found.Some? ==> db.RecordAt(found.value).name == key) {
        LongSet(db, i, found, key, value, m);
      }
      error := Replace(i, found, key, value);
      forall c | old(Safe(c)) && c !in Taint(key) ensures Safe(c) {
        SameSectorsKeepEvery(Db(0, db.secs, 0, false, false), db, SparesCrc(c));
        ReplaceSpares(db, i, found, key, value, c);
        SameSectorsKeepEvery(State(), Db(0, secs, 0, false, false), SparesCrc(c));
      }
    }

    /** Making room for a set leaves all that is needed to find the old record. */
    lemma RoomKeepsNames(key: Bytes, size: nat, m: map<Bytes, Bytes>)
      requires Idle(State())
      ensures oldest < |secs|
      ensures var db := NewKv(State(), size).db;
              && (Represents(LiveOf(secs), m) ==> Represents(LiveOf(db.secs), m))
              && (Every(State(), ApartFromLong(key)) ==> Every(db, ApartFromLong(key)))
              && (Every(State(), OtherName(key)) ==> Every(db, OtherName(key)))
    {
      hide NewKv, Every, LiveOf, Represents, CountStore, Stable, NameCrc;
      NewKvLosesNothing(State(), size);
      ApartIsStable(key);
      OtherIsStable(key);
      if Every(State(), ApartFromLong(key)) {
        NewKvKeepsEvery(State(), size, ApartFromLong(key));
      }
      if Every(State(), OtherName(key)) {
        NewKvKeepsEvery(State(), size, OtherName(key));
      }
    }

    /** Set a key. Whatever happens, the database, its caches and its flash stay in order, and a key that was set
        is remembered. Unless the name can be mistaken for another one, the outcome is that of a set without
        caches; for a key of the maximal length, its remembered record is replaced. */
    method Set(key: Bytes, value: Bytes, ghost m: map<Bytes, Bytes>) returns (error: Error)
      requires Valid() && Trusted(key, RecordSize(key, value))
      modifies this`secs, this`oldest, this`gcRequest, this`lastIsCompleteDel, this`tainted
      modifies kvCache.nodes, sectorCache.infos, flash.sectors
      ensures Valid() && NameCrc(key) !in tainted
      ensures error == NoError ==> exists a :: Remembers(key, value, a)
      ensures old(Faithful(m, key)) ==>
                && error == SetKv(old(State()), key, value).error
                && Represents(LiveOf(secs), MapAfterSet(m, key, value, error))
                && (|key| != NAME_MAX || old(Every(State(), OtherName(key))) ==>
                      State() == SetKv(old(State()), key, value).db)
      ensures forall c :: old(Safe(c)) && c !in Taint(key) ==> Safe(c)
    {
      hide SectorsCached, NamesCached, Idle, Represents, LiveOf, Unmistakable, NewKv, Find, KvStore.Replace, Reserved,
        RecordSize, Remembers, NameCrc, Alloc, Every, Taint, OnFlash;
      SectorsOnFlash();
      NewKvLosesNothing(State(), RecordSize(key, value));
      RoomKeepsNames(key, RecordSize(key, value), m);
      var i := MakeRoom(RecordSize(key, value));
      if i.None? {
        return SavedFull;
      }
      error := SetInRoom(i.value, key, value, m);
    }

    /** Delete a key. */
    method Delete(key: Bytes, ghost m: map<Bytes, Bytes>) returns (error: Error)
      requires Valid() && NameCrc(key) !in tainted
      modifies this`secs, this`lastIsCompleteDel, kvCache.nodes, sectorCache.infos, flash.sectors
      ensures Valid()
      ensures old(Faithful(m, key)) ==>
                && Represents(LiveOf(secs), m - {key})
                && (|key| != NAME_MAX || old(Every(State(), OtherName(key))) ==>
                      State() == DelKv(old(State()), key).db && error == DelKv(old(State()), key).error)
      ensures forall c :: old(Safe(c)) ==> Safe(c)
    {
      hide SectorsCached, NamesCached, Idle, Represents, LiveOf, Unmistakable, Find, MarkRecord, NameCrc;
      SectorsOnFlash();
      ghost var db := State();
      if Represents(LiveOf(secs), m) {
        DelRefines(db, key, m);
      }
      var found := Lookup(key, m);
      match found
      case None => error := NameError;
      case Some(a) =>
        DeletedIsIdle(db, a);
        if Represents(LiveOf(secs), m) && |key| == NAME_MAX && db.RecordAt(a).name == key {
          LongDelete(db, a, key, m);
        }
        CompleteDelete(a, key);
        error := NoError;
        forall c | old(Safe(c)) ensures Safe(c) {
          MarkSpares(db, a, Deleted, c);
        }
    }

    method ReadValue(a: Address) returns (value: Bytes)
      requires SectorsCached() && NamesCached() && State().HasRecord(a)
      modifies flash.sectors
      ensures SectorsCached() && NamesCached() && value == State().RecordAt(a).value
    {
      hide KvFlash.HoldsAll, AllAgree, PointsExcept, KvCache.Valid, Start;
      value := flash.ReadValue(a.sector, a.pos, Start(secs[a.sector].recs, a.pos), secs);
    }

    /** Get the value of a key: that of the map, if the name cannot be mistaken for another one; and for a key of
        any length the one last set, while the cache has its record. */
    method Get(key: Bytes, ghost m: map<Bytes, Bytes>) returns (value: Option<Bytes>)
      requires Valid() && NameCrc(key) !in tainted
      modifies kvCache.nodes, sectorCache.infos, flash.sectors
      ensures Valid()
      ensures Faithful(m, key) && (|key| != NAME_MAX || Every(State(), OtherName(key))) ==>
                value == if key in m then Some(m[key]) else None
      ensures forall v, a :: old(Remembers(key, v, a)) ==> value == Some(v)
    {
      hide SectorsCached, NamesCached, Idle, Represents, LiveOf, Unmistakable, Find, Steady, NameCrc, OnFlash, Every,
        Knows;
      SectorsOnFlash();
      IdleIsSteady(State());
      if Represents(LiveOf(secs), m) {
        GetRefines(State(), key, m);
      }
      forall v, a | Remembers(key, v, a) ensures Hits(key, a) {
        RememberedHits(key, v, a);
      }
      var found := Lookup(key, m);
      match found
      case None => value := None;
      case Some(a) =>
        var v := ReadValue(a);
        value := Some(v);
    }
  }

  // ---- What the loops of collection need ----

  function Marked(db: Db, x: nat): Db
    requires x < |db.secs|
  {
    db.SetSector(x, db.secs[x].(dirty := Collecting))
  }

  lemma StartIsRoomy(db: Db, x: nat)
    requires Sound(db) && db.gcRequest && x < |db.secs| && db.secs[x].dirty == Dirty
    ensures CollectingAt(Marked(db, x), x) && Untouched(Marked(db, x), x, 0)
    ensures Room(Marked(db, x), x, 0, CountStore(db.secs, Empty))
    ensures Marked(db, x).oldest < |Marked(db, x).secs| == |db.secs|
    ensures |Marked(db, x).secs[x].recs| == |db.secs[x].recs|
  {
    hide CountStore, UsedBytes;
    CountStoreUpdate(db.secs, x, Marked(db, x).secs[x], Empty);
  }

  /** One turn of the loop over the records of the collected sector. */
  lemma MoveRecordsStep(db: Db, x: nat, j: nat, empties: nat)
    requires CollectingAt(db, x) && Untouched(db, x, j) && Room(db, x, j, empties) && j < |db.secs[x].recs|
    ensures db.oldest < |db.secs|
    ensures var n := |db.secs[x].recs|;
            var db' := if db.secs[x].recs[j].Movable() then Move(db, Address(x, j)).db else db;
            && x < |db'.secs| && |db'.secs[x].recs| == n && db'.oldest < |db'.secs|
            && CollectingAt(db', x) && Untouched(db', x, j + 1) && Room(db', x, j + 1, empties)
            && MoveRecords(db', x, j + 1, n).db == MoveRecords(db, x, j, n).db
    ensures db.HasRecord(Address(x, j)) && db.RecordAt(Address(x, j)) == db.secs[x].recs[j]
  {
    hide LiveOf, LiveIn, CountStore, UsedBytes, FirstFit, Move, Room;
    if db.secs[x].recs[j].Movable() {
      MoveWhileCollecting(db, x, j, empties);
    } else {
      RoomGrows(db, x, j, empties);
    }
  }

  lemma MoveRecordsDone(db: Db, x: nat, n: nat)
    requires db.oldest < |db.secs| && x < |db.secs| && n == |db.secs[x].recs| && Untouched(db, x, n)
    ensures MoveRecords(db, x, n, n).db == db
    ensures forall j :: 0 <= j < n ==> db.secs[x].recs[j].status != Written
  {
  }

  /** One turn of the loop over the sectors. */
  lemma CollectFromStep(db: Db, first: nat, k: nat, last: nat, wanted: nat)
    requires Sound(db) && db.gcRequest && first < |db.secs| && k < |db.secs| && last < |db.secs|
    ensures var x := db.(oldest := first).SectorAt(k);
            var c := CollectSector(db, x).db;
            && db.secs[x].dirty != Collecting && |c.secs| == |db.secs| && c.oldest < |c.secs|
            && (db.secs[x].dirty == Dirty ==> Sound(c) && c.gcRequest)
            && CollectFrom(db, first, k, last, wanted).db ==
               if db.secs[x].dirty != Dirty then CollectFrom(db, first, k + 1, last, wanted).db
               else if c.Remain(last) > wanted then c
               else CollectFrom(c, first, k + 1, x, wanted).db
  {
    hide LiveOf, CountStore, CollectSector, SectorSound, Settled;
    var x := db.(oldest := first).SectorAt(k);
    if db.secs[x].dirty == Dirty {
      CollectSectorLosesNothing(db, x);
    }
  }

  lemma CollectFromDone(db: Db, first: nat, last: nat, wanted: nat)
    requires db.oldest < |db.secs| && first < |db.secs| && last < |db.secs|
    ensures CollectFrom(db, first, |db.secs|, last, wanted).db == db
  {
  }

  lemma LastEmptyStep(db: Db, k: nat, last: nat)
    requires db.oldest < |db.secs| && k < |db.secs| && last < |db.secs|
    ensures var here := db.secs[db.SectorAt(k)].store == Empty;
            && LastEmpty(db, k, last) == LastEmpty(db, k + 1, if here then db.SectorAt(k) else last)
            && CountStore(ScanOrder(db)[..k + 1], Empty)
                == CountStore(ScanOrder(db)[..k], Empty) + (if here then 1 else 0)
  {
    CountStoreNext(ScanOrder(db), k, Empty);
  }

  lemma LastEmptyEnds(db: Db, last: nat)
    requires db.oldest < |db.secs| && last < |db.secs|
    ensures LastEmpty(db, |db.secs|, last) == last
    ensures CountStore(ScanOrder(db)[..|db.secs|], Empty) == CountStore(db.secs, Empty)
  {
    assert ScanOrder(db)[..|db.secs|] == ScanOrder(db);
    CountInScanOrder(db, Empty);
  }

  lemma RequestIsSound(db: Db, size: nat)
    requires Idle(db)
    ensures db.oldest < |db.secs| && Sound(Alloc(db, size).db)
    ensures Alloc(db, size).sector.Some? ==> Alloc(db, size).db == db
  {
    hide CountStore, FirstFit, SectorSound;
  }

  lemma DeletedIsIdle(db: Db, a: Address)
    requires Idle(db) && db.HasRecord(a) && db.RecordAt(a).crcOk
    ensures Idle(MarkRecord(db, a, Deleted))
  {
    hide LiveOf, LiveIn, CountStore, UsedBytes, MarkRecord, Settled;
    DeleteEffect(db, a);
  }

  lemma IdleIsSteady(db: Db)
    requires Idle(db)
    ensures Steady(db) && db.oldest < |db.secs|
  {
  }

  /** What holds between the steps of a set into reserved room. */
  lemma ReplaceInSteps(db: Db, i: nat, old_: Option<Address>, key: Bytes, value: Bytes)
    requires Idle(db) && Reserved(db, i, RecordSize(key, value))
    requires old_.Some? ==> |key| <= NAME_MAX && WrittenUnder(db, old_.value, NameCrc(key))
    ensures old_.Some? ==> db.HasRecord(old_.value)
    ensures var prepared := if old_.Some? then MarkRecord(db, old_.value, PreDelete) else db;
            var created := CreateKv(prepared, i, key, value);
            && i < |prepared.secs| && prepared.Remain(i) > RecordSize(key, value) + REMAIN_THRESHOLD
            && |prepared.secs[i].recs| == |db.secs[i].recs|
            && (old_.Some? ==> && created.error == NoError && created.db.HasRecord(old_.value)
                               && created.db.RecordAt(old_.value).status == PreDelete)
            && Sound(if old_.Some? then MarkRecord(created.db, old_.value, Deleted) else created.db)
  {
    hide LiveOf, LiveIn, CountStore, UsedBytes, MarkRecord, AppendRecord, NameCrc, Settled;
    var kv := Record(Written, true, key, value);
    SettledPointwise(db);
    if |key| > NAME_MAX {
    } else if old_.None? {
      AppendKeepsSteady(db, i, kv);
      SteadyAndSettled(AppendRecord(db, i, kv));
    } else {
      var a := old_.value;
      var prepared := MarkRecord(db, a, PreDelete);
      MarkKeepsSteady(db, a, PreDelete);
      SameCount(db, prepared, a, i);
      AppendKeepsSteady(prepared, i, kv);
      var created := AppendRecord(prepared, i, kv);
      MarkKeepsSteady(created, a, Deleted);
      SteadyAndSettled(MarkRecord(created, a, Deleted));
    }
  }

  lemma SameCount(db: Db, db': Db, a: Address, i: nat)
    requires db.HasRecord(a) && db' == MarkRecord(db, a, PreDelete) && i < |db.secs|
    ensures |db'.secs[i].recs| == |db.secs[i].recs|
  {
  }

  lemma ReservedSector(db: Db, i: nat, size: nat)
    requires Reserved(db, i, size)
    ensures i < |db.secs|
  {
  }

  lemma NextInScan(db: Db, first: nat, k: nat)
    requires first < |db.secs| && k < |db.secs|
    ensures k + 1 < |db.secs| ==>
              db.(oldest := first).SectorAt(k + 1) == db.NextSector(db.(oldest := first).SectorAt(k))
  {
  }

  lemma CanHoldMeans(db: Db, i: nat, size: nat)
    requires i < |db.secs| && CanHold(db, i, size)
    ensures db.Remain(i) > size + REMAIN_THRESHOLD
  {
  }

  /** A sector with room for a record does not become full by it. */
  lemma RoomLeft(db: Db, i: nat, size: nat)
    requires i < |db.secs| && db.Remain(i) > size + REMAIN_THRESHOLD
    ensures !(db.secs[i].store == Using && StoreAfter(db, i, size) == Full)
  {
  }
}
