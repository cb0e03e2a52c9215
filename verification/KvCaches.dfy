/** The two caches of the key-value database: record addresses by the checksum of the name, and sector
    information by sector. */
module KvCaches {
  import opened KvStore
  import opened Crc32
  import opened Wrappers

  const KV_CACHE_TABLE_SIZE: nat := 64
  const SECTOR_CACHE_TABLE_SIZE: nat := 8
  const ACTIVE_MAX: nat := 0xFFFF

  /** Sixteen bits of the checksum of a name. */
  function NameCrc(name: Bytes): bv32 { Crc(0, name) >> 16 }

  // ---- Record addresses ----

  datatype CacheNode = CacheNode(crc: bv32, addr: Option<Address>, active: nat)

  /** A node in use is the first with its checksum. */
  ghost predicate FirstOfCrc(nodes: seq<CacheNode>) {
    forall i, j :: 0 <= i < j < |nodes| && nodes[j].addr.Some? ==> nodes[i].crc != nodes[j].crc
  }

  /** Only the activity of nodes has changed. */
  ghost predicate SameEntries(old_: seq<CacheNode>, new_: seq<CacheNode>) {
    |old_| == |new_| && forall j :: 0 <= j < |new_| ==> new_[j].crc == old_[j].crc && new_[j].addr == old_[j].addr
  }

  /** The table has lost what it knew about a checksum, and nothing else was added. */
  ghost predicate Forgets(old_: seq<CacheNode>, new_: seq<CacheNode>, crc: bv32) {
    && |old_| == |new_| && FirstOfCrc(new_)
    && forall j :: 0 <= j < |new_| && new_[j].addr.Some? ==>
         new_[j].crc != crc && new_[j].crc == old_[j].crc && new_[j].addr == old_[j].addr
  }

  /** The activity of a node is a number of sixteen bits. */
  ghost predicate ActiveFits(nodes: seq<CacheNode>) {
    forall j :: 0 <= j < |nodes| ==> nodes[j].active <= ACTIVE_MAX
  }

  ghost predicate Knows(nodes: seq<CacheNode>, crc: bv32, a: Address) {
    exists j :: 0 <= j < |nodes| && nodes[j].crc == crc && nodes[j].addr == Some(a)
  }

  /** A table knows one address for a checksum at most. */
  lemma KnowsOne(nodes: seq<CacheNode>, crc: bv32, a: Address, b: Address)
    requires FirstOfCrc(nodes) && Knows(nodes, crc, a) && Knows(nodes, crc, b)
    ensures a == b
  {
  }

  /** The table knows the new address for the checksum, and only that; the rest it knew before. */
  ghost predicate Learns(old_: seq<CacheNode>, new_: seq<CacheNode>, crc: bv32, a: Address) {
    && |old_| == |new_| && FirstOfCrc(new_) && Knows(new_, crc, a)
    && forall j :: 0 <= j < |new_| && new_[j].addr.Some? ==>
         || (new_[j].crc == crc && new_[j].addr == Some(a))
         || (new_[j].crc != crc && new_[j].crc == old_[j].crc && new_[j].addr == old_[j].addr)
  }

  /** What an update does to a node in use that it passes. */
  function Decayed(n: CacheNode): CacheNode {
    if n.addr.Some? && n.active > 0 then n.(active := n.active - 1) else n
  }

  function DecayedUpTo(nodes: seq<CacheNode>, i: int): (d: seq<CacheNode>)
    ensures |d| == |nodes| && forall j :: 0 <= j < |d| ==> d[j] == if j < i then Decayed(nodes[j]) else nodes[j]
  {
    seq(|nodes|, j requires 0 <= j < |nodes| => if j < i then Decayed(nodes[j]) else nodes[j])
  }

  /** Node `i` is the first with this checksum. */
  ghost predicate FirstWith(nodes: seq<CacheNode>, crc: bv32, i: int) {
    0 <= i < |nodes| && nodes[i].crc == crc && forall j :: 0 <= j < i ==> nodes[j].crc != crc
  }

  /** The node for a new checksum: the first unused one; if there is none, the first of the least active ones. */
  ghost predicate GivenUp(nodes: seq<CacheNode>, i: int) {
    && 0 <= i < |nodes|
    && if nodes[i].addr.None? then forall j :: 0 <= j < i ==> nodes[j].addr.Some?
       else
         && (forall j :: 0 <= j < |nodes| ==> nodes[j].addr.Some? && nodes[i].active <= nodes[j].active)
         && (forall j :: 0 <= j < i ==> nodes[i].active < nodes[j].active)
  }

  /** An update: a checksum in the table gets the new address, and only nodes before it age; for another one all
      nodes in use age, and one node is given up for it. */
  ghost predicate Updates(old_: seq<CacheNode>, new_: seq<CacheNode>, crc: bv32, a: Address) {
    || (exists i :: FirstWith(old_, crc, i)
                    && new_ == DecayedUpTo(old_, i)[i := CacheNode(crc, Some(a), old_[i].active)])
    || ((forall j :: 0 <= j < |old_| ==> old_[j].crc != crc)
        && var d := DecayedUpTo(old_, |old_|);
           exists i :: GivenUp(d, i) && new_ == d[i := CacheNode(crc, Some(a), KV_CACHE_TABLE_SIZE)])
  }

  /** A hit makes its node more active. */
  function Activated(n: CacheNode): CacheNode {
    n.(active := if n.active >= ACTIVE_MAX - KV_CACHE_TABLE_SIZE then ACTIVE_MAX else n.active + KV_CACHE_TABLE_SIZE)
  }

  ghost predicate HitActivates(old_: seq<CacheNode>, new_: seq<CacheNode>, crc: bv32, a: Address) {
    exists i :: 0 <= i < |old_| && old_[i].crc == crc && old_[i].addr == Some(a)
                && new_ == old_[i := Activated(old_[i])]
  }

  /** While an update scans the table: the first unused and the first least active node in use so far. */
  ghost predicate Scanned(d: seq<CacheNode>, i: nat, emptyIndex: nat, minIndex: nat, minActivity: nat)
    requires i <= |d|
  {
    && (if emptyIndex < |d| then emptyIndex < i && d[emptyIndex].addr.None?
                                  && forall j :: 0 <= j < emptyIndex ==> d[j].addr.Some?
        else emptyIndex == |d| && forall j :: 0 <= j < i ==> d[j].addr.Some?)
    && (if minIndex < |d| then minIndex < i && d[minIndex].addr.Some? && minActivity == d[minIndex].active
                               && (forall j :: 0 <= j < minIndex && d[j].addr.Some? ==> minActivity < d[j].active)
        else minIndex == |d| && minActivity == ACTIVE_MAX && forall j :: 0 <= j < i ==> d[j].addr.None?)
    && (forall j :: 0 <= j < i && d[j].addr.Some? ==> minActivity <= d[j].active < ACTIVE_MAX)
  }

  lemma ScanNext(d: seq<CacheNode>, i: nat, emptyIndex: nat, minIndex: nat, minActivity: nat)
    requires i < |d| && d[i].active <= ACTIVE_MAX && Scanned(d, i, emptyIndex, minIndex, minActivity)
    ensures var n := Decayed(d[i]);
            var less := n.addr.Some? && n.active < minActivity;
            Scanned(d[i := n], i + 1, if n.addr.None? && emptyIndex == |d| then i else emptyIndex,
                    if less then i else minIndex, if less then n.active else minActivity)
  {
  }

  lemma HitUpdates(old_: seq<CacheNode>, new_: seq<CacheNode>, crc: bv32, a: Address, i: nat)
    requires FirstWith(old_, crc, i) && new_ == DecayedUpTo(old_, i)[i := CacheNode(crc, Some(a), old_[i].active)]
    ensures Updates(old_, new_, crc, a)
  {
  }

  lemma MissUpdates(old_: seq<CacheNode>, new_: seq<CacheNode>, crc: bv32, a: Address, i: nat)
    requires forall j :: 0 <= j < |old_| ==> old_[j].crc != crc
    requires var d := DecayedUpTo(old_, |old_|);
             GivenUp(d, i) && new_ == d[i := CacheNode(crc, Some(a), KV_CACHE_TABLE_SIZE)]
    ensures Updates(old_, new_, crc, a)
  {
  }

  lemma ScanChooses(d: seq<CacheNode>, emptyIndex: nat, minIndex: nat, minActivity: nat)
    requires d != [] && Scanned(d, |d|, emptyIndex, minIndex, minActivity)
    ensures if emptyIndex < |d| then GivenUp(d, emptyIndex) else minIndex < |d| && GivenUp(d, minIndex)
  {
    assert minIndex == |d| ==> d[0].addr.None?;
  }

  lemma ScanStarts(d: seq<CacheNode>)
    ensures Scanned(d, 0, |d|, |d|, ACTIVE_MAX) && d == DecayedUpTo(d, 0)
  {
  }

  class KvCache {
    const nodes: array<CacheNode>

    ghost predicate Valid()
      reads nodes
    {
      nodes.Length == KV_CACHE_TABLE_SIZE && FirstOfCrc(nodes[..]) && ActiveFits(nodes[..])
    }

    constructor ()
      ensures Valid() && fresh(nodes)
      ensures forall j :: 0 <= j < nodes.Length ==> nodes[j].addr.None?
    {
      nodes := new CacheNode[KV_CACHE_TABLE_SIZE](_ => CacheNode(0, None, 0));
    }

    /** Forget the address of a name. */
    method Remove(name: Bytes)
      requires Valid()
      modifies nodes
      ensures Valid() && Forgets(old(nodes[..]), nodes[..], NameCrc(name))
      ensures forall i :: FirstWith(old(nodes[..]), NameCrc(name), i) ==>
                nodes[..] == old(nodes[..])[i := old(nodes[i]).(addr := None, active := 0)]
      ensures (forall j :: 0 <= j < nodes.Length ==> old(nodes[j]).crc != NameCrc(name)) ==> nodes[..] == old(nodes[..])
    {
      hide NameCrc;
      var crc := NameCrc(name);
      for i := 0 to KV_CACHE_TABLE_SIZE
        invariant nodes[..] == old(nodes[..])
        invariant forall j :: 0 <= j < i ==> nodes[j].crc != crc
      {
        if nodes[i].crc == crc {
          nodes[i] := nodes[i].(addr := None, active := 0);
          return;
        }
      }
    }

    /** Remember the address of a name: in the node of its checksum, else in the first unused node, else in
        the least active one. */
    method Update(name: Bytes, a: Address)
      requires Valid()
      modifies nodes
      ensures Valid() && Learns(old(nodes[..]), nodes[..], NameCrc(name), a)
      ensures Updates(old(nodes[..]), nodes[..], NameCrc(name), a)
    {
      hide NameCrc, Learns, Updates, Scanned, GivenUp, FirstOfCrc;
      var crc := NameCrc(name);
      var emptyIndex: nat, minIndex: nat, minActivity := KV_CACHE_TABLE_SIZE, KV_CACHE_TABLE_SIZE, ACTIVE_MAX;
      ghost var before := nodes[..];
      ScanStarts(before);
      for i := 0 to KV_CACHE_TABLE_SIZE
        invariant nodes[..] == DecayedUpTo(before, i) && ActiveFits(nodes[..])
        invariant forall j :: 0 <= j < i ==> nodes[j].crc != crc
        invariant Scanned(nodes[..], i, emptyIndex, minIndex, minActivity)
      {
        ghost var d, e, m, least := nodes[..], emptyIndex, minIndex, minActivity;
        if nodes[i].crc == crc {
          SameFirst(before, d);
          Place(i, crc, a, nodes[i].active);
          SameClaims(before, d, nodes[..], crc, a);
          HitUpdates(before, nodes[..], crc, a, i);
          return;
        } else if nodes[i].addr.None? && emptyIndex == KV_CACHE_TABLE_SIZE {
          emptyIndex := i;
        } else if nodes[i].addr.Some? {
          if nodes[i].active > 0 {
            nodes[i] := nodes[i].(active := nodes[i].active - 1);
          }
          if nodes[i].active < minActivity {
            minIndex, minActivity := i, nodes[i].active;
          }
        }
        assert nodes[..] == d[i := Decayed(d[i])];
        ScanNext(d, i, e, m, least);
      }
      ghost var mid := nodes[..];
      SameFirst(before, mid);
      ScanChooses(mid, emptyIndex, minIndex, minActivity);
      if emptyIndex < KV_CACHE_TABLE_SIZE {
        Place(emptyIndex, crc, a, KV_CACHE_TABLE_SIZE);
      } else if minIndex < KV_CACHE_TABLE_SIZE {
        Place(minIndex, crc, a, KV_CACHE_TABLE_SIZE);
      }
      SameClaims(before, mid, nodes[..], crc, a);
      MissUpdates(before, nodes[..], crc, a, if emptyIndex < KV_CACHE_TABLE_SIZE then emptyIndex else minIndex);
    }

    /** Give a node to a checksum that no other node in use has. */
    method Place(i: nat, crc: bv32, a: Address, active: nat)
      requires Valid() && i < KV_CACHE_TABLE_SIZE && active <= ACTIVE_MAX
      requires forall j :: 0 <= j < i ==> nodes[j].crc != crc
      requires forall j :: i < j < KV_CACHE_TABLE_SIZE && nodes[j].addr.Some? ==> nodes[j].crc != crc
      modifies nodes
      ensures Valid() && Learns(old(nodes[..]), nodes[..], crc, a)
      ensures nodes[..] == old(nodes[..])[i := CacheNode(crc, Some(a), active)]
    {
      nodes[i] := CacheNode(crc, Some(a), active);
      assert nodes[..][i].crc == crc;
    }
  }

  /** What a table claims depends on its entries only. */
  lemma SameClaims(old_: seq<CacheNode>, mid: seq<CacheNode>, new_: seq<CacheNode>, crc: bv32, a: Address)
    requires SameEntries(old_, mid) && Learns(mid, new_, crc, a)
    ensures Learns(old_, new_, crc, a)
  {
  }

  lemma SameFirst(old_: seq<CacheNode>, mid: seq<CacheNode>)
    requires SameEntries(old_, mid) && FirstOfCrc(old_)
    ensures FirstOfCrc(mid)
  {
  }

  // ---- Sector information ----

  /** What is cached about a sector; the free space is known only after its records were walked. */
  datatype SectorInfo = SectorInfo(sector: Option<nat>, store: StoreStatus, dirty: DirtyStatus, remain: Option<int>)

  /** Cached information agrees with the flash, except that the start of a collection is not cached. */
  ghost predicate Agrees(info: SectorInfo, db: Db) {
    info.sector.Some? ==>
      && info.sector.value < |db.secs|
      && info.store == db.secs[info.sector.value].store
      && (info.dirty == db.secs[info.sector.value].dirty
          || (info.dirty == Dirty && db.secs[info.sector.value].dirty == Collecting))
      && (info.remain.Some? ==> info.remain.value == db.Remain(info.sector.value))
  }

  ghost predicate DistinctSectors(infos: seq<SectorInfo>) {
    forall i, j :: 0 <= i < j < |infos| && infos[i].sector.Some? ==> infos[i].sector != infos[j].sector
  }

  ghost predicate AllAgree(infos: seq<SectorInfo>, db: Db) {
    DistinctSectors(infos) && forall i :: 0 <= i < |infos| ==> Agrees(infos[i], db)
  }

  ghost predicate TakesEntry(infos: seq<SectorInfo>, sector: Option<nat>, i: nat)
    requires i < |infos|
  {
    || infos[i].sector == sector
    || (infos[i].sector == None
        && (forall j :: 0 <= j < |infos| ==> infos[j].sector != sector && (j > i ==> infos[j].sector.Some?)))
  }

  /** Only the entry of this sector has changed, if there is one: `f` says how. */
  ghost predicate ChangesEntry(old_: seq<SectorInfo>, new_: seq<SectorInfo>, sector: nat, f: SectorInfo -> SectorInfo) {
    && |new_| == |old_|
    && forall i :: 0 <= i < |old_| ==> new_[i] == if old_[i].sector == Some(sector) then f(old_[i]) else old_[i]
  }

  /** What was read about a sector has replaced its old entry, or else the last unused one, or all entries are those
      of other sectors and have stayed. */
  ghost predicate Stores(old_: seq<SectorInfo>, new_: seq<SectorInfo>, info: SectorInfo) {
    && |new_| == |old_|
    && if forall i :: 0 <= i < |old_| ==> old_[i].sector.Some? && old_[i].sector != info.sector then new_ == old_
       else exists i :: 0 <= i < |old_| && TakesEntry(old_, info.sector, i) && new_ == old_[i := info]
  }

  class SectorCache {
    const infos: array<SectorInfo>

    ghost predicate Shaped() { infos.Length == SECTOR_CACHE_TABLE_SIZE }

    constructor ()
      ensures Shaped() && fresh(infos)
      ensures forall i :: 0 <= i < infos.Length ==> infos[i].sector.None?
    {
      infos := new SectorInfo[SECTOR_CACHE_TABLE_SIZE](_ => SectorInfo(None, Empty, Clean, None));
    }

    /** The entry of a sector, or the table size. */
    method Find(sector: nat) returns (i: nat)
      requires Shaped()
      ensures i <= SECTOR_CACHE_TABLE_SIZE
      ensures i < SECTOR_CACHE_TABLE_SIZE ==> infos[i].sector == Some(sector)
      ensures i == SECTOR_CACHE_TABLE_SIZE ==> forall j :: 0 <= j < SECTOR_CACHE_TABLE_SIZE ==>
          infos[j].sector != Some(sector)
    {
      i := 0;
      while i < SECTOR_CACHE_TABLE_SIZE
        invariant i <= SECTOR_CACHE_TABLE_SIZE
        invariant forall j :: 0 <= j < i ==> infos[j].sector != Some(sector)
      {
        if infos[i].sector == Some(sector) {
          return;
        }
        i := i + 1;
      }
    }

    /** Store what was read about a sector: in its entry, else in an unused one, else not at all. */
    method Update(info: SectorInfo, ghost db: Db)
      requires Shaped() && AllAgree(infos[..], db)
      requires info.sector.Some? && Agrees(info, db)
      modifies infos
      ensures AllAgree(infos[..], db) && Stores(old(infos[..]), infos[..], info)
    {
      var emptyIndex: nat := SECTOR_CACHE_TABLE_SIZE;
      for i := 0 to SECTOR_CACHE_TABLE_SIZE
        invariant infos[..] == old(infos[..])
        invariant forall j :: 0 <= j < i ==> infos[j].sector != info.sector
        invariant emptyIndex == SECTOR_CACHE_TABLE_SIZE ==> forall j :: 0 <= j < i ==> infos[j].sector.Some?
        invariant emptyIndex <= SECTOR_CACHE_TABLE_SIZE
        invariant emptyIndex < SECTOR_CACHE_TABLE_SIZE ==> emptyIndex < i && infos[emptyIndex].sector.None?
        invariant forall j :: 0 <= j < i && emptyIndex < j ==> infos[j].sector.Some?
      {
        if infos[i].sector == info.sector {
          assert TakesEntry(infos[..], info.sector, i);
          infos[i] := info;
          return;
        } else if infos[i].sector.None? {
          emptyIndex := i;
        }
      }
      if emptyIndex < SECTOR_CACHE_TABLE_SIZE {
        assert TakesEntry(infos[..], info.sector, emptyIndex);
        infos[emptyIndex] := info;
      }
    }

    /** Forget a sector that is being erased; `db'` is the flash after the erase. */
    method Drop(sector: nat, ghost db: Db, ghost db': Db)
      requires Shaped() && AllAgree(infos[..], db)
      requires sector < |db.secs| == |db'.secs| && db'.secSize == db.secSize
      requires forall i :: 0 <= i < |db.secs| && i != sector ==> db'.secs[i] == db.secs[i]
      modifies infos
      ensures AllAgree(infos[..], db')
      ensures ChangesEntry(old(infos[..]), infos[..], sector, (info: SectorInfo) => info.(sector := None))
    {
      var i := Find(sector);
      if i < SECTOR_CACHE_TABLE_SIZE {
        infos[i] := infos[i].(sector := None);
      }
    }

    /** Bring the entry of a sector, if there is one, up to date after a change of that sector on flash:
        its store status, whether a deletion made it dirty, and its free space when that is known. */
    method Refresh(sector: nat, store: StoreStatus, nowDirty: bool, remain: Option<int>, ghost db: Db, ghost db': Db)
      requires Shaped() && AllAgree(infos[..], db)
      requires sector < |db.secs| == |db'.secs| && db'.secSize == db.secSize
      requires forall i :: 0 <= i < |db.secs| && i != sector ==> db'.secs[i] == db.secs[i]
      requires store == db'.secs[sector].store
      requires db'.secs[sector].dirty
          == (if nowDirty && db.secs[sector].dirty == Clean then Dirty else db.secs[sector].dirty)
      requires if remain.Some? then remain.value == db'.Remain(sector) else db'.Remain(sector) == db.Remain(sector)
      modifies infos
      ensures AllAgree(infos[..], db')
      ensures ChangesEntry(old(infos[..]), infos[..], sector,
                           (info: SectorInfo) =>
                             SectorInfo(info.sector, store,
                                        if nowDirty && info.dirty == Clean then Dirty else info.dirty,
                                        if remain.Some? then remain else info.remain))
    {
      var i := Find(sector);
      if i < SECTOR_CACHE_TABLE_SIZE {
        var info := infos[i];
        infos[i] := SectorInfo(info.sector, store,
                               if nowDirty && info.dirty == Clean then Dirty else info.dirty,
                               if remain.Some? then remain else info.remain);
      }
    }
  }
}
