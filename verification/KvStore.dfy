/** The key-value database at record granularity: sectors of records on flash, and what each operation
    does to them. A record's address is its sector and its position in that sector. */
module KvStore {
  import opened Wrappers

  type byte = bv8
  type Bytes = seq<byte>

  const SECTOR_HDR_SIZE: nat := 16
  const KV_HDR_SIZE: nat := 24
  const NAME_MAX: nat := 64
  const REMAIN_THRESHOLD: nat := KV_HDR_SIZE + NAME_MAX
  /** "KV00", the magic word of a record, as it lies on flash. */
  const MAGIC: Bytes := [0x4B, 0x56, 0x30, 0x30]

  const GC_EMPTY_SEC_THRESHOLD: nat := 1

  datatype KvStatus = Unused | PreWrite | Written | PreDelete | Deleted | ErrHdr
  datatype StoreStatus = Empty | Using | Full
  datatype DirtyStatus = Clean | Dirty | Collecting

  /** A record; `crcOk` says whether its checksum matches what is on flash. With status `Unused` it is no
      record, but the stray bytes, kept as its name, of a write that was cut short before the magic word was
      complete: they take space, and no read visits them. */
  datatype Record = Record(status: KvStatus, crcOk: bool, name: Bytes, value: Bytes) {
    function Len(): nat { if status == Unused then |name| else KV_HDR_SIZE + |name| + |value| }

    predicate Stray() { status == Unused }

    /** Garbage collection moves these. */
    predicate Movable() { crcOk && (status == Written || status == PreDelete) }

    /** A lookup stops at these: names of the maximal length are cut when read and never match. */
    predicate Matches(key: Bytes) {
      |key| == |name| && crcOk && status == Written && |key| < NAME_MAX && name == key
    }
  }

  datatype Sector = Sector(store: StoreStatus, dirty: DirtyStatus, recs: seq<Record>)

  const EMPTY_SECTOR: Sector := Sector(Empty, Clean, [])

  function UsedBytes(recs: seq<Record>): nat {
    if recs == [] then 0 else UsedBytes(recs[..|recs| - 1]) + recs[|recs| - 1].Len()
  }

  datatype Address = Address(sector: nat, pos: nat)

  /** The database: its flash, and the fields that decide where to look and when to collect. */
  datatype Db = Db(secSize: nat, secs: seq<Sector>, oldest: nat, gcRequest: bool, recovering: bool) {

    ghost predicate Shaped() {
      |secs| >= 2 && oldest < |secs| && secSize >= SECTOR_HDR_SIZE
    }

    /** The `k`-th sector in scan order: from the oldest one, around the end of the flash. */
    function SectorAt(k: nat): (i: nat)
      requires oldest < |secs| && k < |secs|
      ensures i < |secs|
    {
      if oldest + k < |secs| then oldest + k else oldest + k - |secs|
    }

    function NextSector(i: nat): (n: nat)
      requires i < |secs|
      ensures n < |secs|
    {
      if i + 1 < |secs| then i + 1 else 0
    }

    function Remain(i: nat): int
      requires i < |secs|
    {
      match secs[i].store
      case Empty => secSize - SECTOR_HDR_SIZE
      case Using => secSize - SECTOR_HDR_SIZE - UsedBytes(secs[i].recs)
      case Full => 0
    }

    predicate HasRecord(a: Address) {
      a.sector < |secs| && a.pos < |secs[a.sector].recs|
    }

    function RecordAt(a: Address): Record
      requires HasRecord(a)
    {
      secs[a.sector].recs[a.pos]
    }

    function SetSector(i: nat, s: Sector): Db
      requires i < |secs|
    {
      this.(secs := secs[i := s])
    }
  }

  // ---- Allocation ----

  predicate CanHold(db: Db, i: nat, size: nat)
    requires i < |db.secs|
  {
    && db.Remain(i) > size + REMAIN_THRESHOLD
    && (db.secs[i].dirty == Clean || (db.secs[i].dirty == Dirty && !db.gcRequest))
  }

  /** The first sector in scan order, from the `k`-th on, that has status `store` and can hold `size` bytes. */
  function FirstFit(db: Db, store: StoreStatus, size: nat, k: nat): (r: Option<nat>)
    requires db.oldest < |db.secs| && k <= |db.secs|
    ensures r.Some? ==> r.value < |db.secs| && db.secs[r.value].store == store && CanHold(db, r.value, size)
    decreases |db.secs| - k
  {
    if k == |db.secs| then None
    else if db.secs[db.SectorAt(k)].store == store && CanHold(db, db.SectorAt(k), size) then Some(db.SectorAt(k))
    else FirstFit(db, store, size, k + 1)
  }

  function CountStore(secs: seq<Sector>, store: StoreStatus): nat {
    if secs == [] then 0
    else CountStore(secs[..|secs| - 1], store) + (if secs[|secs| - 1].store == store then 1 else 0)
  }

  datatype Allocation = Allocation(db: Db, sector: Option<nat>)

  /** Find a sector for a record of `size` bytes: one in use if possible, else an empty one; the last
      empty sector is kept for collection, which is requested instead. */
  function Alloc(db: Db, size: nat): (r: Allocation)
    requires db.oldest < |db.secs|
    ensures r.db == db || (r.db == db.(gcRequest := true) && r.sector == None)
    ensures r.sector.Some? ==> r.sector.value < |db.secs|
  {
    var inUse := if CountStore(db.secs, Using) > 0 then FirstFit(db, Using, size, 0) else None;
    var empties := CountStore(db.secs, Empty);
    if empties > 0 && inUse == None then
      if empties > GC_EMPTY_SEC_THRESHOLD || db.gcRequest then Allocation(db, FirstFit(db, Empty, size, 0))
      else Allocation(db.(gcRequest := true), None)
    else Allocation(db, inUse)
  }

  // ---- Single changes on flash ----

  /** The status of a sector that is about to take a record of `size` bytes. */
  function StoreAfter(db: Db, i: nat, size: nat): StoreStatus
    requires i < |db.secs|
  {
    match db.secs[i].store
    case Empty => Using
    case Using =>
      if db.Remain(i) < REMAIN_THRESHOLD || db.Remain(i) - size < REMAIN_THRESHOLD then Full else Using
    case Full => Full
  }

  function AppendRecord(db: Db, i: nat, r: Record): (db': Db)
    requires i < |db.secs|
    ensures |db'.secs| == |db.secs|
    ensures forall a :: db.HasRecord(a) ==> db'.HasRecord(a)
  {
    db.SetSector(i, db.secs[i].(store := StoreAfter(db, i, r.Len()), recs := db.secs[i].recs + [r]))
  }

  /** A change of a record's status towards deletion also marks its sector dirty. */
  function MarkRecord(db: Db, a: Address, status: KvStatus): (db': Db)
    requires db.HasRecord(a)
    ensures |db'.secs| == |db.secs|
  {
    var s := db.secs[a.sector];
    var dirty := if s.dirty == Clean then Dirty else s.dirty;
    db.SetSector(a.sector, s.(dirty := dirty, recs := s.recs[a.pos := s.recs[a.pos].(status := status)]))
  }

  // ---- Lookup ----

  /** The first matching record of a sector from position `j` on. */
  function FindInSector(recs: seq<Record>, key: Bytes, j: nat): (r: Option<nat>)
    requires j <= |recs|
    ensures r.Some? ==> j <= r.value < |recs| && recs[r.value].Matches(key)
    ensures r.None? ==> forall i :: j <= i < |recs| ==> !recs[i].Matches(key)
    decreases |recs| - j
  {
    if j == |recs| then None
    else if recs[j].Matches(key) then Some(j)
    else FindInSector(recs, key, j + 1)
  }

  /** The first matching record, sector by sector in scan order from the `k`-th on. */
  function FindFrom(db: Db, key: Bytes, k: nat): (r: Option<Address>)
    requires db.oldest < |db.secs| && k <= |db.secs|
    ensures r.Some? ==> db.HasRecord(r.value) && db.RecordAt(r.value).Matches(key)
    decreases |db.secs| - k
  {
    if k == |db.secs| then None
    else
      var s := db.secs[db.SectorAt(k)];
      var found := if s.store != Empty then FindInSector(s.recs, key, 0) else None;
      if found.Some? then Some(Address(db.SectorAt(k), found.value)) else FindFrom(db, key, k + 1)
  }

  function Find(db: Db, key: Bytes): (r: Option<Address>)
    requires db.oldest < |db.secs|
    ensures r.Some? ==> db.HasRecord(r.value) && db.RecordAt(r.value).Matches(key)
  {
    FindFrom(db, key, 0)
  }

  // ---- Garbage collection ----

  datatype Moved = Moved(db: Db, ok: bool)

  /** Move a record: prepare its deletion, write a copy elsewhere, delete it. While recovering, a record
      that was already being deleted is not copied again when a written copy exists. */
  function Move(db: Db, a: Address): (r: Moved)
    requires db.oldest < |db.secs| && db.HasRecord(a)
    ensures |r.db.secs| == |db.secs| && r.db.oldest == db.oldest
  {
    var kv := db.RecordAt(a);
    var prepared := if kv.status == Written then MarkRecord(db, a, PreDelete) else db;
    var alloc := Alloc(prepared, kv.Len());
    if alloc.sector == None then Moved(alloc.db, false)
    else if db.recovering && kv.status == PreDelete && Find(alloc.db, kv.name).Some? then
      Moved(MarkRecord(alloc.db, a, Deleted), true)
    else
      var copied := AppendRecord(alloc.db, alloc.sector.value, kv.(status := Written));
      Moved(MarkRecord(copied, a, Deleted), true)
  }

  datatype Collected = Collected(db: Db, failures: nat)

  /** Move the records of sector `x` from position `j` up to `n`. */
  function MoveRecords(db: Db, x: nat, j: nat, n: nat): (r: Collected)
    requires db.oldest < |db.secs| && x < |db.secs|
    ensures |r.db.secs| == |db.secs| && r.db.oldest == db.oldest
    decreases n - j
  {
    if j >= n || !db.HasRecord(Address(x, j)) then Collected(db, 0)
    else if !db.secs[x].recs[j].Movable() then MoveRecords(db, x, j + 1, n)
    else
      var moved := Move(db, Address(x, j));
      var rest := MoveRecords(moved.db, x, j + 1, n);
      Collected(rest.db, rest.failures + (if moved.ok then 0 else 1))
  }

  /** Collect one sector: move its live records away, then erase it. */
  function CollectSector(db: Db, x: nat): (r: Collected)
    requires db.oldest < |db.secs| && x < |db.secs|
    ensures |r.db.secs| == |db.secs| && r.db.oldest < |db.secs|
  {
    var marked := db.SetSector(x, db.secs[x].(dirty := Collecting));
    var moved := MoveRecords(marked, x, 0, |db.secs[x].recs|);
    Collected(moved.db.SetSector(x, EMPTY_SECTOR).(oldest := db.NextSector(x)), moved.failures)
  }

  /** Collect dirty sectors from the `k`-th on, in the order of the scan that started at `first`, until
      the sector collected before the last one has more than `wanted` bytes free. */
  function CollectFrom(db: Db, first: nat, k: nat, last: nat, wanted: nat): (r: Collected)
    requires db.oldest < |db.secs| && first < |db.secs| && k <= |db.secs| && last < |db.secs|
    ensures |r.db.secs| == |db.secs| && r.db.oldest < |db.secs|
    decreases |db.secs| - k
  {
    if k == |db.secs| then Collected(db, 0)
    else
      var x := db.(oldest := first).SectorAt(k);
      if db.secs[x].dirty == Clean then CollectFrom(db, first, k + 1, last, wanted)
      else
        var c := CollectSector(db, x);
        if c.db.Remain(last) > wanted then c
        else
          var rest := CollectFrom(c.db, first, k + 1, x, wanted);
          Collected(rest.db, c.failures + rest.failures)
  }

  /** The last empty sector in scan order from the `k`-th on, or else `last`. */
  function LastEmpty(db: Db, k: nat, last: nat): (i: nat)
    requires db.oldest < |db.secs| && k <= |db.secs| && last < |db.secs|
    ensures i < |db.secs|
    decreases |db.secs| - k
  {
    if k == |db.secs| then last
    else LastEmpty(db, k + 1, if db.secs[db.SectorAt(k)].store == Empty then db.SectorAt(k) else last)
  }

  function Collect(db: Db, wanted: nat): (r: Collected)
    requires db.oldest < |db.secs|
    ensures |r.db.secs| == |db.secs| && r.db.oldest < |db.secs|
  {
    var c := if CountStore(db.secs, Empty) <= GC_EMPTY_SEC_THRESHOLD
             then CollectFrom(db, db.oldest, 0, LastEmpty(db, 0, 0), wanted)
             else Collected(db, 0);
    Collected(c.db.(gcRequest := false), c.failures)
  }

  /** Allocate; if that requests a collection, collect and try once more. */
  function NewKv(db: Db, size: nat): (r: Allocation)
    requires db.oldest < |db.secs|
    ensures |r.db.secs| == |db.secs| && r.db.oldest < |db.secs|
    ensures r.sector.Some? ==> r.sector.value < |r.db.secs|
  {
    var first := Alloc(db, size);
    if first.sector == None && first.db.gcRequest then
      var second := Alloc(Collect(first.db, size).db, size);
      if second.sector == None then Allocation(second.db.(gcRequest := false), None) else second
    else first
  }

  // ---- Operations ----

  datatype Error = NoError | NameError | SavedFull

  datatype Outcome = Outcome(db: Db, error: Error)

  function RecordSize(key: Bytes, value: Bytes): nat { KV_HDR_SIZE + |key| + |value| }

  /** Write the new record of a set into a sector already allocated. */
  function CreateKv(db: Db, i: nat, key: Bytes, value: Bytes): (r: Outcome)
    requires i < |db.secs|
    ensures |r.db.secs| == |db.secs| && r.db.oldest == db.oldest
    ensures forall a :: db.HasRecord(a) ==> r.db.HasRecord(a)
  {
    if |key| > NAME_MAX then Outcome(db, NameError)
    else if RecordSize(key, value) > db.secSize - SECTOR_HDR_SIZE then Outcome(db, SavedFull)
    else
      var isFull := db.secs[i].store == Using && StoreAfter(db, i, RecordSize(key, value)) == Full;
      var written := AppendRecord(db, i, Record(Written, true, key, value));
      Outcome(if isFull then written.(gcRequest := true) else written, NoError)
  }

  /** The rest of a set once there is room in sector `i` and the old record, if any, is known. */
  function Replace(db: Db, i: nat, old_: Option<Address>, key: Bytes, value: Bytes): (r: Outcome)
    requires db.oldest < |db.secs| && i < |db.secs|
    requires old_.Some? ==> db.HasRecord(old_.value)
    ensures |r.db.secs| == |db.secs| && r.db.oldest < |db.secs|
  {
    var prepared := if old_.Some? then MarkRecord(db, old_.value, PreDelete) else db;
    var created := CreateKv(prepared, i, key, value);
    var finished := if old_.Some? && created.error == NoError then MarkRecord(created.db, old_.value, Deleted)
                    else created.db;
    var collected := if finished.gcRequest then Collect(finished, RecordSize(key, value)).db else finished;
    Outcome(collected, created.error)
  }

  function SetKv(db: Db, key: Bytes, value: Bytes): (r: Outcome)
    requires db.oldest < |db.secs|
    ensures |r.db.secs| == |db.secs| && r.db.oldest < |db.secs|
  {
    var alloc := NewKv(db, RecordSize(key, value));
    if alloc.sector == None then Outcome(alloc.db, SavedFull)
    else Replace(alloc.db, alloc.sector.value, Find(alloc.db, key), key, value)
  }

  function DelKv(db: Db, key: Bytes): (r: Outcome)
    requires db.oldest < |db.secs|
    ensures |r.db.secs| == |db.secs| && r.db.oldest < |db.secs|
  {
    match Find(db, key)
    case None => Outcome(db, NameError)
    case Some(a) => Outcome(MarkRecord(db, a, Deleted), NoError)
  }

  function GetKv(db: Db, key: Bytes): Option<Bytes>
    requires db.oldest < |db.secs|
  {
    match Find(db, key)
    case None => None
    case Some(a) => Some(db.RecordAt(a).value)
  }
}
