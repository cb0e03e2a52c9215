/** Power loss in the middle of a set, and recovery at the next start: at no point are there two written
    records for the key, and what is found again is the old value or the new one. */
module KvCrash {
  import opened KvStore
  import opened KvCollect
  import opened KvRefinement
  import opened KvWalks
  import opened RecordBytes
  import opened Wrappers

  // ---- The flash writes of a set, one by one ----

  /** What a read makes of a record whose header was not written: it is marked and skipped. */
  const ERROR_RECORD: Record := Record(ErrHdr, false, [], [])

  function SetStatus(db: Db, a: Address, status: KvStatus): (db': Db)
    requires db.HasRecord(a)
    ensures |db'.secs| == |db.secs|
  {
    var s := db.secs[a.sector];
    db.SetSector(a.sector, s.(recs := s.recs[a.pos := s.recs[a.pos].(status := status)]))
  }

  /** A set makes nine flash writes once there is room: 1 prepare the old record's deletion, 2 mark its
      sector dirty, 3 mark the new sector in use, 4 begin the new record, 5 its header, 6 its name, 7 its
      value, 8 declare it written, 9 delete the old record. */
  const SET_WRITES: nat := 9

  /** The write of a header is 20 bytes: magic word, total length, checksum and the two lengths. */
  const HEADER_WRITE: nat := 20

  /** Where power was lost in a set: after so many writes; if the header came next, so many of its bytes are
      on flash. While the record is incomplete, `crc` says whether its checksum happens to match. */
  datatype Loss = Loss(writes: nat, header: nat, crc: bool) {
    predicate Possible() { writes <= SET_WRITES && header < HEADER_WRITE }

    /** The header says how long the record is, but the record is not declared written. */
    predicate LeavesRecord() { (writes == 4 && header >= 8) || 5 <= writes <= 7 }

    /** The record was begun, but its magic word is not complete. */
    predicate NoMagic() { writes == 4 && header < 4 }
  }

  /** The new record after a loss, as the next start finds it. The first record of a sector is read wherever
      the sector's header ends; any other only if its magic word is found. A record without a plausible length
      is marked as an error and counts as a bare header. */
  function NewRecordAfter(l: Loss, first: bool, key: Bytes, value: Bytes): Record {
    if l.NoMagic() && !first then StrayRecord(l.header)
    else if l.writes <= 4 && !l.LeavesRecord() then ERROR_RECORD
    else if l.writes <= 6 then Record(PreWrite, l.crc, key, value)
    else if l.writes == 7 then Record(PreWrite, true, key, value)
    else Record(Written, true, key, value)
  }

  /** How many bytes of the record from its magic word on are on flash after a loss. */
  function Cut(l: Loss, key: Bytes, value: Bytes): (n: nat)
    ensures n <= RecordSize(key, value) - 4 || l.header >= HEADER_WRITE
  {
    if l.writes <= 4 then l.header
    else if l.writes == 5 then HEADER_WRITE
    else if l.writes == 6 then HEADER_WRITE + |key|
    else RecordSize(key, value) - 4
  }

  /** A record that is not complete has no second magic word, at which a search would stop inside it and take
      what follows for a header. */
  predicate SkippedWhole(l: Loss, key: Bytes, value: Bytes) {
    l.LeavesRecord() && !l.crc && l.writes < 7 ==> PassedOver(key, value, Cut(l, key, value))
  }

  /** Stray bytes are left when the record was begun behind others and its magic word is not complete. */
  predicate LeavesStray(db: Db, i: nat, l: Loss)
    requires i < |db.secs|
  {
    l.NoMagic() && db.secs[i].recs != []
  }

  function OldRecordAfter(db: Db, old_: Option<Address>, n: nat): (db': Db)
    requires old_.Some? ==> db.HasRecord(old_.value)
    ensures |db'.secs| == |db.secs|
    ensures forall x :: db.HasRecord(x) <==> db'.HasRecord(x)
  {
    if n == 0 || old_.None? then db
    else if n == 1 then SetStatus(db, old_.value, PreDelete)
    else MarkRecord(db, old_.value, PreDelete)
  }

  /** The flash after the loss, as the next start finds it. */
  function AfterWrites(db: Db, i: nat, old_: Option<Address>, key: Bytes, value: Bytes, l: Loss): Db
    requires i < |db.secs| && l.Possible()
    requires old_.Some? ==> db.HasRecord(old_.value)
  {
    var n := l.writes;
    var prepared := OldRecordAfter(db, old_, n);
    if n <= 2 then prepared
    else if n == 3 && prepared.secs[i].store != Empty then
      prepared.SetSector(i, prepared.secs[i].(store := StoreAfter(prepared, i, RecordSize(key, value))))
    else
      var begun := AppendRecord(prepared, i, NewRecordAfter(l, db.secs[i].recs == [], key, value));
      if n == 9 && old_.Some? then MarkRecord(begun, old_.value, Deleted) else begun
  }

  /** All nine writes together are the set. */
  lemma AllWritesAreTheSet(db: Db, i: nat, old_: Option<Address>, key: Bytes, value: Bytes, l: Loss)
    requires l.Possible() && l.writes == SET_WRITES
    requires Idle(db) && Reserved(db, i, RecordSize(key, value)) && |key| <= NAME_MAX
    requires old_.Some? ==> db.HasRecord(old_.value) && db.RecordAt(old_.value).crcOk
    ensures AfterWrites(db, i, old_, key, value, l) == Replace(db, i, old_, key, value).db
  {
    hide LiveOf, LiveIn, CountStore, UsedBytes, MarkRecord, AppendRecord;
    var kv := Record(Written, true, key, value);
    if old_.Some? {
      MarkKeepsSteady(db, old_.value, PreDelete);
      var prepared := MarkRecord(db, old_.value, PreDelete);
      AppendKeepsSteady(prepared, i, kv);
      MarkKeepsSteady(AppendRecord(prepared, i, kv), old_.value, Deleted);
    } else {
      AppendKeepsSteady(db, i, kv);
    }
  }

  /** Steady, with exactly the record at `pd` prepared for deletion and the one at `pw` incomplete. */
  ghost predicate Broken(db: Db, pd: Option<Address>, pw: Option<Address>) {
    && Steady(db)
    && (pd.Some? ==> db.HasRecord(pd.value)) && (pw.Some? ==> db.HasRecord(pw.value))
    && (forall x :: db.HasRecord(x) ==>
          && (db.RecordAt(x).status == PreDelete <==> pd == Some(x))
          && (db.RecordAt(x).status == PreWrite <==> pw == Some(x)))
  }

  lemma IdleIsUnbroken(db: Db)
    requires Idle(db)
    ensures Broken(db, None, None)
  {
    SettledPointwise(db);
  }

  lemma UnbrokenIsIdle(db: Db)
    requires Broken(db, None, None) && !db.recovering && !db.gcRequest
    ensures Idle(db)
  {
    SteadyAndSettled(db);
  }

  lemma SetStatusKeepsSteady(db: Db, a: Address, status: KvStatus)
    requires Steady(db) && db.HasRecord(a) && RecordSound(db.RecordAt(a).(status := status))
    requires !db.RecordAt(a).Stray() && status != Unused
    ensures var db' := SetStatus(db, a, status);
            && db' == db.(secs := db'.secs) && Steady(db') && SameRecordsExcept(db, db', a)
            && db'.RecordAt(a) == db.RecordAt(a).(status := status)
            && CountStore(db'.secs, Empty) == CountStore(db.secs, Empty)
            && forall i :: 0 <= i < |db.secs| ==> db'.Remain(i) == db.Remain(i) && db'.secs[i].store == db.secs[i].store
                                                  && db'.secs[i].dirty == db.secs[i].dirty
  {
    hide CountStore, UsedBytes;
    var db' := SetStatus(db, a, status);
    UsedBytesUpdate(db.secs[a.sector].recs, a.pos, db'.secs[a.sector].recs[a.pos]);
    CountStoreUpdate(db.secs, a.sector, db'.secs[a.sector], Empty);
  }

  lemma SetStatusLive(db: Db, a: Address, status: KvStatus)
    requires db.HasRecord(a) && status != Written
    ensures Live(db.RecordAt(a)) <= LiveOf(db.secs)
    ensures LiveOf(SetStatus(db, a, status).secs) == LiveOf(db.secs) - Live(db.RecordAt(a))
  {
    hide LiveOf, LiveIn;
    var s := db.secs[a.sector];
    LiveInUpdate(s.recs, a.pos, s.recs[a.pos].(status := status));
    LiveOfUpdate(db.secs, a.sector, SetStatus(db, a, status).secs[a.sector]);
    TakeFromPart(LiveOf(db.secs), LiveIn(s.recs), Live(s.recs[a.pos]));
  }

  /** The old record after `n > 0` writes: intact and prepared for deletion. */
  lemma OldRecordPrepared(db: Db, a: Address, n: nat)
    requires Idle(db) && n > 0 && db.HasRecord(a) && db.RecordAt(a).crcOk
    ensures var p := OldRecordAfter(db, Some(a), n);
            && p == db.(secs := p.secs) && Broken(p, Some(a), None)
            && p.RecordAt(a) == db.RecordAt(a).(status := PreDelete)
            && LiveOf(p.secs) == LiveOf(db.secs) - Live(db.RecordAt(a))
            && CountStore(p.secs, Empty) == CountStore(db.secs, Empty)
            && forall i :: 0 <= i < |db.secs| ==> p.Remain(i) == db.Remain(i) && p.secs[i].store == db.secs[i].store
  {
    hide LiveOf, LiveIn, CountStore, UsedBytes, MarkRecord, SetStatus, Live;
    SettledPointwise(db);
    if n == 1 {
      SetStatusKeepsSteady(db, a, PreDelete);
      SetStatusLive(db, a, PreDelete);
    } else {
      MarkKeepsSteady(db, a, PreDelete);
      MarkLive(db, a, PreDelete);
    }
  }

  // ---- What every prefix of the writes leaves ----

  function PendingDelete(old_: Option<Address>, n: nat): Option<Address> {
    if 1 <= n < SET_WRITES then old_ else None
  }

  function PendingWrite(db: Db, i: nat, l: Loss): Option<Address>
    requires i < |db.secs|
  {
    if l.LeavesRecord() then Some(Address(i, |db.secs[i].recs|)) else None
  }

  /** The map that the written records stand for after `n` writes. */
  function MapAfterWrites(m: map<Bytes, Bytes>, key: Bytes, value: Bytes, n: nat): map<Bytes, Bytes> {
    if n == 0 then m else if n < 8 then m - {key} else m[key := value]
  }

  /** `c` is the flash after a loss in a set of `key` in `db`: every other record is as before, the
      written records never hold the key twice, and until the new record is declared written the old one
      is still there, intact. */
  ghost predicate Interrupted(db: Db, i: nat, key: Bytes, value: Bytes, l: Loss, m: map<Bytes, Bytes>, c: Db)
    requires db.oldest < |db.secs| && i < |db.secs|
  {
    var old_, n := Find(db, key), l.writes;
    && c == db.(secs := c.secs)
    && Broken(c, PendingDelete(old_, n), PendingWrite(db, i, l))
    && Represents(LiveOf(c.secs), MapAfterWrites(m, key, value, n))
    && (old_.Some? && 1 <= n < SET_WRITES ==> c.RecordAt(old_.value) == db.RecordAt(old_.value).(status := PreDelete))
  }

  /** The base of a crash state: the database with the old record, if any, prepared for deletion. */
  ghost predicate Base(db: Db, i: nat, key: Bytes, n: nat, m: map<Bytes, Bytes>, p: Db)
    requires db.oldest < |db.secs| && i < |db.secs|
  {
    var old_ := Find(db, key);
    && p == db.(secs := p.secs) && |p.secs| == |db.secs|
    && Broken(p, if n == 0 then None else old_, None)
    && Represents(LiveOf(p.secs), if n == 0 then m else m - {key})
    && (old_.Some? && n > 0 ==> p.RecordAt(old_.value) == db.RecordAt(old_.value).(status := PreDelete))
    && p.Remain(i) == db.Remain(i) && p.secs[i].store == db.secs[i].store && |p.secs[i].recs| == |db.secs[i].recs|
    && CountStore(p.secs, Empty) == CountStore(db.secs, Empty)
  }

  lemma BaseHolds(db: Db, i: nat, key: Bytes, n: nat, m: map<Bytes, Bytes>)
    requires Idle(db) && i < |db.secs| && Represents(LiveOf(db.secs), m)
    requires |key| < NAME_MAX
    ensures Base(db, i, key, n, m, OldRecordAfter(db, Find(db, key), n))
  {
    FoundPair(db, key, m);
    if n > 0 && Find(db, key).Some? {
      BaseWithOld(db, i, key, n, m);
    } else {
      hide LiveOf, Represents, CountStore, Broken, Find;
      IdleIsUnbroken(db);
      assert n > 0 ==> m - {key} == m;
    }
  }

  lemma BaseWithOld(db: Db, i: nat, key: Bytes, n: nat, m: map<Bytes, Bytes>)
    requires Idle(db) && i < |db.secs| && Represents(LiveOf(db.secs), m)
    requires |key| < NAME_MAX && n > 0 && Find(db, key).Some? && key in m
    requires Live(db.RecordAt(Find(db, key).value)) == multiset{(key, m[key])}
    ensures Base(db, i, key, n, m, OldRecordAfter(db, Find(db, key), n))
  {
    var old_ := Find(db, key);
    hide LiveOf, Represents, CountStore, Broken, Idle, Live, Find, OldRecordAfter, UsedBytes;
    OldRecordPrepared(db, old_.value, n);
    RepresentsDelete(LiveOf(db.secs), m, key);
    SameRecordCount(db, old_, n, i);
  }

  lemma SameRecordCount(db: Db, old_: Option<Address>, n: nat, i: nat)
    requires i < |db.secs| && (old_.Some? ==> db.HasRecord(old_.value))
    ensures |OldRecordAfter(db, old_, n).secs[i].recs| == |db.secs[i].recs|
  {
  }

  /** Appending to a broken state. */
  lemma AppendToBroken(p: Db, pd: Option<Address>, i: nat, r: Record)
    requires Broken(p, pd, None) && RecordSound(r) && MayAppend(p, i, r.Len()) && r.status != PreDelete
    ensures var c := AppendRecord(p, i, r);
            var a := Address(i, |p.secs[i].recs|);
            && c == p.(secs := c.secs) && Broken(c, pd, if r.status == PreWrite then Some(a) else None)
            && OneMoreRecord(p, c, a) && c.RecordAt(a) == r
            && LiveOf(c.secs) == LiveOf(p.secs) + Live(r)
  {
    hide LiveOf, LiveIn, CountStore, UsedBytes, AppendRecord, Live;
    AppendKeepsSteady(p, i, r);
    AppendLive(p, i, r);
  }

  lemma NewRecordSound(l: Loss, first: bool, key: Bytes, value: Bytes)
    requires |key| < NAME_MAX
    ensures var r := NewRecordAfter(l, first, key, value);
            && RecordSound(r) && r.Len() <= RecordSize(key, value) && r.status != PreDelete
            && (r.status == PreWrite <==> l.LeavesRecord())
            && (r.Stray() <==> l.NoMagic() && !first)
            && Live(r) == if l.writes >= 8 then multiset{(key, value)} else multiset{}
  {
  }

  lemma RepresentsAdd(live: multiset<Pair>, m: map<Bytes, Bytes>, key: Bytes, value: Bytes)
    requires Represents(live, m - {key}) && |key| < NAME_MAX
    ensures Represents(live + multiset{(key, value)}, m[key := value])
  {
    RepresentsSet(live, m - {key}, key, value);
    assert (m - {key})[key := value] == m[key := value];
  }

  /** At every prefix of the writes of a set there are never two written records for the key, and an
      intact old record exists until the new one is declared written. */
  lemma EveryPrefixIsSafe(db: Db, i: nat, key: Bytes, value: Bytes, l: Loss, m: map<Bytes, Bytes>)
    requires Idle(db) && Represents(LiveOf(db.secs), m) && |key| < NAME_MAX
    requires Reserved(db, i, RecordSize(key, value)) && l.Possible()
    ensures Interrupted(db, i, key, value, l, m, AfterWrites(db, i, Find(db, key), key, value, l))
  {
    hide LiveOf, Represents, CountStore, UsedBytes, Live, Idle, Find, AppendRecord, OldRecordAfter, RecordSound;
    var n := l.writes;
    BaseHolds(db, i, key, n, m);
    var p := OldRecordAfter(db, Find(db, key), n);
    if n <= 2 {
    } else if n == 3 && p.secs[i].store != Empty {
      UsingStaysUsing(p, i, RecordSize(key, value));
    } else {
      AppendPrefix(db, i, key, value, l, m, p);
    }
  }

  lemma UsingStaysUsing(p: Db, i: nat, size: nat)
    requires Steady(p) && i < |p.secs| && p.secs[i].store != Empty && p.Remain(i) > size + REMAIN_THRESHOLD
    ensures p.SetSector(i, p.secs[i].(store := StoreAfter(p, i, size))) == p
  {
    assert p.secs[i := p.secs[i]] == p.secs;
  }

  lemma AppendPrefix(db: Db, i: nat, key: Bytes, value: Bytes, l: Loss, m: map<Bytes, Bytes>, p: Db)
    requires Idle(db) && Represents(LiveOf(db.secs), m) && |key| < NAME_MAX && l.Possible() && l.writes >= 3
    requires Reserved(db, i, RecordSize(key, value)) && Base(db, i, key, l.writes, m, p)
    requires p == OldRecordAfter(db, Find(db, key), l.writes)
    requires l.writes == 3 ==> p.secs[i].store == Empty
    ensures Interrupted(db, i, key, value, l, m, AfterWrites(db, i, Find(db, key), key, value, l))
  {
    hide LiveOf, Represents, CountStore, UsedBytes, Live, Idle, Find, AppendRecord, MarkRecord, OldRecordAfter,
      RecordSound;
    var n, first := l.writes, db.secs[i].recs == [];
    var r := NewRecordAfter(l, first, key, value);
    var old_ := Find(db, key);
    NewRecordSound(l, first, key, value);
    AppendToBroken(p, old_, i, r);
    var begun := AppendRecord(p, i, r);
    if n >= 8 {
      RepresentsAdd(LiveOf(p.secs), m, key, value);
    } else {
      assert LiveOf(begun.secs) == LiveOf(p.secs);
    }
    if n == 9 && old_.Some? {
      DeletePending(begun, old_.value);
    }
  }

  /** Deleting the record prepared for deletion. */
  lemma DeletePending(c: Db, a: Address)
    requires Broken(c, Some(a), None)
    ensures var d := MarkRecord(c, a, Deleted);
            && d == c.(secs := d.secs) && Broken(d, None, None) && LiveOf(d.secs) == LiveOf(c.secs)
  {
    hide LiveOf, LiveIn, CountStore, UsedBytes, MarkRecord, Live;
    assert c.RecordAt(a).status == PreDelete;
    MarkKeepsSteady(c, a, Deleted);
    MarkLive(c, a, Deleted);
    NotWrittenIsNotLive(c.RecordAt(a));
  }

  // ---- Recovery at the next start ----

  datatype Scanned = Scanned(db: Db, stopped: bool)

  /** Look at the records of sector `x` from `j` up to `n`: a deletion under way is completed by moving the
      record; the first incomplete record is marked, and ends the scan, as does a move that fails. */
  function RecoverRecords(db: Db, x: nat, j: nat, n: nat): (r: Scanned)
    requires db.oldest < |db.secs| && x < |db.secs|
    ensures |r.db.secs| == |db.secs| && r.db.oldest == db.oldest
    decreases n - j
  {
    if j >= n || !db.HasRecord(Address(x, j)) then Scanned(db, false)
    else
      var r := db.RecordAt(Address(x, j));
      if r.crcOk && r.status == PreDelete then
        var moved := Move(db, Address(x, j));
        if moved.ok then RecoverRecords(moved.db, x, j + 1, n) else Scanned(moved.db, true)
      else if r.status == PreWrite then Scanned(SetStatus(db, Address(x, j), ErrHdr), true)
      else RecoverRecords(db, x, j + 1, n)
  }

  function RecoverSector(db: Db, x: nat): (r: Scanned)
    requires db.oldest < |db.secs| && x < |db.secs|
    ensures |r.db.secs| == |db.secs| && r.db.oldest == db.oldest
  {
    if db.secs[x].store != Empty then RecoverRecords(db, x, 0, |db.secs[x].recs|) else Scanned(db, false)
  }

  function RecoverSectors(db: Db, k: nat): (r: Scanned)
    requires db.oldest < |db.secs| && k <= |db.secs|
    ensures |r.db.secs| == |db.secs| && r.db.oldest == db.oldest
    decreases |db.secs| - k
  {
    if k == |db.secs| then Scanned(db, false)
    else
      var s := RecoverSector(db, db.SectorAt(k));
      if s.stopped then s else RecoverSectors(s.db, k + 1)
  }

  /** The oldest sector is the last one that is not empty and follows an empty one. */
  function OldestSector(secs: seq<Sector>, i: nat, oldest: nat): (o: nat)
    requires i <= |secs| && oldest < |secs|
    ensures o < |secs|
    decreases |secs| - i
  {
    if i == |secs| then oldest
    else OldestSector(secs, i + 1, if i > 0 && secs[i - 1].store == Empty && secs[i].store != Empty then i else oldest)
  }

  /** A sector that is not empty behind an empty one. */
  predicate Head(secs: seq<Sector>, i: nat) {
    0 < i < |secs| && secs[i - 1].store == Empty && secs[i].store != Empty
  }

  /** `o` is the last such sector, or 0 if there is none. */
  predicate LastHead(secs: seq<Sector>, o: nat) {
    && o < |secs| && (o == 0 || Head(secs, o))
    && (forall j :: o < j < |secs| ==> !Head(secs, j))
  }

  lemma {:induction false} OldestFrom(secs: seq<Sector>, i: nat, oldest: nat)
    requires i <= |secs| && oldest < |secs|
    ensures var o := OldestSector(secs, i, oldest);
            && (o == oldest || (i <= o && Head(secs, o)))
            && (forall j :: i <= j < |secs| && Head(secs, j) ==> j <= o && Head(secs, o))
    decreases |secs| - i
  {
    if i < |secs| {
      OldestFrom(secs, i + 1, if Head(secs, i) then i else oldest);
    }
  }

  /** What a start takes for the oldest sector. */
  lemma OldestIs(secs: seq<Sector>, o: nat)
    requires secs != []
    ensures OldestSector(secs, 0, 0) == o <==> LastHead(secs, o)
  {
    hide OldestSector;
    OldestFrom(secs, 0, 0);
  }

  /** The sectors in use are `n` sectors one behind the other, around the end of the flash, from `s` on. */
  ghost predicate OneRun(db: Db, s: nat, n: nat) {
    && s < |db.secs| && n <= |db.secs|
    && (forall k :: 0 <= k < |db.secs| ==> (db.secs[db.(oldest := s).SectorAt(k)].store != Empty <==> k < n))
  }

  /** Then a start finds the first one, and a scan from there meets all sectors in use before any empty one. */
  lemma OldestOfRun(db: Db, s: nat, n: nat)
    requires OneRun(db, s, n) && 1 <= n < |db.secs|
    ensures OldestSector(db.secs, 0, 0) == s
  {
    hide OldestSector;
    OldestIs(db.secs, s);
    if s > 0 {
      assert db.(oldest := s).SectorAt(|db.secs| - 1) == s - 1;
      assert db.(oldest := s).SectorAt(0) == s;
    }
    forall j | s < j < |db.secs| ensures !Head(db.secs, j) {
      assert db.(oldest := s).SectorAt(j - s) == j && db.(oldest := s).SectorAt(j - s - 1) == j - 1;
    }
  }

  /** One start of the database: find the oldest sector and run the recovery scan. */
  function Boot(db: Db): (db': Db)
    requires |db.secs| > 0
    ensures |db'.secs| == |db.secs|
  {
    var started := db.(oldest := OldestSector(db.secs, 0, 0), gcRequest := false, recovering := true);
    RecoverSectors(started, 0).db.(recovering := false)
  }

  /** What allocation looks at. */
  ghost predicate SameRoom(db: Db, db': Db) {
    && |db.secs| == |db'.secs| && db.oldest == db'.oldest && db.gcRequest == db'.gcRequest
    && (forall i :: 0 <= i < |db.secs| ==>
          && db'.secs[i].store == db.secs[i].store && db'.secs[i].dirty == db.secs[i].dirty
          && db'.Remain(i) == db.Remain(i))
  }

  lemma {:induction false} FirstFitSameRoom(db: Db, db': Db, store: StoreStatus, size: nat, k: nat)
    requires SameRoom(db, db') && db.oldest < |db.secs| && k <= |db.secs|
    ensures FirstFit(db, store, size, k) == FirstFit(db', store, size, k)
    decreases |db.secs| - k
  {
    if k < |db.secs| {
      hide UsedBytes;
      assert CanHold(db, db.SectorAt(k), size) <==> CanHold(db', db.SectorAt(k), size);
      FirstFitSameRoom(db, db', store, size, k + 1);
    }
  }

  lemma {:induction false} CountStoreSame(secs: seq<Sector>, secs': seq<Sector>, store: StoreStatus)
    requires |secs| == |secs'| && forall i :: 0 <= i < |secs| ==> secs'[i].store == secs[i].store
    ensures CountStore(secs, store) == CountStore(secs', store)
  {
    if secs != [] {
      CountStoreSame(secs[..|secs| - 1], secs'[..|secs| - 1], store);
    }
  }

  lemma AllocSameRoom(db: Db, db': Db, size: nat)
    requires SameRoom(db, db') && db.oldest < |db.secs|
    ensures Alloc(db, size).sector == Alloc(db', size).sector
  {
    hide FirstFit, CountStore;
    FirstFitSameRoom(db, db', Using, size, 0);
    FirstFitSameRoom(db, db', Empty, size, 0);
    CountStoreSame(db.secs, db'.secs, Using);
    CountStoreSame(db.secs, db'.secs, Empty);
  }

  /** A database under recovery: `pd` is a record of `key` holding `value`, and there is room for a copy. */
  ghost predicate Recovering(db: Db, pd: Option<Address>, pw: Option<Address>, key: Bytes, value: Bytes,
      m: map<Bytes, Bytes>) {
    && Broken(db, pd, pw) && db.recovering && !db.gcRequest
    && Represents(LiveOf(db.secs), m)
    && (pd.Some? ==>
          && db.RecordAt(pd.value).name == key && db.RecordAt(pd.value).value == value && |key| < NAME_MAX
          && Alloc(db, db.RecordAt(pd.value).Len()).sector.Some?)
  }

  /** Completing a deletion that was under way brings the old value back, unless a newer one was written. */
  function MapRecovered(m: map<Bytes, Bytes>, key: Bytes, value: Bytes): map<Bytes, Bytes> {
    if key in m then m else m[key := value]
  }

  lemma MoveRecovers(db: Db, a: Address, pw: Option<Address>, key: Bytes, value: Bytes, m: map<Bytes, Bytes>)
    requires Recovering(db, Some(a), pw, key, value, m)
    ensures var r := Move(db, a);
            && r.ok && r.db == db.(secs := r.db.secs)
            && Recovering(r.db, None, pw, key, value, MapRecovered(m, key, value))
            && (forall x :: db.HasRecord(x) ==> r.db.HasRecord(x))
  {
    hide LiveOf, Represents, CountStore, UsedBytes, Live, Find, AppendRecord, MarkRecord, Alloc;
    var kv := db.RecordAt(a);
    AllocReserves(db, kv.Len());
    FoundPair(db, key, m);
    if Find(db, key).Some? {
      CompleteDeletion(db, a, pw);
    } else {
      CopyBack(db, a, pw, Alloc(db, kv.Len()).sector.value);
      RepresentsSet(LiveOf(db.secs), m, key, value);
    }
  }

  lemma CompleteDeletion(c: Db, a: Address, pw: Option<Address>)
    requires Broken(c, Some(a), pw)
    ensures var d := MarkRecord(c, a, Deleted);
            && d == c.(secs := d.secs) && Broken(d, None, pw) && LiveOf(d.secs) == LiveOf(c.secs)
            && (forall x :: c.HasRecord(x) ==> d.HasRecord(x))
  {
    hide LiveOf, LiveIn, CountStore, UsedBytes, MarkRecord, Live;
    assert c.RecordAt(a).status == PreDelete;
    MarkKeepsSteady(c, a, Deleted);
    MarkLive(c, a, Deleted);
    NotWrittenIsNotLive(c.RecordAt(a));
  }

  lemma CopyBack(db: Db, a: Address, pw: Option<Address>, w: nat)
    requires Broken(db, Some(a), pw) && MayAppend(db, w, db.RecordAt(a).Len())
    ensures var kv := db.RecordAt(a);
            var d := MarkRecord(AppendRecord(db, w, kv.(status := Written)), a, Deleted);
            && d == db.(secs := d.secs) && Broken(d, None, pw)
            && LiveOf(d.secs) == LiveOf(db.secs) + multiset{(kv.name, kv.value)}
            && (forall x :: db.HasRecord(x) ==> d.HasRecord(x))
  {
    hide LiveOf, LiveIn, CountStore, UsedBytes, MarkRecord, AppendRecord, Live;
    var kv := db.RecordAt(a);
    var copy := kv.(status := Written);
    assert kv.status == PreDelete;
    AppendKeepsSteady(db, w, copy);
    AppendLive(db, w, copy);
    WrittenIsLive(copy);
    CompleteDeletion(AppendRecord(db, w, copy), a, pw);
  }

  /** Marking an incomplete record as an error. */
  lemma MarkIncomplete(db: Db, pd: Option<Address>, a: Address, key: Bytes, value: Bytes, m: map<Bytes, Bytes>)
    requires Recovering(db, pd, Some(a), key, value, m)
    ensures var d := SetStatus(db, a, ErrHdr);
            && d == db.(secs := d.secs) && Recovering(d, pd, None, key, value, m) && SameRoom(db, d)
            && (forall x :: db.HasRecord(x) ==> d.HasRecord(x))
  {
    hide LiveOf, LiveIn, Represents, CountStore, UsedBytes, SetStatus, Live, Alloc;
    assert db.RecordAt(a).status == PreWrite;
    var d := SetStatus(db, a, ErrHdr);
    SetStatusKeepsSteady(db, a, ErrHdr);
    SetStatusLive(db, a, ErrHdr);
    NotWrittenIsNotLive(db.RecordAt(a));
    assert LiveOf(d.secs) == LiveOf(db.secs);
    if pd.Some? {
      AllocSameRoom(db, d, db.RecordAt(pd.value).Len());
    }
  }

  /** What is still to be recovered. */
  datatype Rest = Rest(pd: Option<Address>, pw: Option<Address>, entries: map<Bytes, Bytes>)

  /** How a scan or a part of one may end: with the deletion completed or not reached, and stopped only
      by the incomplete record, which is then marked. */
  ghost predicate ScanEnds(db: Db, before: Rest, key: Bytes, value: Bytes, r: Scanned, after: Rest) {
    && r.db == db.(secs := r.db.secs)
    && Recovering(r.db, after.pd, after.pw, key, value, after.entries)
    && ((after.pd == before.pd && after.entries == before.entries)
        || (before.pd.Some? && after.pd.None? && after.entries == MapRecovered(before.entries, key, value)))
    && (if r.stopped then before.pw.Some? && after.pw.None? else after.pw == before.pw)
    && (before.pd.Some? && after.pd == before.pd ==> SameRoom(db, r.db))
    && (forall x :: db.HasRecord(x) ==> r.db.HasRecord(x))
  }

  predicate Within(a: Option<Address>, x: nat, j: nat, n: nat) {
    a.Some? && a.value.sector == x && j <= a.value.pos < n
  }

  lemma {:induction false} RecoverRecordsEnds(db: Db, x: nat, j: nat, n: nat, before: Rest, key: Bytes, value: Bytes)
    returns (after: Rest)
    requires x < |db.secs| && Recovering(db, before.pd, before.pw, key, value, before.entries)
    ensures var r := RecoverRecords(db, x, j, n);
            && ScanEnds(db, before, key, value, r, after)
            && (!r.stopped ==> !Within(after.pd, x, j, n) && !Within(after.pw, x, j, n))
    decreases n - j
  {
    hide LiveOf, Represents, CountStore, SectorSound, Move, SetStatus, Alloc;
    after := before;
    if j < n && db.HasRecord(Address(x, j)) {
      var a := Address(x, j);
      var r := db.RecordAt(a);
      assert r.status == PreDelete <==> before.pd == Some(a);
      if before.pd == Some(a) {
        PreparedIsIntact(db, a, before.pw);
        MoveRecovers(db, a, before.pw, key, value, before.entries);
        var mid := Rest(None, before.pw, MapRecovered(before.entries, key, value));
        after := RecoverRecordsEnds(Move(db, a).db, x, j + 1, n, mid, key, value);
      } else if before.pw == Some(a) {
        MarkIncomplete(db, before.pd, a, key, value, before.entries);
        after := before.(pw := None);
      } else {
        after := RecoverRecordsEnds(db, x, j + 1, n, before, key, value);
      }
    }
  }

  lemma PreparedIsIntact(db: Db, a: Address, pw: Option<Address>)
    requires Broken(db, Some(a), pw)
    ensures db.RecordAt(a).crcOk && db.RecordAt(a).status == PreDelete
  {
    assert RecordSound(db.secs[a.sector].recs[a.pos]);
    assert db.RecordAt(a).status == PreDelete;
  }

  /** The address lies in one of the sectors from the `k`-th on in scan order. */
  ghost predicate Ahead(db: Db, a: Option<Address>, k: nat)
    requires db.oldest < |db.secs|
  {
    a.Some? && a.value.sector < |db.secs| && ScanIndex(db, a.value.sector) >= k
  }

  predicate InSector(a: Option<Address>, x: nat) { a.Some? && a.value.sector == x }

  /** A scan of one sector that does not end the recovery leaves nothing to recover in it. */
  lemma RecoverSectorEnds(db: Db, x: nat, before: Rest, key: Bytes, value: Bytes) returns (after: Rest)
    requires x < |db.secs| && Recovering(db, before.pd, before.pw, key, value, before.entries)
    ensures var r := RecoverSector(db, x);
            && ScanEnds(db, before, key, value, r, after)
            && (!r.stopped ==> !InSector(after.pd, x) && !InSector(after.pw, x))
  {
    hide LiveOf, Represents, RecoverRecords, CountStore, Alloc;
    after := before;
    if db.secs[x].store != Empty {
      after := RecoverRecordsEnds(db, x, 0, |db.secs[x].recs|, before, key, value);
      assert before.pd.Some? ==> before.pd.value.pos < |db.secs[before.pd.value.sector].recs|;
    }
  }

  lemma {:induction false} RecoverSectorsEnds(db: Db, k: nat, before: Rest, key: Bytes, value: Bytes)
    returns (after: Rest)
    requires db.oldest < |db.secs| && k <= |db.secs| && Recovering(db, before.pd, before.pw, key, value, before.entries)
    ensures var r := RecoverSectors(db, k);
            && ScanEnds(db, before, key, value, r, after)
            && (!r.stopped ==> !Ahead(r.db, after.pd, k) && !Ahead(r.db, after.pw, k))
    decreases |db.secs| - k
  {
    hide LiveOf, Represents, RecoverSector, Recovering;
    after := before;
    if k < |db.secs| {
      var x := db.SectorAt(k);
      after := RecoverSectorEnds(db, x, before, key, value);
      var s := RecoverSector(db, x);
      if !s.stopped {
        after := RecoverSectorsEnds(s.db, k + 1, after, key, value);
      }
    }
  }

  function Started(db: Db): Db
    requires |db.secs| > 0
  {
    db.(oldest := OldestSector(db.secs, 0, 0), gcRequest := false, recovering := true)
  }

  /** There is room for one more copy of a record of `size` bytes at the next start. */
  predicate RoomToRecover(db: Db, size: nat)
    requires |db.secs| > 0
  {
    Alloc(Started(db), size).sector.Some?
  }

  /** What a start must find to recover a database of `entries` with `rest` pending. */
  ghost predicate Recoverable(db: Db, rest: Rest, key: Bytes, value: Bytes) {
    && |db.secs| > 0 && Broken(db, rest.pd, rest.pw) && Represents(LiveOf(db.secs), rest.entries)
    && (rest.pd.Some? ==>
          && db.RecordAt(rest.pd.value).name == key && db.RecordAt(rest.pd.value).value == value && |key| < NAME_MAX
          && RoomToRecover(db, RecordSize(key, value)))
  }

  lemma BrokenAnyOldest(db: Db, pd: Option<Address>, pw: Option<Address>)
    requires Broken(db, pd, pw)
    ensures Broken(Started(db), pd, pw)
  {
    hide CountStore, SectorSound;
    var db' := Started(db);
    assert forall x :: db'.HasRecord(x) <==> db.HasRecord(x);
    assert forall x :: db.HasRecord(x) ==> db'.RecordAt(x) == db.RecordAt(x);
  }

  lemma {:induction false} OldestSameStores(secs: seq<Sector>, secs': seq<Sector>, i: nat, oldest: nat)
    requires i <= |secs| == |secs'| && oldest < |secs|
    requires forall k :: 0 <= k < |secs| ==> secs'[k].store == secs[k].store
    ensures OldestSector(secs, i, oldest) == OldestSector(secs', i, oldest)
    decreases |secs| - i
  {
    if i < |secs| {
      OldestSameStores(secs, secs', i + 1,
                       if i > 0 && secs[i - 1].store == Empty && secs[i].store != Empty then i else oldest);
    }
  }

  /** One start marks the incomplete record, if any, and completes the pending deletion unless the
      incomplete record ended the scan first. The number of incomplete records bounds the starts needed. */
  lemma BootEnds(db: Db, before: Rest, key: Bytes, value: Bytes) returns (after: Rest)
    requires Recoverable(db, before, key, value)
    ensures Recoverable(Boot(db), after, key, value)
    ensures Boot(db).secSize == db.secSize && !Boot(db).recovering && !Boot(db).gcRequest
    ensures after.pw.None? && (before.pw.None? ==> after.pd.None?)
    ensures if after.pd == before.pd then after.entries == before.entries
            else before.pd.Some? && after.pd.None? && after.entries == MapRecovered(before.entries, key, value)
  {
    hide LiveOf, Represents, CountStore, SectorSound, Alloc, RecoverSectors, OldestSector;
    var s := Started(db);
    BrokenAnyOldest(db, before.pd, before.pw);
    after := RecoverSectorsEnds(s, 0, before, key, value);
    var r := RecoverSectors(s, 0);
    StoppedBroken(r.db, after.pd, after.pw);
    if after.pd.Some? {
      SameRoomAgain(db, Boot(db), RecordSize(key, value));
    }
  }

  lemma StoppedBroken(db: Db, pd: Option<Address>, pw: Option<Address>)
    requires Broken(db, pd, pw)
    ensures Broken(db.(recovering := false), pd, pw)
  {
    hide CountStore, SectorSound;
    var db' := db.(recovering := false);
    assert forall x :: db'.HasRecord(x) <==> db.HasRecord(x);
    assert forall x :: db.HasRecord(x) ==> db'.RecordAt(x) == db.RecordAt(x);
  }

  lemma SameRoomAgain(db: Db, b: Db, size: nat)
    requires db.Shaped() && b == Started(db).(secs := b.secs, recovering := false)
    requires SameRoom(Started(db), b.(recovering := true)) && RoomToRecover(db, size)
    ensures RoomToRecover(b, size)
  {
    hide Alloc;
    OldestSameStores(db.secs, b.secs, 0, 0);
    AllocSameRoom(Started(db), Started(b), size);
  }

  /** Two starts recover a database with one pending deletion and one incomplete record. */
  lemma TwoStartsRecover(db: Db, rest: Rest, key: Bytes, value: Bytes)
    requires Recoverable(db, rest, key, value)
    ensures var b := Boot(Boot(db));
            && Idle(b) && b.secSize == db.secSize
            && Represents(LiveOf(b.secs), if rest.pd.Some? then MapRecovered(rest.entries, key, value)
                else rest.entries)
  {
    var rest1 := BootEnds(db, rest, key, value);
    var rest2 := BootEnds(Boot(db), rest1, key, value);
    hide LiveOf, Represents, CountStore, SectorSound, Alloc, Boot, Settled;
    UnbrokenIsIdle(Boot(Boot(db)));
  }

  /** What is pending after a loss in a set. */
  function RestAfterWrites(db: Db, i: nat, key: Bytes, value: Bytes, l: Loss, m: map<Bytes, Bytes>): Rest
    requires db.oldest < |db.secs| && i < |db.secs|
  {
    Rest(PendingDelete(Find(db, key), l.writes), PendingWrite(db, i, l), MapAfterWrites(m, key, value, l.writes))
  }

  function OldValue(m: map<Bytes, Bytes>, key: Bytes): Bytes { if key in m then m[key] else [] }

  lemma InterruptedIsRecoverable(db: Db, i: nat, key: Bytes, value: Bytes, l: Loss, m: map<Bytes, Bytes>, c: Db)
    requires Idle(db) && i < |db.secs| && Represents(LiveOf(db.secs), m) && |key| < NAME_MAX
    requires Interrupted(db, i, key, value, l, m, c)
    requires 1 <= l.writes < SET_WRITES && key in m ==> RoomToRecover(c, RecordSize(key, m[key]))
    ensures Recoverable(c, RestAfterWrites(db, i, key, value, l, m), key, OldValue(m, key))
    ensures RestAfterWrites(db, i, key, value, l, m).pd.Some? <==> 1 <= l.writes < SET_WRITES && key in m
    ensures c.secSize == db.secSize
  {
    FindRefines(db, key, m);
    hide LiveOf, Represents, CountStore, SectorSound, Alloc, Settled;
  }

  lemma RecoveredMap(m: map<Bytes, Bytes>, key: Bytes, value: Bytes, n: nat)
    requires n <= SET_WRITES
    ensures var entries := MapAfterWrites(m, key, value, n);
            (if 1 <= n < SET_WRITES && key in m then MapRecovered(entries, key, OldValue(m, key)) else entries)
            == if n < 8 then m else m[key := value]
  {
    assert key in m ==> (m - {key})[key := m[key]] == m;
    assert key !in m ==> m - {key} == m;
  }

  /** Power loss after any number of the flash writes of a set, or within the write of the header, followed by
      two starts: the database is sound again and stands for the old map if the new record was not yet declared
      written, and for the new map if it was. The old record, when its deletion was under way, must have room
      for a copy; and the new one, when it is not complete, no second magic word. */
  lemma RecoversOldOrNew(db: Db, i: nat, key: Bytes, value: Bytes, l: Loss, m: map<Bytes, Bytes>)
    requires Idle(db) && Represents(LiveOf(db.secs), m) && |key| < NAME_MAX
    requires Reserved(db, i, RecordSize(key, value)) && l.Possible()
    requires 1 <= l.writes < SET_WRITES && key in m ==>
               RoomToRecover(AfterWrites(db, i, Find(db, key), key, value, l), RecordSize(key, m[key]))
    requires SkippedWhole(l, key, value)
    ensures var b := Boot(Boot(AfterWrites(db, i, Find(db, key), key, value, l)));
            && Idle(b) && b.secSize == db.secSize
            && Represents(LiveOf(b.secs), if l.writes < 8 then m else m[key := value])
  {
    hide LiveOf, Represents, CountStore, SectorSound, Alloc, Settled, Boot, AfterWrites, Find, Interrupted, Broken;
    EveryPrefixIsSafe(db, i, key, value, l, m);
    var c := AfterWrites(db, i, Find(db, key), key, value, l);
    InterruptedIsRecoverable(db, i, key, value, l, m, c);
    TwoStartsRecover(c, RestAfterWrites(db, i, key, value, l, m), key, OldValue(m, key));
    RecoveredMap(m, key, value, l.writes);
  }
}
