/** Properties of single records that no operation can break: whatever holds of every record, and of every new
    one, whatever their status, holds for ever. */
module KvEvery {
  import opened KvStore
  import opened KvRefinement
  import opened Wrappers

  ghost predicate Every(db: Db, p: Record -> bool) {
    forall i, j :: 0 <= i < |db.secs| && 0 <= j < |db.secs[i].recs| ==> p(db.secs[i].recs[j])
  }

  /** A change of status does not matter. */
  ghost predicate Stable(p: Record -> bool) {
    forall r, s :: p(r) && !r.Stray() && s != Unused ==> p(r.(status := s))
  }

  /** The record of a set has the property, if one is written at all. */
  ghost predicate AllowsSet(p: Record -> bool, key: Bytes, value: Bytes) {
    |key| <= NAME_MAX ==> p(Record(Written, true, key, value))
  }

  // ---- Single changes ----

  lemma MarkKeepsEvery(db: Db, a: Address, status: KvStatus, p: Record -> bool)
    requires Every(db, p) && Stable(p) && db.HasRecord(a) && !db.RecordAt(a).Stray() && status != Unused
    ensures Every(MarkRecord(db, a, status), p)
  {
    assert p(db.RecordAt(a)) && p(db.RecordAt(a).(status := status));
  }

  lemma AppendKeepsEvery(db: Db, i: nat, r: Record, p: Record -> bool)
    requires Every(db, p) && i < |db.secs| && p(r)
    ensures Every(AppendRecord(db, i, r), p)
  {
  }

  lemma SectorKeepsEvery(db: Db, x: nat, s: Sector, p: Record -> bool)
    requires Every(db, p) && x < |db.secs| && forall j :: 0 <= j < |s.recs| ==> p(s.recs[j])
    ensures Every(db.SetSector(x, s), p)
  {
  }

  lemma SameSectorsKeepEvery(db: Db, db': Db, p: Record -> bool)
    requires Every(db, p) && db'.secs == db.secs
    ensures Every(db', p)
  {
  }

  lemma FoundIsNoStray(db: Db, key: Bytes)
    requires db.oldest < |db.secs| && Find(db, key).Some?
    ensures !db.RecordAt(Find(db, key).value).Stray()
  {
  }

  // ---- Collection ----

  lemma MoveKeepsEvery(db: Db, a: Address, p: Record -> bool)
    requires Every(db, p) && Stable(p) && db.oldest < |db.secs| && db.HasRecord(a) && db.RecordAt(a).Movable()
    ensures Every(Move(db, a).db, p)
  {
    hide Every, MarkRecord, AppendRecord, Alloc, Find;
    var kv := db.RecordAt(a);
    var prepared := if kv.status == Written then MarkRecord(db, a, PreDelete) else db;
    if kv.status == Written {
      MarkKeepsEvery(db, a, PreDelete, p);
    }
    MarkedRecord(db, a, PreDelete);
    var alloc := Alloc(prepared, kv.Len());
    SameSectorsKeepEvery(prepared, alloc.db, p);
    assert alloc.db.HasRecord(a) && alloc.db.RecordAt(a).status == PreDelete;
    MarkKeepsEvery(alloc.db, a, Deleted, p);
    if alloc.sector.Some? {
      RecordHas(db, a, p);
      var copy := kv.(status := Written);
      AppendKeepsEvery(alloc.db, alloc.sector.value, copy, p);
      AppendedBefore(alloc.db, alloc.sector.value, copy, a);
      MarkKeepsEvery(AppendRecord(alloc.db, alloc.sector.value, copy), a, Deleted, p);
    }
  }

  lemma RecordHas(db: Db, a: Address, p: Record -> bool)
    requires Every(db, p) && db.HasRecord(a)
    ensures p(db.RecordAt(a))
  {
  }

  lemma MarkedRecord(db: Db, a: Address, status: KvStatus)
    requires db.HasRecord(a)
    ensures MarkRecord(db, a, status) == db.(secs := MarkRecord(db, a, status).secs)
    ensures MarkRecord(db, a, status).HasRecord(a)
    ensures MarkRecord(db, a, status).RecordAt(a) == db.RecordAt(a).(status := status)
  {
  }

  lemma AppendedBefore(db: Db, i: nat, r: Record, a: Address)
    requires i < |db.secs| && db.HasRecord(a)
    ensures AppendRecord(db, i, r).RecordAt(a) == db.RecordAt(a)
  {
  }

  lemma {:induction false} MoveRecordsKeepEvery(db: Db, x: nat, j: nat, n: nat, p: Record -> bool)
    requires Every(db, p) && Stable(p) && db.oldest < |db.secs| && x < |db.secs|
    ensures Every(MoveRecords(db, x, j, n).db, p)
    decreases n - j
  {
    hide Every, Move, Stable;
    if j < n && db.HasRecord(Address(x, j)) {
      if db.secs[x].recs[j].Movable() {
        MoveKeepsEvery(db, Address(x, j), p);
        MoveRecordsKeepEvery(Move(db, Address(x, j)).db, x, j + 1, n, p);
      } else {
        MoveRecordsKeepEvery(db, x, j + 1, n, p);
      }
    }
  }

  lemma CollectSectorKeepsEvery(db: Db, x: nat, p: Record -> bool)
    requires Every(db, p) && Stable(p) && db.oldest < |db.secs| && x < |db.secs|
    ensures Every(CollectSector(db, x).db, p)
  {
    hide Stable, MoveRecords;
    var marked := db.SetSector(x, db.secs[x].(dirty := Collecting));
    SectorKeepsEvery(db, x, marked.secs[x], p);
    MoveRecordsKeepEvery(marked, x, 0, |db.secs[x].recs|, p);
    var moved := MoveRecords(marked, x, 0, |db.secs[x].recs|).db;
    SectorKeepsEvery(moved, x, EMPTY_SECTOR, p);
  }

  lemma {:induction false} CollectFromKeepsEvery(db: Db, first: nat, k: nat, last: nat, wanted: nat, p: Record -> bool)
    requires Every(db, p) && Stable(p) && db.oldest < |db.secs|
    requires first < |db.secs| && k <= |db.secs| && last < |db.secs|
    ensures Every(CollectFrom(db, first, k, last, wanted).db, p)
    decreases |db.secs| - k
  {
    hide Every, Stable, CollectSector;
    if k < |db.secs| {
      var x := db.(oldest := first).SectorAt(k);
      if db.secs[x].dirty == Clean {
        CollectFromKeepsEvery(db, first, k + 1, last, wanted, p);
      } else {
        CollectSectorKeepsEvery(db, x, p);
        var c := CollectSector(db, x);
        if c.db.Remain(last) <= wanted {
          CollectFromKeepsEvery(c.db, first, k + 1, x, wanted, p);
        }
      }
    }
  }

  lemma CollectKeepsEvery(db: Db, wanted: nat, p: Record -> bool)
    requires Every(db, p) && Stable(p) && db.oldest < |db.secs|
    ensures Every(Collect(db, wanted).db, p)
  {
    hide Stable, CollectFrom, CountStore, LastEmpty;
    if CountStore(db.secs, Empty) <= GC_EMPTY_SEC_THRESHOLD {
      CollectFromKeepsEvery(db, db.oldest, 0, LastEmpty(db, 0, 0), wanted, p);
    }
  }

  // ---- Operations ----

  lemma NewKvKeepsEvery(db: Db, size: nat, p: Record -> bool)
    requires Every(db, p) && Stable(p) && db.oldest < |db.secs|
    ensures Every(NewKv(db, size).db, p)
  {
    hide Stable, Alloc, Collect;
    var first := Alloc(db, size);
    if first.sector == None && first.db.gcRequest {
      CollectKeepsEvery(first.db, size, p);
    }
  }

  lemma CreateKeepsEvery(db: Db, i: nat, key: Bytes, value: Bytes, p: Record -> bool)
    requires Every(db, p) && i < |db.secs| && AllowsSet(p, key, value)
    ensures Every(CreateKv(db, i, key, value).db, p)
    ensures forall a :: db.HasRecord(a) ==> CreateKv(db, i, key, value).db.RecordAt(a) == db.RecordAt(a)
  {
    if |key| <= NAME_MAX {
      AppendKeepsEvery(db, i, Record(Written, true, key, value), p);
    }
  }

  lemma ReplaceKeepsEvery(db: Db, i: nat, old_: Option<Address>, key: Bytes, value: Bytes, p: Record -> bool)
    requires Every(db, p) && Stable(p) && db.oldest < |db.secs| && i < |db.secs| && AllowsSet(p, key, value)
    requires old_.Some? ==> db.HasRecord(old_.value) && !db.RecordAt(old_.value).Stray()
    ensures Every(Replace(db, i, old_, key, value).db, p)
  {
    hide Every, Stable, AllowsSet, MarkRecord, CreateKv, Collect;
    var prepared := if old_.Some? then MarkRecord(db, old_.value, PreDelete) else db;
    if old_.Some? {
      MarkKeepsEvery(db, old_.value, PreDelete, p);
      MarkedRecord(db, old_.value, PreDelete);
    }
    CreateKeepsEvery(prepared, i, key, value, p);
    var created := CreateKv(prepared, i, key, value);
    if old_.Some? && created.error == NoError {
      MarkKeepsEvery(created.db, old_.value, Deleted, p);
      MarkedRecord(created.db, old_.value, Deleted);
    }
    var finished := if old_.Some? && created.error == NoError then MarkRecord(created.db, old_.value, Deleted)
                    else created.db;
    if finished.gcRequest {
      CollectKeepsEvery(finished, RecordSize(key, value), p);
    }
  }

  lemma SetKeepsEvery(db: Db, key: Bytes, value: Bytes, p: Record -> bool)
    requires Every(db, p) && Stable(p) && db.oldest < |db.secs| && AllowsSet(p, key, value)
    ensures Every(SetKv(db, key, value).db, p)
  {
    hide Every, Stable, AllowsSet, NewKv, Replace, Find;
    NewKvKeepsEvery(db, RecordSize(key, value), p);
    var alloc := NewKv(db, RecordSize(key, value));
    if alloc.sector.Some? {
      if Find(alloc.db, key).Some? {
        FoundIsNoStray(alloc.db, key);
      }
      ReplaceKeepsEvery(alloc.db, alloc.sector.value, Find(alloc.db, key), key, value, p);
    }
  }

  lemma DelKeepsEvery(db: Db, key: Bytes, p: Record -> bool)
    requires Every(db, p) && Stable(p) && db.oldest < |db.secs|
    ensures Every(DelKv(db, key).db, p)
  {
    hide Every, Stable, Find, MarkRecord;
    if Find(db, key).Some? {
      FoundIsNoStray(db, key);
      MarkKeepsEvery(db, Find(db, key).value, Deleted, p);
    }
  }

  ghost predicate AllowsStep(p: Record -> bool, op: Operation) {
    op.Set? ==> AllowsSet(p, op.key, op.value)
  }

  lemma StepKeepsEvery(s: State, op: Operation, p: Record -> bool)
    requires Every(s.db, p) && Stable(p) && s.db.oldest < |s.db.secs| && AllowsStep(p, op)
    ensures Every(Step(s, op).db, p)
  {
    hide Every, Stable, SetKv, DelKv;
    match op
    case Set(k, v) => SetKeepsEvery(s.db, k, v, p);
    case Delete(k) => DelKeepsEvery(s.db, k, p);
    case Get(k) =>
  }
}
