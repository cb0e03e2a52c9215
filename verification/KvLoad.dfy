/** The start of the key-value database as the program runs it: one loop to find the oldest sector, one over
    sectors and records to complete what a power loss interrupted. */
module KvLoads {
  import opened KvCrash
  import opened KvStore
  import opened Wrappers

  class KvLoader {
    var db: Db

    constructor (flash: Db)
      ensures db == flash
    {
      db := flash;
    }

    /** Find the oldest sector: the last one in use that follows an empty one. */
    method FindOldest()
      requires |db.secs| > 0
      modifies this
      ensures db == old(db).(oldest := OldestSector(old(db).secs, 0, 0))
      ensures LastHead(db.secs, db.oldest)
    {
      var oldest: nat, last: Option<StoreStatus> := 0, None;
      for i := 0 to |db.secs|
        invariant oldest < |db.secs| && db == old(db)
        invariant last == if i == 0 then None else Some(db.secs[i - 1].store)
        invariant OldestSector(db.secs, i, oldest) == OldestSector(db.secs, 0, 0)
      {
        if last == Some(Empty) && db.secs[i].store != Empty {
          oldest := i;
        }
        last := Some(db.secs[i].store);
      }
      OldestIs(db.secs, oldest);
      db := db.(oldest := oldest);
    }

    /** Look at one record: complete its deletion, or mark it if its write is incomplete. */
    method RecoverRecord(a: Address) returns (stop: bool)
      requires db.oldest < |db.secs| && db.HasRecord(a)
      modifies this
      ensures |db.secs| == |old(db).secs| && db.oldest == old(db).oldest
      ensures forall n :: a.pos < n ==>
                RecoverRecords(old(db), a.sector, a.pos, n) ==
                if stop then Scanned(db, true) else RecoverRecords(db, a.sector, a.pos + 1, n)
    {
      hide Move;
      var r := db.RecordAt(a);
      assert a == Address(a.sector, a.pos);
      if r.crcOk && r.status == PreDelete {
        var moved := Move(db, a);
        db := moved.db;
        return !moved.ok;
      } else if r.status == PreWrite {
        db := SetStatus(db, a, ErrHdr);
        return true;
      }
      return false;
    }

    /** Look at the records that a sector holds when its scan begins; copies that the scan itself appends are
        written and need nothing. */
    method RecoverIn(x: nat) returns (stopped: bool)
      requires db.oldest < |db.secs| && x < |db.secs|
      modifies this
      ensures RecoverSector(old(db), x) == Scanned(db, stopped)
    {
      hide RecoverRecords;
      stopped := false;
      if db.secs[x].store != Empty {
        var n := |db.secs[x].recs|;
        var j: nat := 0;
        while j < n && db.HasRecord(Address(x, j))
          invariant j <= n && x < |db.secs| == |old(db).secs| && db.oldest == old(db).oldest < |db.secs|
          invariant RecoverRecords(db, x, j, n) == RecoverRecords(old(db), x, 0, n)
          decreases n - j
        {
          stopped := RecoverRecord(Address(x, j));
          if stopped {
            return;
          }
          j := j + 1;
        }
        ScanDone(db, x, j, n);
      }
    }

    /** One start of the database. */
    method Load()
      requires |db.secs| > 0
      modifies this
      ensures db == Boot(old(db))
    {
      hide RecoverSector, OldestSector;
      FindOldest();
      db := db.(gcRequest := false, recovering := true);
      ghost var started := db;
      for k := 0 to |db.secs|
        invariant |db.secs| == |started.secs| && db.oldest == started.oldest < |db.secs|
        invariant RecoverSectors(db, k) == RecoverSectors(started, 0)
      {
        var stopped := RecoverIn(db.SectorAt(k));
        if stopped {
          break;
        }
      }
      db := db.(recovering := false);
    }
  }

  lemma ScanDone(db: Db, x: nat, j: nat, n: nat)
    requires db.oldest < |db.secs| && x < |db.secs| && (j >= n || !db.HasRecord(Address(x, j)))
    ensures RecoverRecords(db, x, j, n) == Scanned(db, false)
  {
  }
}
