/** Stray bytes: what a power loss leaves when it hits before the magic word of a record, and what a later set
    may overwrite because of them. */
module KvStrays {
  import opened KvStore
  import opened KvCollect
  import opened KvRefinement
  import opened KvCrash
  import opened KvEvery
  import opened KvWalks
  import opened Wrappers

  predicate NotStray(r: Record) { !r.Stray() }

  ghost predicate NoStrays(db: Db) { Every(db, NotStray) }

  lemma NotStrayIsStable()
    ensures Stable(NotStray)
  {
  }

  // ---- Starts keep what holds of every record ----

  lemma SetStatusKeepsEvery(db: Db, a: Address, status: KvStatus, p: Record -> bool)
    requires Every(db, p) && Stable(p) && db.HasRecord(a) && !db.RecordAt(a).Stray() && status != Unused
    ensures Every(SetStatus(db, a, status), p)
  {
    assert p(db.RecordAt(a)) && p(db.RecordAt(a).(status := status));
  }

  lemma {:induction false} RecoverRecordsKeepEvery(db: Db, x: nat, j: nat, n: nat, p: Record -> bool)
    requires Every(db, p) && Stable(p) && db.oldest < |db.secs| && x < |db.secs|
    ensures Every(RecoverRecords(db, x, j, n).db, p)
    decreases n - j
  {
    hide Every, Stable, Move, SetStatus;
    if j < n && db.HasRecord(Address(x, j)) {
      var r := db.RecordAt(Address(x, j));
      if r.crcOk && r.status == PreDelete {
        MoveKeepsEvery(db, Address(x, j), p);
        RecoverRecordsKeepEvery(Move(db, Address(x, j)).db, x, j + 1, n, p);
      } else if r.status == PreWrite {
        SetStatusKeepsEvery(db, Address(x, j), ErrHdr, p);
      } else {
        RecoverRecordsKeepEvery(db, x, j + 1, n, p);
      }
    }
  }

  lemma {:induction false} RecoverSectorsKeepEvery(db: Db, k: nat, p: Record -> bool)
    requires Every(db, p) && Stable(p) && db.oldest < |db.secs| && k <= |db.secs|
    ensures Every(RecoverSectors(db, k).db, p)
    decreases |db.secs| - k
  {
    hide Every, Stable, RecoverRecords;
    if k < |db.secs| {
      var x := db.SectorAt(k);
      RecoverRecordsKeepEvery(db, x, 0, |db.secs[x].recs|, p);
      RecoverSectorsKeepEvery(RecoverSector(db, x).db, k + 1, p);
    }
  }

  lemma BootKeepsEvery(db: Db, p: Record -> bool)
    requires Every(db, p) && Stable(p) && |db.secs| > 0
    ensures Every(Boot(db), p)
  {
    hide Stable, RecoverSectors, OldestSector;
    RecoverSectorsKeepEvery(Started(db), 0, p);
  }

  // ---- Stray bytes stay where they are ----

  ghost predicate StrayAt(db: Db, a: Address) { db.HasRecord(a) && db.RecordAt(a).Stray() }

  lemma MoveKeepsStray(db: Db, a: Address, x: Address)
    requires db.oldest < |db.secs| && db.HasRecord(a) && db.RecordAt(a).Movable() && StrayAt(db, x)
    ensures StrayAt(Move(db, a).db, x)
  {
    hide Alloc, Find;
  }

  lemma {:induction false} RecoverRecordsKeepStray(db: Db, x: nat, j: nat, n: nat, s: Address)
    requires db.oldest < |db.secs| && x < |db.secs| && StrayAt(db, s)
    ensures StrayAt(RecoverRecords(db, x, j, n).db, s)
    decreases n - j
  {
    hide Move;
    if j < n && db.HasRecord(Address(x, j)) {
      var r := db.RecordAt(Address(x, j));
      if r.crcOk && r.status == PreDelete {
        MoveKeepsStray(db, Address(x, j), s);
        RecoverRecordsKeepStray(Move(db, Address(x, j)).db, x, j + 1, n, s);
      } else if r.status != PreWrite {
        RecoverRecordsKeepStray(db, x, j + 1, n, s);
      }
    }
  }

  lemma {:induction false} RecoverSectorsKeepStray(db: Db, k: nat, s: Address)
    requires db.oldest < |db.secs| && k <= |db.secs| && StrayAt(db, s)
    ensures StrayAt(RecoverSectors(db, k).db, s)
    decreases |db.secs| - k
  {
    hide RecoverRecords, StrayAt;
    if k < |db.secs| {
      var x := db.SectorAt(k);
      RecoverRecordsKeepStray(db, x, 0, |db.secs[x].recs|, s);
      RecoverSectorsKeepStray(RecoverSector(db, x).db, k + 1, s);
    }
  }

  lemma BootKeepsStray(db: Db, s: Address)
    requires |db.secs| > 0 && StrayAt(db, s)
    ensures StrayAt(Boot(db), s)
  {
    hide RecoverSectors, OldestSector;
    RecoverSectorsKeepStray(Started(db), 0, s);
  }

  lemma OldRecordKeepsEvery(db: Db, old_: Option<Address>, n: nat, p: Record -> bool)
    requires Every(db, p) && Stable(p)
    requires old_.Some? ==> db.HasRecord(old_.value) && !db.RecordAt(old_.value).Stray()
    ensures Every(OldRecordAfter(db, old_, n), p)
    ensures old_.Some? ==> OldRecordAfter(db, old_, n).HasRecord(old_.value)
                           && !OldRecordAfter(db, old_, n).RecordAt(old_.value).Stray()
  {
    hide Every, Stable;
    if n > 0 && old_.Some? {
      SetStatusKeepsEvery(db, old_.value, PreDelete, p);
      MarkKeepsEvery(db, old_.value, PreDelete, p);
    }
  }

  lemma OldRecordCount(db: Db, old_: Option<Address>, n: nat)
    requires old_.Some? ==> db.HasRecord(old_.value)
    ensures |OldRecordAfter(db, old_, n).secs| == |db.secs|
    ensures forall i :: 0 <= i < |db.secs| ==> |OldRecordAfter(db, old_, n).secs[i].recs| == |db.secs[i].recs|
  {
  }

  lemma StoreKeepsEvery(db: Db, i: nat, store: StoreStatus, p: Record -> bool)
    requires Every(db, p) && i < |db.secs|
    ensures Every(db.SetSector(i, db.secs[i].(store := store)), p)
  {
  }

  lemma AppendedStray(db: Db, i: nat, r: Record)
    requires i < |db.secs| && r.Stray()
    ensures StrayAt(AppendRecord(db, i, r), Address(i, |db.secs[i].recs|))
  {
  }

  /** The flash after a loss holds stray bytes exactly when the loss left some, and then behind the others. */
  lemma LossLeavesStrayExactly(db: Db, i: nat, key: Bytes, value: Bytes, l: Loss)
    requires NoStrays(db) && db.oldest < |db.secs| && i < |db.secs| && l.Possible()
    ensures var c := AfterWrites(db, i, Find(db, key), key, value, l);
            && |c.secs| == |db.secs|
            && (!LeavesStray(db, i, l) ==> NoStrays(c))
            && (LeavesStray(db, i, l) ==> StrayAt(c, Address(i, |db.secs[i].recs|)))
  {
    var old_, n := Find(db, key), l.writes;
    NotStrayIsStable();
    if old_.Some? {
      FoundIsNoStray(db, key);
    }
    hide Every, Stable, Find, MarkRecord, OldRecordAfter, AppendRecord, StrayAt;
    OldRecordKeepsEvery(db, old_, n, NotStray);
    var p := OldRecordAfter(db, old_, n);
    OldRecordCount(db, old_, n);
    StoreKeepsEvery(p, i, StoreAfter(p, i, RecordSize(key, value)), NotStray);
    var r := NewRecordAfter(l, db.secs[i].recs == [], key, value);
    if LeavesStray(db, i, l) {
      AppendedStray(p, i, r);
    } else {
      AppendKeepsEvery(p, i, r, NotStray);
      if n == 9 && old_.Some? {
        AppendedBefore(p, i, r, old_.value);
        MarkKeepsEvery(AppendRecord(p, i, r), old_.value, Deleted, NotStray);
      }
    }
  }

  /** After two starts the flash still holds stray bytes exactly when the loss left some. */
  lemma StartsKeepStraysExactly(db: Db, i: nat, key: Bytes, value: Bytes, l: Loss)
    requires NoStrays(db) && db.oldest < |db.secs| && i < |db.secs| && l.Possible()
    ensures var c := AfterWrites(db, i, Find(db, key), key, value, l);
            |c.secs| > 0 && (NoStrays(Boot(Boot(c))) <==> !LeavesStray(db, i, l))
  {
    var c := AfterWrites(db, i, Find(db, key), key, value, l);
    LossLeavesStrayExactly(db, i, key, value, l);
    hide Boot, AfterWrites, Find, Stable;
    NotStrayIsStable();
    if LeavesStray(db, i, l) {
      var a := Address(i, |db.secs[i].recs|);
      BootKeepsStray(c, a);
      BootKeepsStray(Boot(c), a);
      assert !NotStray(Boot(Boot(c)).secs[a.sector].recs[a.pos]);
    } else {
      BootKeepsEvery(c, NotStray);
      BootKeepsEvery(Boot(c), NotStray);
    }
  }

  // ---- Where the walk of a sector ends ----

  lemma {:induction false} NoStraysNoTotal(recs: seq<Record>)
    requires forall j :: 0 <= j < |recs| ==> !recs[j].Stray()
    ensures StrayTotal(recs) == 0 && WalkShort(recs) == 0
  {
    if recs != [] {
      NoStraysNoTotal(recs[..|recs| - 1]);
    }
  }

  lemma NoStraysWalkRight(db: Db, i: nat)
    requires NoStrays(db) && i < |db.secs|
    ensures WalkShort(db.secs[i].recs) == 0
  {
    forall j | 0 <= j < |db.secs[i].recs| ensures !db.secs[i].recs[j].Stray() {
      assert NotStray(db.secs[i].recs[j]);
    }
    NoStraysNoTotal(db.secs[i].recs);
  }
}
