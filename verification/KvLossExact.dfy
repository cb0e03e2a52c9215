/** Exactly which power loss lets the next set destroy a key, and a run in which it does. */
module KvLossExact {
  import opened KvStore
  import opened KvCollect
  import opened KvRefinement
  import opened KvCrash
  import opened KvEvery
  import opened KvStrays
  import opened KvWalks
  import opened KvOverwrites
  import opened Wrappers

  // ---- What a start does to a database with one pending deletion ----

  predicate Pending(r: Record) { r.status == PreWrite || (r.crcOk && r.status == PreDelete) }

  lemma {:induction false} NothingInSector(db: Db, x: nat, j: nat, n: nat)
    requires db.oldest < |db.secs| && x < |db.secs|
    requires forall l :: j <= l < |db.secs[x].recs| ==> !Pending(db.secs[x].recs[l])
    ensures RecoverRecords(db, x, j, n) == Scanned(db, false)
    decreases n - j
  {
    if j < n && db.HasRecord(Address(x, j)) {
      NothingInSector(db, x, j + 1, n);
    }
  }

  /** Nothing is pending in any sector from the `k`-th on. */
  ghost predicate QuietFrom(db: Db, k: nat)
    requires db.oldest < |db.secs|
  {
    forall x :: db.HasRecord(x) && ScanIndex(db, x.sector) >= k ==> !Pending(db.RecordAt(x))
  }

  lemma QuietSector(db: Db, x: nat, k: nat)
    requires db.oldest < |db.secs| && x < |db.secs| && QuietFrom(db, k) && ScanIndex(db, x) >= k
    ensures RecoverSector(db, x) == Scanned(db, false)
  {
    forall l | 0 <= l < |db.secs[x].recs| ensures !Pending(db.secs[x].recs[l]) {
      assert !Pending(db.RecordAt(Address(x, l)));
    }
    NothingInSector(db, x, 0, |db.secs[x].recs|);
  }

  lemma {:induction false} NothingPending(db: Db, k: nat)
    requires db.oldest < |db.secs| && k <= |db.secs| && QuietFrom(db, k)
    ensures RecoverSectors(db, k) == Scanned(db, false)
    decreases |db.secs| - k
  {
    hide RecoverSector;
    if k < |db.secs| {
      QuietSector(db, db.SectorAt(k), k);
      NothingPending(db, k + 1);
    }
  }

  /** Only the record at `a` is pending, and completing its deletion leaves nothing pending. */
  ghost predicate OnlyPending(db: Db, a: Address) {
    && db.oldest < |db.secs| && db.HasRecord(a) && db.RecordAt(a).crcOk && db.RecordAt(a).status == PreDelete
    && db.secs[a.sector].store != Empty
    && (forall x :: db.HasRecord(x) && x != a ==> !Pending(db.RecordAt(x)))
    && Move(db, a).ok && QuietFrom(Move(db, a).db, 0)
  }

  lemma {:induction false} OneInSector(db: Db, a: Address, j: nat, n: nat)
    requires OnlyPending(db, a) && j <= a.pos < n
    ensures RecoverRecords(db, a.sector, j, n) == Scanned(Move(db, a).db, false)
    decreases n - j
  {
    var d := Move(db, a).db;
    if j == a.pos {
      forall l | j + 1 <= l < |d.secs[a.sector].recs| ensures !Pending(d.secs[a.sector].recs[l]) {
        assert !Pending(d.RecordAt(Address(a.sector, l)));
      }
      NothingInSector(d, a.sector, j + 1, n);
      assert Address(a.sector, j) == a;
    } else {
      assert !Pending(db.RecordAt(Address(a.sector, j)));
      OneInSector(db, a, j + 1, n);
    }
  }

  lemma {:induction false} OnePending(db: Db, a: Address, k: nat)
    requires OnlyPending(db, a) && k <= ScanIndex(db, a.sector)
    ensures RecoverSectors(db, k) == Scanned(Move(db, a).db, false)
    decreases |db.secs| - k
  {
    hide Move;
    var x := db.SectorAt(k);
    if x == a.sector {
      OneInSector(db, a, 0, |db.secs[x].recs|);
      NothingPending(Move(db, a).db, k + 1);
    } else {
      forall l | 0 <= l < |db.secs[x].recs| ensures !Pending(db.secs[x].recs[l]) {
        assert !Pending(db.RecordAt(Address(x, l)));
      }
      NothingInSector(db, x, 0, |db.secs[x].recs|);
      OnePending(db, a, k + 1);
    }
  }

  // ---- What a start does to a database with an incomplete record ----

  lemma {:induction false} StopsInSector(db: Db, b: Address, j: nat, n: nat)
    requires db.oldest < |db.secs| && db.HasRecord(b) && db.RecordAt(b).status == PreWrite && j <= b.pos < n
    requires forall l :: j <= l < b.pos ==> !Pending(db.secs[b.sector].recs[l])
    ensures RecoverRecords(db, b.sector, j, n) == Scanned(SetStatus(db, b, ErrHdr), true)
    decreases b.pos - j
  {
    assert db.RecordAt(Address(b.sector, j)) == db.secs[b.sector].recs[j];
    if j < b.pos {
      StopsInSector(db, b, j + 1, n);
    } else {
      assert Address(b.sector, j) == b;
    }
  }

  /** The scan meets the record at `a` before the one at `x`. */
  predicate Earlier(db: Db, a: Address, x: Address)
    requires db.oldest < |db.secs| && a.sector < |db.secs| && x.sector < |db.secs|
  {
    ScanIndex(db, a.sector) < ScanIndex(db, x.sector) || (a.sector == x.sector && a.pos < x.pos)
  }

  /** The record at `b` is incomplete, and from the `k`-th sector on the scan meets nothing pending before it. */
  ghost predicate FirstIncomplete(db: Db, b: Address, k: nat) {
    && db.oldest < |db.secs| && db.HasRecord(b) && db.RecordAt(b).status == PreWrite
    && db.secs[b.sector].store != Empty && k <= ScanIndex(db, b.sector)
    && (forall x :: db.HasRecord(x) && ScanIndex(db, x.sector) >= k && Earlier(db, x, b) ==> !Pending(db.RecordAt(x)))
  }

  lemma {:induction false} StopsThere(db: Db, b: Address, k: nat)
    requires FirstIncomplete(db, b, k)
    ensures RecoverSectors(db, k) == Scanned(SetStatus(db, b, ErrHdr), true)
    decreases |db.secs| - k
  {
    hide SetStatus, RecoverRecords;
    var x := db.SectorAt(k);
    assert ScanIndex(db, x) == k;
    forall l | 0 <= l < |db.secs[x].recs| && Earlier(db, Address(x, l), b) ensures !Pending(db.secs[x].recs[l]) {
      assert !Pending(db.RecordAt(Address(x, l)));
    }
    if x == b.sector {
      StopsInSector(db, b, 0, |db.secs[x].recs|);
    } else {
      NothingInSector(db, x, 0, |db.secs[x].recs|);
      StopsThere(db, b, k + 1);
    }
  }

  /** A start that meets an incomplete record before anything else to recover marks it and does nothing else: the
      scan ends there, and a pending deletion behind it waits for the next start. */
  lemma IncompleteEndsStart(db: Db, b: Address)
    requires |db.secs| > 0 && FirstIncomplete(Started(db), b, 0)
    ensures Boot(db) == SetStatus(Started(db), b, ErrHdr).(recovering := false)
  {
    hide OldestSector, RecoverSectors, SetStatus;
    StopsThere(Started(db), b, 0);
  }

  /** Behind the pending deletion at `a`, the first, comes the incomplete record at `b`. */
  ghost predicate DeletionFirst(db: Db, a: Address, b: Address, d: Db) {
    && db.oldest < |db.secs| && db.HasRecord(a) && db.RecordAt(a).crcOk && db.RecordAt(a).status == PreDelete
    && db.secs[a.sector].store != Empty
    && (forall x :: db.HasRecord(x) && Earlier(db, x, a) ==> !Pending(db.RecordAt(x)))
    && Move(db, a) == Moved(d, true) && b.sector < |db.secs| && Earlier(db, a, b) && FirstIncomplete(d, b, 0)
    && db.HasRecord(b)
  }

  lemma {:induction false} MovesThenStops(db: Db, a: Address, b: Address, d: Db, j: nat, n: nat)
    requires DeletionFirst(db, a, b, d) && j <= a.pos < n && n == |db.secs[a.sector].recs|
    ensures RecoverRecords(db, a.sector, j, n) ==
            if a.sector == b.sector then Scanned(SetStatus(d, b, ErrHdr), true) else Scanned(d, false)
    decreases n - j
  {
    hide SetStatus, Move;
    if j < a.pos {
      assert !Pending(db.RecordAt(Address(a.sector, j)));
      MovesThenStops(db, a, b, d, j + 1, n);
    } else {
      assert Address(a.sector, j) == a;
      forall l | 0 <= l < |d.secs[a.sector].recs| && Earlier(d, Address(a.sector, l), b)
        ensures !Pending(d.secs[a.sector].recs[l])
      {
        assert !Pending(d.RecordAt(Address(a.sector, l)));
      }
      if a.sector == b.sector {
        StopsInSector(d, b, j + 1, n);
      } else {
        NothingInSector(d, a.sector, j + 1, n);
      }
    }
  }

  lemma {:induction false} MovesThenStopsFrom(db: Db, a: Address, b: Address, d: Db, k: nat)
    requires DeletionFirst(db, a, b, d) && k <= ScanIndex(db, a.sector)
    ensures RecoverSectors(db, k) == Scanned(SetStatus(d, b, ErrHdr), true)
    decreases |db.secs| - k
  {
    hide SetStatus, Move, RecoverRecords;
    var x := db.SectorAt(k);
    assert ScanIndex(db, x) == k;
    if x == a.sector {
      MovesThenStops(db, a, b, d, 0, |db.secs[x].recs|);
      if x != b.sector {
        StopsThere(d, b, k + 1);
      }
    } else {
      forall l | 0 <= l < |db.secs[x].recs| ensures !Pending(db.secs[x].recs[l]) {
        assert !Pending(db.RecordAt(Address(x, l)));
      }
      NothingInSector(db, x, 0, |db.secs[x].recs|);
      MovesThenStopsFrom(db, a, b, d, k + 1);
    }
  }

  /** A start that meets the pending deletion first completes it, then marks the incomplete record. */
  lemma DeletionThenIncomplete(db: Db, a: Address, b: Address)
    requires |db.secs| > 0 && db.HasRecord(a)
    requires DeletionFirst(Started(db), a, b, Move(Started(db), a).db)
    ensures Boot(db) == SetStatus(Move(Started(db), a).db, b, ErrHdr).(recovering := false)
  {
    hide OldestSector, RecoverSectors, SetStatus, Move;
    MovesThenStopsFrom(Started(db), a, b, Move(Started(db), a).db, 0);
  }

  lemma UnbrokenIsQuiet(db: Db)
    requires Broken(db, None, None)
    ensures db.oldest < |db.secs| && QuietFrom(db, 0)
  {
  }

  lemma QuietBoot(db: Db)
    requires Broken(db, None, None)
    ensures |db.secs| > 0 && Boot(db).secs == db.secs && Broken(Boot(db), None, None)
  {
    hide SectorSound, CountStore, OldestSector;
    BrokenAnyOldest(db, None, None);
    UnbrokenIsQuiet(Started(db));
    NothingPending(Started(db), 0);
    StoppedBroken(Started(db), None, None);
  }

  /** Two starts after a loss that left a pending deletion at `a` and nothing else: the record is moved. */
  lemma PendingDeletionMoves(c: Db, a: Address, key: Bytes, value: Bytes, m: map<Bytes, Bytes>)
    requires Recoverable(c, Rest(Some(a), None, m), key, value) && key !in m
    ensures |c.secs| > 0 && c.HasRecord(a)
    ensures var s := Started(c);
            var w := Alloc(s, RecordSize(key, value)).sector;
            && s.oldest < |s.secs| && w.Some? && w.value < |c.secs|
            && var copied := AppendRecord(s, w.value, c.RecordAt(a).(status := Written));
               copied.HasRecord(a) && Boot(Boot(c)).secs == MarkRecord(copied, a, Deleted).secs
  {
    var s := Started(c);
    BrokenAnyOldest(c, Some(a), None);
    hide LiveOf, Represents, SectorSound, CountStore, OldestSector, Find, AppendRecord, MarkRecord, Alloc,
      RecoverSectors;
    MoveRecovers(s, a, None, key, value, m);
    MovedIsCopied(s, a, key, value, m);
    PreparedIsIntact(s, a, None);
    UnbrokenIsQuiet(Move(s, a).db);
    OnePending(s, a, 0);
    StoppedBroken(Move(s, a).db, None, None);
    QuietBoot(Boot(c));
  }

  lemma MovedIsCopied(s: Db, a: Address, key: Bytes, value: Bytes, m: map<Bytes, Bytes>)
    requires Recovering(s, Some(a), None, key, value, m) && key !in m
    ensures s.oldest < |s.secs|
    ensures var w := Alloc(s, RecordSize(key, value)).sector;
            && w.Some?
            && var copied := AppendRecord(s, w.value, s.RecordAt(a).(status := Written));
               copied.HasRecord(a) && Move(s, a).db == MarkRecord(copied, a, Deleted)
  {
    hide LiveOf, Represents, SectorSound, CountStore, Find, AppendRecord, MarkRecord, FirstFit;
    PreparedIsIntact(s, a, None);
    AllocReserves(s, RecordSize(key, value));
    FoundPair(s, key, m);
  }

  // ---- Where walks fall short after a loss ----

  lemma {:induction false} StrayCounts(recs: seq<Record>, j: nat)
    requires j < |recs| && recs[j].Stray()
    ensures StrayTotal(recs) >= |recs[j].name|
  {
    if j < |recs| - 1 {
      StrayCounts(recs[..|recs| - 1], j);
    }
  }

  predicate LastByteErased(s: Bytes) { s != [] && s[|s| - 1] == 0xFF }

  lemma ShortBehindStray(recs: seq<Record>, j: nat)
    requires j < |recs| - 1 && recs[j].Stray() && |recs[j].name| > 0 && !recs[|recs| - 1].Stray()
    ensures WalkShort(recs) > 0 <==> LastByteErased(recs[|recs| - 1].name + recs[|recs| - 1].value)
  {
    StrayCounts(recs, j);
  }

  /** The flash after the loss and two starts, sector by sector: the stray bytes are behind what was there, and
      the copy of the old record, if one was made, is behind what its sector held. */
  ghost predicate Settles(db: Db, i: nat, l: Loss, b: Db, copied: Option<nat>, copy: Record)
    requires i < |db.secs|
  {
    && |b.secs| == |db.secs|
    && forall k :: 0 <= k < |b.secs| ==>
         var recs, was := b.secs[k].recs, db.secs[k].recs;
         var strays := if k == i then 1 else 0;
         && |recs| == |was| + strays + (if copied == Some(k) then 1 else 0)
         && (forall j :: 0 <= j < |was| ==> !recs[j].Stray())
         && (k == i ==> recs[|was|].Stray() && |recs[|was|].name| > 0)
         && (copied == Some(k) ==> recs[|recs| - 1] == copy)
  }

  lemma SettledWalks(db: Db, i: nat, l: Loss, b: Db, copied: Option<nat>, copy: Record, t: nat)
    requires i < |db.secs| && Settles(db, i, l, b, copied, copy) && !copy.Stray() && t < |b.secs|
    ensures WalkShort(b.secs[t].recs) > 0 <==> t == i && copied == Some(i) && LastByteErased(copy.name + copy.value)
    ensures WalkShort(b.secs[t].recs) > 0 ==> b.secs[t].recs != [] && b.secs[t].recs[|b.secs[t].recs| - 1] == copy
  {
    var recs, was := b.secs[t].recs, db.secs[t].recs;
    if t != i {
      forall j | 0 <= j < |recs| ensures !recs[j].Stray() {
      }
      NoStraysNoTotal(recs);
    } else if copied == Some(i) {
      ShortBehindStray(recs, |was|);
    }
  }

  lemma PreparedRecords(db: Db, key: Bytes, n: nat)
    requires NoStrays(db) && db.oldest < |db.secs|
    ensures var p := OldRecordAfter(db, Find(db, key), n);
            && |p.secs| == |db.secs|
            && forall k :: 0 <= k < |p.secs| ==>
                 && |p.secs[k].recs| == |db.secs[k].recs|
                 && forall j :: 0 <= j < |p.secs[k].recs| ==> !p.secs[k].recs[j].Stray()
  {
    NotStrayIsStable();
    if Find(db, key).Some? {
      FoundIsNoStray(db, key);
    }
    hide Find, OldRecordAfter, Stable;
    OldRecordKeepsEvery(db, Find(db, key), n, NotStray);
    OldRecordCount(db, Find(db, key), n);
    var p := OldRecordAfter(db, Find(db, key), n);
    forall k, j | 0 <= k < |p.secs| && 0 <= j < |p.secs[k].recs| ensures !p.secs[k].recs[j].Stray() {
      assert NotStray(p.secs[k].recs[j]);
    }
  }

  /** The flash right after a loss that leaves stray bytes. */
  lemma StrayLoss(db: Db, i: nat, key: Bytes, value: Bytes, l: Loss)
    requires NoStrays(db) && db.oldest < |db.secs| && i < |db.secs| && l.Possible() && LeavesStray(db, i, l)
    ensures Settles(db, i, l, AfterWrites(db, i, Find(db, key), key, value, l), None, ERROR_RECORD)
  {
    hide Find, OldRecordAfter, NoStrays;
    PreparedRecords(db, key, 4);
  }

  lemma CopyAndMark(db: Db, i: nat, l: Loss, c: Db, a: Address, w: nat, copy: Record)
    requires i < |db.secs| && Settles(db, i, l, c, None, ERROR_RECORD) && w < |c.secs| && !copy.Stray()
    requires c.HasRecord(a) && !c.RecordAt(a).Stray()
    ensures AppendRecord(c, w, copy).HasRecord(a)
    ensures Settles(db, i, l, MarkRecord(AppendRecord(c, w, copy), a, Deleted), Some(w), copy)
  {
  }

  lemma SettlesBySectors(db: Db, i: nat, l: Loss, b: Db, b': Db, copied: Option<nat>, copy: Record)
    requires i < |db.secs| && Settles(db, i, l, b, copied, copy) && b'.secs == b.secs
    ensures Settles(db, i, l, b', copied, copy)
  {
  }

  /** What a set needs before a loss can be looked at: room in sector `i`, for a pending deletion room for a copy at
      the next start, and for a record that is not complete no second magic word. */
  ghost predicate LossIn(db: Db, i: nat, key: Bytes, value: Bytes, l: Loss, m: map<Bytes, Bytes>) {
    && Idle(db) && NoStrays(db) && Represents(LiveOf(db.secs), m) && |key| < NAME_MAX
    && Reserved(db, i, RecordSize(key, value)) && l.Possible() && SkippedWhole(l, key, value)
    && (1 <= l.writes < SET_WRITES && key in m ==>
          RoomToRecover(Lost(db, i, key, value, l), RecordSize(key, m[key])))
  }

  /** The flash after the loss. */
  function Lost(db: Db, i: nat, key: Bytes, value: Bytes, l: Loss): (c: Db)
    requires db.oldest < |db.secs| && i < |db.secs| && l.Possible()
    ensures |c.secs| > 0
  {
    LostSectors(db, i, key, value, l);
    AfterWrites(db, i, Find(db, key), key, value, l)
  }

  lemma LostSectors(db: Db, i: nat, key: Bytes, value: Bytes, l: Loss)
    requires db.oldest < |db.secs| && i < |db.secs| && l.Possible()
    ensures |AfterWrites(db, i, Find(db, key), key, value, l).secs| == |db.secs|
  {
  }

  /** The pair that a pending deletion brings back. */
  function OldRecord(key: Bytes, value: Bytes): Record { Record(Written, true, key, value) }

  lemma StrayLossRest(db: Db, i: nat, key: Bytes, value: Bytes, l: Loss, m: map<Bytes, Bytes>)
    requires LossIn(db, i, key, value, l, m) && LeavesStray(db, i, l)
    ensures db.oldest < |db.secs| && |Lost(db, i, key, value, l).secs| == |db.secs|
    ensures key in m ==> Find(db, key).Some? && key !in m - {key}
                         && Recoverable(Lost(db, i, key, value, l), Rest(Find(db, key), None, m - {key}), key, m[key])
    ensures key !in m ==> Broken(Lost(db, i, key, value, l), None, None)
  {
    FoundPair(db, key, m);
    hide LiveOf, Represents, Find, AfterWrites, Broken, RoomToRecover, SectorSound, Settled, CountStore, NoStrays;
    EveryPrefixIsSafe(db, i, key, value, l, m);
    InterruptedIsRecoverable(db, i, key, value, l, m, Lost(db, i, key, value, l));
    LostSectors(db, i, key, value, l);
  }

  lemma PendingRecord(c: Db, a: Address, key: Bytes, value: Bytes, m: map<Bytes, Bytes>)
    requires Recoverable(c, Rest(Some(a), None, m), key, value)
    ensures c.HasRecord(a) && c.RecordAt(a).(status := Written) == OldRecord(key, value) && !c.RecordAt(a).Stray()
  {
    PreparedIsIntact(c, a, None);
  }

  lemma SettledAfterStarts(db: Db, i: nat, key: Bytes, value: Bytes, l: Loss, m: map<Bytes, Bytes>)
    requires LossIn(db, i, key, value, l, m) && LeavesStray(db, i, l)
    ensures var c := Lost(db, i, key, value, l);
            if key in m then
              Started(c).oldest < |c.secs| &&
              Settles(db, i, l, Boot(Boot(c)), Alloc(Started(c), RecordSize(key, m[key])).sector,
                  OldRecord(key, m[key]))
            else Settles(db, i, l, Boot(Boot(c)), None, ERROR_RECORD)
  {
    var c := Lost(db, i, key, value, l);
    StrayLossRest(db, i, key, value, l, m);
    StrayLoss(db, i, key, value, l);
    hide LossIn, Recoverable, Broken, Find, Lost, Alloc, Boot, Settles, AppendRecord, MarkRecord, OldestSector;
    if key in m {
      var a := Find(db, key).value;
      PendingDeletionMoves(c, a, key, m[key], m - {key});
      PendingRecord(c, a, key, m[key], m - {key});
      var s := Started(c);
      var w := Alloc(s, RecordSize(key, m[key])).sector.value;
      SettlesBySectors(db, i, l, c, s, None, ERROR_RECORD);
      CopyAndMark(db, i, l, s, a, w, OldRecord(key, m[key]));
      SettlesBySectors(db, i, l, MarkRecord(AppendRecord(s, w, OldRecord(key, m[key])), a, Deleted), Boot(Boot(c)),
                       Some(w), OldRecord(key, m[key]));
    } else {
      QuietBoot(c);
      QuietBoot(Boot(c));
      SettlesBySectors(db, i, l, c, Boot(Boot(c)), None, ERROR_RECORD);
    }
  }

  // ---- Exactly which loss is fatal ----

  /** Sector `i` has room for a record of `size` bytes besides stray bytes, and no other sector in use that the next
      start looks at before it has room. */
  predicate TakesCopy(db: Db, i: nat, l: Loss, size: nat)
    requires db.oldest < |db.secs| && i < |db.secs| && l.header < 4
  {
    var d := db.(oldest := OldestSector(db.secs, 0, 0));
    && db.Remain(i) > |StrayBytes(l.header)| + size + REMAIN_THRESHOLD
    && forall k :: 0 <= k < ScanIndex(d, i) ==>
         (db.secs[d.SectorAt(k)].store == Using ==> db.Remain(d.SectorAt(k)) <= size + REMAIN_THRESHOLD)
  }

  /** What can be checked at the loss: it leaves stray bytes; the key had a value, whose record ends in an erased
      byte; that record's copy finds room behind the stray bytes; and the set after it, of another key, goes to the
      same sector. */
  predicate Fatal(db: Db, i: nat, key: Bytes, value: Bytes, l: Loss, m: map<Bytes, Bytes>, t: nat, next: Bytes)
    requires db.oldest < |db.secs| && i < |db.secs| && l.Possible()
  {
    && LeavesStray(db, i, l) && key in m && LastByteErased(key + m[key])
    && TakesCopy(db, i, l, RecordSize(key, m[key]))
    && t == i && next != key
  }

  /** The first sector that fits. */
  lemma {:induction false} FirstFitIs(db: Db, store: StoreStatus, size: nat, k: nat, i: nat)
    requires db.oldest < |db.secs| && i < |db.secs| && k <= ScanIndex(db, i)
    ensures FirstFit(db, store, size, k) == Some(i) <==>
            && db.secs[i].store == store && CanHold(db, i, size)
            && forall j :: k <= j < ScanIndex(db, i) ==>
                 !(db.secs[db.SectorAt(j)].store == store && CanHold(db, db.SectorAt(j), size))
    decreases |db.secs| - k
  {
    hide CanHold;
    if k < ScanIndex(db, i) {
      FirstFitIs(db, store, size, k + 1, i);
    }
  }

  /** With a sector in use, an allocation finds sector `i`, in use, exactly if it is the first that fits. */
  lemma AllocIs(db: Db, size: nat, i: nat)
    requires db.oldest < |db.secs| && i < |db.secs| && db.secs[i].store == Using
    ensures Alloc(db, size).sector == Some(i) <==> FirstFit(db, Using, size, 0) == Some(i)
  {
    hide FirstFit, CountStore, CanHold;
    CountStorePositive(db.secs, i, Using);
  }

  /** After a loss that leaves stray bytes, sector `i` has less room by these, and all else is as it was. */
  lemma LostRoom(db: Db, i: nat, key: Bytes, value: Bytes, l: Loss, m: map<Bytes, Bytes>)
    requires LossIn(db, i, key, value, l, m) && LeavesStray(db, i, l)
    ensures var c := Lost(db, i, key, value, l);
            && c.secSize == db.secSize && |c.secs| == |db.secs| && db.secs[i].store == Using
            && forall k :: 0 <= k < |db.secs| ==>
                 && c.secs[k].store == db.secs[k].store && c.secs[k].dirty != Collecting
                 && c.Remain(k) == db.Remain(k) - (if k == i then |StrayBytes(l.header)| else 0)
  {
    hide LiveOf, Represents, Find, CountStore, UsedBytes, RoomToRecover, NoStrays, LiveIn, SkippedWhole;
    FoundPair(db, key, m);
    var old_, stray := Find(db, key), StrayRecord(l.header);
    var p := OldRecordAfter(db, old_, 4);
    if old_.Some? {
      FoundIsIntact(db, key);
      MarkKeepsSteady(db, old_.value, PreDelete);
    }
    assert forall k :: 0 <= k < |db.secs| ==> p.Remain(k) == db.Remain(k) && p.secs[k].store == db.secs[k].store;
    AppendedSectorSound(p, i, stray);
    UsedBytesAppend(p.secs[i].recs, stray);
    assert Lost(db, i, key, value, l) == AppendRecord(p, i, stray);
  }

  /** The copy goes behind the stray bytes exactly under that condition. */
  lemma TakesCopyExactly(db: Db, i: nat, key: Bytes, value: Bytes, l: Loss, m: map<Bytes, Bytes>, size: nat)
    requires LossIn(db, i, key, value, l, m) && LeavesStray(db, i, l)
    ensures db.oldest < |db.secs| && i < |db.secs| && Started(Lost(db, i, key, value, l)).oldest < |db.secs|
    ensures |Lost(db, i, key, value, l).secs| == |db.secs|
    ensures Alloc(Started(Lost(db, i, key, value, l)), size).sector == Some(i) <==> TakesCopy(db, i, l, size)
  {
    LostRoom(db, i, key, value, l, m);
    var c := Lost(db, i, key, value, l);
    hide LossIn, Lost, CountStore, FirstFit, Alloc, Db.Remain, OldestSector, LeavesStray, TakesCopy, StrayBytes;
    ShapeOfLoss(db, i, key, value, l, m);
    OldestSameStores(db.secs, c.secs, 0, 0);
    StartedShape(c);
    StartedRoom(c);
    AllocIs(Started(c), size, i);
    FitsAlike(db, Started(c), i, l, size);
  }

  lemma FitsAlike(db: Db, s: Db, i: nat, l: Loss, size: nat)
    requires db.oldest < |db.secs| && i < |db.secs| == |s.secs| && l.header < 4 && db.secs[i].store == Using
    requires s.oldest == OldestSector(db.secs, 0, 0) && !s.gcRequest
    requires forall k :: 0 <= k < |db.secs| ==>
               && s.secs[k].store == db.secs[k].store && s.secs[k].dirty != Collecting
               && s.Remain(k) == db.Remain(k) - (if k == i then |StrayBytes(l.header)| else 0)
    ensures FirstFit(s, Using, size, 0) == Some(i) <==> TakesCopy(db, i, l, size)
  {
    hide FirstFit, Db.Remain, OldestSector, StrayBytes;
    FirstFitIs(s, Using, size, 0, i);
    var d := db.(oldest := OldestSector(db.secs, 0, 0));
    assert ScanIndex(d, i) == ScanIndex(s, i);
    forall k | 0 <= k < ScanIndex(s, i)
      ensures s.SectorAt(k) == d.SectorAt(k) && s.SectorAt(k) != i
      ensures s.secs[s.SectorAt(k)].store == Using && CanHold(s, s.SectorAt(k), size)
              <==> db.secs[d.SectorAt(k)].store == Using && db.Remain(d.SectorAt(k)) > size + REMAIN_THRESHOLD
    {
    }
  }

  lemma ShapeOfLoss(db: Db, i: nat, key: Bytes, value: Bytes, l: Loss, m: map<Bytes, Bytes>)
    requires LossIn(db, i, key, value, l, m)
    ensures db.oldest < |db.secs| && i < |db.secs| && l.Possible()
  {
    hide LiveOf, Represents, Find, CountStore, UsedBytes, RoomToRecover, NoStrays, SkippedWhole;
  }

  lemma StartedRoom(c: Db)
    requires |c.secs| > 0
    ensures forall k :: 0 <= k < |c.secs| ==> Started(c).Remain(k) == c.Remain(k)
  {
    hide OldestSector;
  }

  lemma StartedShape(c: Db)
    requires |c.secs| > 0
    ensures Started(c).oldest < |Started(c).secs| == |c.secs|
  {
  }

  /** After a loss and two starts, a set of `next` into sector `t` spoils a live record exactly if the loss was
      fatal. */
  lemma SpoilsExactly(db: Db, i: nat, key: Bytes, value: Bytes, l: Loss, m: map<Bytes, Bytes>, t: nat, next: Bytes)
    requires LossIn(db, i, key, value, l, m) && t < |Boot(Boot(Lost(db, i, key, value, l))).secs|
    ensures db.oldest < |db.secs| && i < |db.secs|
    ensures Spoils(Boot(Boot(Lost(db, i, key, value, l))), t, next) <==> Fatal(db, i, key, value, l, m, t, next)
  {
    var c := Lost(db, i, key, value, l);
    StartedShape(c);
    if LeavesStray(db, i, l) {
      SettledAfterStarts(db, i, key, value, l, m);
      if key in m {
        TakesCopyExactly(db, i, key, value, l, m, RecordSize(key, m[key]));
      }
      hide TakesCopy, Lost, Alloc, Boot, Settles, Started, WalkShort, NoStrays, Represents, LiveOf;
      if key in m {
        SettledWalks(db, i, l, Boot(Boot(c)), Alloc(Started(c), RecordSize(key, m[key])).sector,
            OldRecord(key, m[key]), t);
      } else {
        SettledWalks(db, i, l, Boot(Boot(c)), None, ERROR_RECORD, t);
      }
    } else {
      StartsKeepStraysExactly(db, i, key, value, l);
      NoStraysWalkRight(Boot(Boot(c)), t);
    }
  }

  /** Power loss at any point of a set, two starts, and then a set of any other or the same key into any sector:
      the map is what it should be exactly when the loss was not fatal. */
  lemma LossThenSetExactly(db: Db, i: nat, key: Bytes, value: Bytes, l: Loss, m: map<Bytes, Bytes>,
                           t: nat, next: Bytes, nextValue: Bytes)
    requires LossIn(db, i, key, value, l, m)
    requires t < |Boot(Boot(Lost(db, i, key, value, l))).secs| && |next| < NAME_MAX
    ensures db.oldest < |db.secs| && i < |db.secs|
    ensures var b := Boot(Boot(Lost(db, i, key, value, l)));
            var entries := if l.writes < 8 then m else m[key := value];
            && b.oldest < |b.secs| && Idle(b) && Represents(LiveOf(b.secs), entries)
            && (Represents(LiveOf(SetByWalk(b, t, next, nextValue).secs), entries[next := nextValue]) <==>
                !Fatal(db, i, key, value, l, m, t, next))
  {
    SpoilsExactly(db, i, key, value, l, m, t, next);
    RecoversOldOrNew(db, i, key, value, l, m);
    var b := Boot(Boot(Lost(db, i, key, value, l)));
    hide Lost, Boot, Fatal, Spoils, SetByWalk, Represents, LiveOf, Idle;
    SetByWalkExactly(b, t, next, nextValue, if l.writes < 8 then m else m[key := value]);
  }

  /** A fatal loss, and the set after it, lose the key. */
  lemma FatalLosesKey(db: Db, i: nat, key: Bytes, value: Bytes, l: Loss, m: map<Bytes, Bytes>, next: Bytes,
      nextValue: Bytes)
    requires LossIn(db, i, key, value, l, m) && |next| < NAME_MAX
    requires db.oldest < |db.secs| && i < |db.secs| && Fatal(db, i, key, value, l, m, i, next)
    ensures var b := Boot(Boot(Lost(db, i, key, value, l)));
            && b.oldest < |b.secs| && i < |b.secs| && GetKv(b, key) == Some(m[key])
            && GetKv(SetByWalk(b, i, next, nextValue), key) == None
  {
    var b := Boot(Boot(Lost(db, i, key, value, l)));
    LostSectors(db, i, key, value, l);
    SpoilsExactly(db, i, key, value, l, m, i, next);
    RecoversOldOrNew(db, i, key, value, l, m);
    SettledAfterStarts(db, i, key, value, l, m);
    TakesCopyExactly(db, i, key, value, l, m, RecordSize(key, m[key]));
    hide TakesCopy, Lost, Boot, Alloc, Started, Spoils, SetByWalk, Represents, LiveOf, WalkShort, Find, NoStrays;
    GetAfterRun(State(b, m), key);
    SpoiledIsLost(b, i, next, nextValue, m);
    SettledWalks(db, i, l, b, Some(i), OldRecord(key, m[key]), i);
  }

  // ---- A run in which a key is lost ----

  /** "k", "old" with an erased byte behind it, "new", "j", "x". */
  const KEY: Bytes := [0x6B]
  const OLD: Bytes := [0x6F, 0x6C, 0x64, 0xFF]
  const NEW: Bytes := [0x6E, 0x65, 0x77]
  const NEXT: Bytes := [0x6A]
  const NEXT_VALUE: Bytes := [0x78]

  const RUN_SECTOR_SIZE: nat := 4096

  lemma CountTwo(a: Sector, b: Sector, store: StoreStatus)
    ensures CountStore([a, b], store) == (if a.store == store then 1 else 0) + (if b.store == store then 1 else 0)
  {
    assert [a][..0] == [];
    assert CountStore([a], store) == if a.store == store then 1 else 0;
    assert [a, b][..1] == [a];
  }

  /** Two sectors, the second of them empty, and room in the first, whether it is empty or in use. */
  lemma AllocFirst(db: Db, size: nat)
    requires |db.secs| == 2 && db.oldest == 0 && db.secs[1] == EMPTY_SECTOR && !db.gcRequest
    requires db.secs[0].store != Full && db.secs[0].dirty != Collecting && db.Remain(0) > size + REMAIN_THRESHOLD
    ensures Alloc(db, size) == Allocation(db, Some(0))
  {
    hide UsedBytes;
    assert db.secs == [db.secs[0], db.secs[1]];
    CountTwo(db.secs[0], db.secs[1], Using);
    CountTwo(db.secs[0], db.secs[1], Empty);
    assert db.SectorAt(0) == 0 && CanHold(db, 0, size);
    assert FirstFit(db, db.secs[0].store, size, 0) == Some(0);
  }

  lemma FirstSet()
    ensures SetKv(Formatted(RUN_SECTOR_SIZE, 2), KEY, OLD)
         == Outcome(Db(RUN_SECTOR_SIZE, [Sector(Using, Clean, [OldRecord(KEY, OLD)]), EMPTY_SECTOR],
                       0, false, false), NoError)
  {
    var db := Formatted(RUN_SECTOR_SIZE, 2);
    assert db.secs == [EMPTY_SECTOR, EMPTY_SECTOR];
    AllocFirst(db, RecordSize(KEY, OLD));
    hide Alloc, CountStore;
    assert NewKv(db, RecordSize(KEY, OLD)) == Allocation(db, Some(0));
    FormattedIsIdle(RUN_SECTOR_SIZE, 2);
    FoundPair(db, KEY, map[]);
    assert EMPTY_SECTOR.recs + [OldRecord(KEY, OLD)] == [OldRecord(KEY, OLD)];
    assert [EMPTY_SECTOR, EMPTY_SECTOR][0 := Sector(Using, Clean, [OldRecord(KEY, OLD)])]
        == [Sector(Using, Clean, [OldRecord(KEY, OLD)]), EMPTY_SECTOR];
  }

  /** The database after the first set. */
  const ONE_RECORD: Db :=
    Db(RUN_SECTOR_SIZE, [Sector(Using, Clean, [OldRecord(KEY, OLD)]), EMPTY_SECTOR], 0, false, false)

  lemma OneRecordHolds()
    ensures Idle(ONE_RECORD) && NoStrays(ONE_RECORD) && Represents(LiveOf(ONE_RECORD.secs), map[KEY := OLD])
    ensures Reserved(ONE_RECORD, 0, RecordSize(KEY, NEW))
    ensures Alloc(ONE_RECORD, RecordSize(KEY, NEW)).sector == Some(0)
  {
    FormattedIsIdle(RUN_SECTOR_SIZE, 2);
    FirstSet();
    SetRefines(Formatted(RUN_SECTOR_SIZE, 2), KEY, OLD, map[]);
    OneRecordUsed();
    hide LiveOf, Represents, SetKv, CountStore, UsedBytes;
    AllocFirst(ONE_RECORD, RecordSize(KEY, NEW));
    assert map[][KEY := OLD] == map[KEY := OLD];
  }

  lemma OneRecordUsed()
    ensures UsedBytes([OldRecord(KEY, OLD)]) == 29 && ONE_RECORD.Remain(0) == 4051
  {
    assert [OldRecord(KEY, OLD)][..0] == [];
  }

  /** Power is lost after four writes: the status byte of the new record is all there is of it. */
  const FOUR_WRITES: Loss := Loss(4, 0, false)

  const AFTER_LOSS: Db :=
    Db(RUN_SECTOR_SIZE,
       [Sector(Using, Dirty, [OldRecord(KEY, OLD).(status := PreDelete), StrayRecord(0)]), EMPTY_SECTOR],
       0, false, false)

  lemma FoundFirst()
    ensures Find(ONE_RECORD, KEY) == Some(Address(0, 0))
  {
  }

  lemma LossInRun()
    ensures Lost(ONE_RECORD, 0, KEY, NEW, FOUR_WRITES) == AFTER_LOSS
  {
    FoundFirst();
    hide Find, LastByteErased;
    var old_ := OldRecord(KEY, OLD).(status := PreDelete);
    assert [OldRecord(KEY, OLD)][0 := old_] == [old_];
    var prepared := Db(RUN_SECTOR_SIZE, [Sector(Using, Dirty, [old_]), EMPTY_SECTOR], 0, false, false);
    assert ONE_RECORD.secs[0 := Sector(Using, Dirty, [old_])] == prepared.secs;
    assert OldRecordAfter(ONE_RECORD, Some(Address(0, 0)), 4) == prepared;
    assert [old_][..0] == [];
    assert UsedBytes([old_]) == 29 && prepared.Remain(0) == 4051;
    assert [old_] + [StrayRecord(0)] == [old_, StrayRecord(0)];
    assert prepared.secs[0 := AFTER_LOSS.secs[0]] == AFTER_LOSS.secs;
    assert AppendRecord(prepared, 0, StrayRecord(0)) == AFTER_LOSS;
  }

  lemma CopyGoesBehind()
    ensures Started(AFTER_LOSS).oldest < |AFTER_LOSS.secs|
    ensures Alloc(Started(AFTER_LOSS), RecordSize(KEY, OLD)).sector == Some(0)
  {
    var recs := AFTER_LOSS.secs[0].recs;
    assert recs[..1] == [recs[0]];
    assert [recs[0]][..0] == [];
    assert UsedBytes([recs[0]]) == 29 && UsedBytes(recs) == 30;
    assert OldestSector(AFTER_LOSS.secs, 2, 0) == 0 && OldestSector(AFTER_LOSS.secs, 1, 0) == 0;
    AllocFirst(Started(AFTER_LOSS), RecordSize(KEY, OLD));
  }

  /** The first sector after two starts: the deleted old record, the stray byte, and the copy. */
  const RECOVERED: seq<Record> :=
    [OldRecord(KEY, OLD).(status := Deleted), StrayRecord(0), OldRecord(KEY, OLD)]

  lemma RecoveredUsed()
    ensures UsedBytes(RECOVERED) == 59
  {
    assert RECOVERED[..2][..1] == [RECOVERED[0]] && [RECOVERED[0]][..0] == [];
    assert UsedBytes([RECOVERED[0]]) == 29 && UsedBytes(RECOVERED[..2]) == 30;
  }

  lemma BootOldest(db: Db)
    requires |db.secs| == 2 && db.secs[0].store != Empty && db.secs[1].store == Empty
    ensures Boot(db).oldest == 0
  {
    hide RecoverSectors;
    assert OldestSector(db.secs, 2, 0) == 0 && OldestSector(db.secs, 1, 0) == 0;
  }

  lemma RecoveredSectors()
    ensures Boot(Boot(AFTER_LOSS)).secs == [Sector(Using, Dirty, RECOVERED), EMPTY_SECTOR]
  {
    var m, a, s := map[KEY := OLD], Address(0, 0), Started(AFTER_LOSS);
    OneRecordHolds();
    LossInRun();
    CopyGoesBehind();
    FoundFirst();
    StrayLossRest(ONE_RECORD, 0, KEY, NEW, FOUR_WRITES, m);
    PendingDeletionMoves(AFTER_LOSS, a, KEY, OLD, m - {KEY});
    hide Boot, Recoverable, Represents, LiveOf, Find, Lost, Alloc, UsedBytes, OldestSector, Idle, NoStrays;
    CopiedInRun(s);
  }

  lemma CopiedInRun(s: Db)
    requires s.secSize == RUN_SECTOR_SIZE && s.secs == AFTER_LOSS.secs
    ensures var copied := AppendRecord(s, 0, AFTER_LOSS.RecordAt(Address(0, 0)).(status := Written));
            && copied.HasRecord(Address(0, 0))
            && MarkRecord(copied, Address(0, 0), Deleted).secs == [Sector(Using, Dirty, RECOVERED), EMPTY_SECTOR]
  {
    var was := AFTER_LOSS.secs[0].recs;
    assert was[..1] == [was[0]] && [was[0]][..0] == [];
    assert UsedBytes([was[0]]) == 29 && UsedBytes(was) == 30 && s.Remain(0) == 4050;
    var copied := AppendRecord(s, 0, AFTER_LOSS.RecordAt(Address(0, 0)).(status := Written));
    assert copied.secs[0] == Sector(Using, Dirty, was + [OldRecord(KEY, OLD)]);
    assert (was + [OldRecord(KEY, OLD)])[0 := OldRecord(KEY, OLD).(status := Deleted)] == RECOVERED;
    assert MarkRecord(copied, Address(0, 0), Deleted).secs[0] == Sector(Using, Dirty, RECOVERED);
  }

  lemma BootStores()
    ensures |Boot(AFTER_LOSS).secs| == 2
    ensures Boot(AFTER_LOSS).secs[0].store != Empty && Boot(AFTER_LOSS).secs[1].store == Empty
  {
    OneRecordHolds();
    LossInRun();
    FoundFirst();
    CopyGoesBehind();
    StrayLossRest(ONE_RECORD, 0, KEY, NEW, FOUR_WRITES, map[KEY := OLD]);
    hide Represents, LiveOf, Lost, Alloc, RecoverSectors, OldestSector, NoStrays, Idle;
    var rest := BootEnds(AFTER_LOSS, Rest(Some(Address(0, 0)), None, map[KEY := OLD] - {KEY}), KEY, OLD);
    QuietBoot(Boot(AFTER_LOSS));
    RecoveredSectors();
  }

  lemma NextSetGoesBehind()
    ensures var b := Boot(Boot(AFTER_LOSS));
            b.oldest < |b.secs| && Alloc(b, RecordSize(NEXT, NEXT_VALUE)).sector == Some(0)
  {
    var b := Boot(Boot(AFTER_LOSS));
    OneRecordHolds();
    LossInRun();
    CopyGoesBehind();
    RecoversOldOrNew(ONE_RECORD, 0, KEY, NEW, FOUR_WRITES, map[KEY := OLD]);
    RecoveredSectors();
    RecoveredUsed();
    BootStores();
    hide Boot, Represents, LiveOf, Find, Lost, AfterWrites, Alloc, UsedBytes, OldestSector, NoStrays, CountStore,
      SectorSound;
    BootOldest(Boot(AFTER_LOSS));
    AllocFirst(b, RecordSize(NEXT, NEXT_VALUE));
  }

  /** Set "k"; lose power after four writes of another set of "k"; start twice, and "k" is what it was; set "j"
      into the same sector, and "k" is gone. */
  lemma KeyLostInRun()
    ensures SetKv(Formatted(RUN_SECTOR_SIZE, 2), KEY, OLD) == Outcome(ONE_RECORD, NoError)
    ensures Alloc(ONE_RECORD, RecordSize(KEY, NEW)).sector == Some(0)
    ensures var b := Boot(Boot(Lost(ONE_RECORD, 0, KEY, NEW, FOUR_WRITES)));
            && b.oldest < |b.secs| && GetKv(b, KEY) == Some(OLD)
            && Alloc(b, RecordSize(NEXT, NEXT_VALUE)).sector == Some(0)
            && GetKv(SetByWalk(b, 0, NEXT, NEXT_VALUE), KEY) == None
  {
    FirstSet();
    OneRecordHolds();
    LossInRun();
    CopyGoesBehind();
    NextSetGoesBehind();
    var m := map[KEY := OLD];
    hide Lost, Boot, Started, Alloc, SetByWalk, Represents, LiveOf, SetKv, Idle, NoStrays, TakesCopy;
    TakesCopyExactly(ONE_RECORD, 0, KEY, NEW, FOUR_WRITES, m, RecordSize(KEY, OLD));
    FatalLosesKey(ONE_RECORD, 0, KEY, NEW, FOUR_WRITES, m, NEXT, NEXT_VALUE);
  }
}
