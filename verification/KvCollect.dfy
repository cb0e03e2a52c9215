/** Garbage collection never fails to move a record and never loses one. */
module KvCollect {
  import opened KvStore
  import opened Wrappers

  type Pair = (Bytes, Bytes)

  // ---- The live records, as a multiset of names and values ----

  function Live(r: Record): multiset<Pair> {
    if r.crcOk && r.status == Written then multiset{(r.name, r.value)} else multiset{}
  }

  function LiveIn(recs: seq<Record>): multiset<Pair> {
    if recs == [] then multiset{} else LiveIn(recs[..|recs| - 1]) + Live(recs[|recs| - 1])
  }

  function LiveOf(secs: seq<Sector>): multiset<Pair> {
    if secs == [] then multiset{} else LiveOf(secs[..|secs| - 1]) + LiveIn(secs[|secs| - 1].recs)
  }

  lemma SwapInSum<T>(a: multiset<T>, x: multiset<T>, y: multiset<T>, z: multiset<T>)
    requires x <= a
    ensures a - x + y + z == a + z - x + y && x <= a + z
  {
  }

  lemma SwapLast<T>(a: multiset<T>, x: multiset<T>, y: multiset<T>)
    ensures a + y == a + x - x + y && x <= a + x
  {
  }

  lemma {:induction false} LiveInUpdate(recs: seq<Record>, j: nat, r: Record)
    requires j < |recs|
    ensures Live(recs[j]) <= LiveIn(recs)
    ensures LiveIn(recs[j := r]) == LiveIn(recs) - Live(recs[j]) + Live(r)
  {
    var n := |recs| - 1;
    hide Live;
    if j == n {
      assert recs[j := r][..n] == recs[..n];
      SwapLast(LiveIn(recs[..n]), Live(recs[j]), Live(r));
    } else {
      assert recs[j := r][..n] == recs[..n][j := r];
      LiveInUpdate(recs[..n], j, r);
      SwapInSum(LiveIn(recs[..n]), Live(recs[j]), Live(r), Live(recs[n]));
    }
  }

  lemma LiveInAppend(recs: seq<Record>, r: Record)
    ensures LiveIn(recs + [r]) == LiveIn(recs) + Live(r)
  {
    assert (recs + [r])[..|recs|] == recs;
  }

  lemma {:induction false} LiveOfUpdate(secs: seq<Sector>, i: nat, s: Sector)
    requires i < |secs|
    ensures LiveIn(secs[i].recs) <= LiveOf(secs)
    ensures LiveOf(secs[i := s]) == LiveOf(secs) - LiveIn(secs[i].recs) + LiveIn(s.recs)
  {
    var n := |secs| - 1;
    hide LiveIn;
    if i == n {
      assert secs[i := s][..n] == secs[..n];
      SwapLast(LiveOf(secs[..n]), LiveIn(secs[i].recs), LiveIn(s.recs));
    } else {
      assert secs[i := s][..n] == secs[..n][i := s];
      LiveOfUpdate(secs[..n], i, s);
      SwapInSum(LiveOf(secs[..n]), LiveIn(secs[i].recs), LiveIn(s.recs), LiveIn(secs[n].recs));
    }
  }

  lemma {:induction false} NothingLiveIn(recs: seq<Record>)
    requires forall j :: 0 <= j < |recs| ==> recs[j].status != Written
    ensures LiveIn(recs) == multiset{}
  {
    if recs != [] {
      NothingLiveIn(recs[..|recs| - 1]);
    }
  }

  lemma {:induction false} UsedBytesUpdate(recs: seq<Record>, j: nat, r: Record)
    requires j < |recs| && r.Len() == recs[j].Len()
    ensures UsedBytes(recs[j := r]) == UsedBytes(recs)
  {
    var n := |recs| - 1;
    if j == n {
      assert recs[j := r][..n] == recs[..n];
    } else {
      assert recs[j := r][..n] == recs[..n][j := r];
      UsedBytesUpdate(recs[..n], j, r);
    }
  }

  lemma UsedBytesAppend(recs: seq<Record>, r: Record)
    ensures UsedBytes(recs + [r]) == UsedBytes(recs) + r.Len()
  {
    assert (recs + [r])[..|recs|] == recs;
  }

  lemma {:induction false} UsedBytesPrefix(recs: seq<Record>, j: nat)
    requires j < |recs|
    ensures UsedBytes(recs[..j]) + recs[j].Len() == UsedBytes(recs[..j + 1]) <= UsedBytes(recs)
    decreases |recs| - j
  {
    assert recs[..j + 1][..j] == recs[..j];
    if j + 1 < |recs| {
      UsedBytesPrefix(recs, j + 1);
    } else {
      assert recs[..j + 1] == recs;
    }
  }

  lemma {:induction false} CountStoreUpdate(secs: seq<Sector>, i: nat, s: Sector, store: StoreStatus)
    requires i < |secs|
    ensures CountStore(secs[i := s], store)
         == CountStore(secs, store) - (if secs[i].store == store then 1 else 0) + (if s.store == store then 1 else 0)
  {
    var n := |secs| - 1;
    if i == n {
      assert secs[i := s][..n] == secs[..n];
    } else {
      assert secs[i := s][..n] == secs[..n][i := s];
      CountStoreUpdate(secs[..n], i, s, store);
    }
  }

  lemma {:induction false} CountStorePositive(secs: seq<Sector>, i: nat, store: StoreStatus)
    requires i < |secs| && secs[i].store == store
    ensures CountStore(secs, store) > 0
  {
    if i < |secs| - 1 {
      CountStorePositive(secs[..|secs| - 1], i, store);
    }
  }

  lemma {:induction false} SomeSectorWith(secs: seq<Sector>, store: StoreStatus) returns (i: nat)
    requires CountStore(secs, store) > 0
    ensures i < |secs| && secs[i].store == store
  {
    i := |secs| - 1;
    if secs[i].store != store {
      i := SomeSectorWith(secs[..|secs| - 1], store);
    }
  }

  // ---- Allocation finds what there is ----

  /** The place of a sector in the scan order. */
  function ScanIndex(db: Db, i: nat): (k: nat)
    requires db.oldest < |db.secs| && i < |db.secs|
    ensures k < |db.secs| && db.SectorAt(k) == i
  {
    if i >= db.oldest then i - db.oldest else i + |db.secs| - db.oldest
  }

  lemma {:induction false} FirstFitFinds(db: Db, store: StoreStatus, size: nat, k: nat, i: nat)
    requires db.oldest < |db.secs| && i < |db.secs| && k <= ScanIndex(db, i)
    requires db.secs[i].store == store && CanHold(db, i, size)
    ensures FirstFit(db, store, size, k).Some?
    decreases |db.secs| - k
  {
    if k < ScanIndex(db, i) {
      FirstFitFinds(db, store, size, k + 1, i);
    }
  }

  // ---- What holds between operations ----

  /** Intact, or marked as interrupted in its write, or a few stray bytes. */
  predicate RecordSound(r: Record) {
    && |r.name| <= NAME_MAX
    && (r.Stray() ==> !r.crcOk && 1 <= |r.name| <= 7 && r.value == [])
    && (r.Stray() || r.status == PreWrite || r.status == ErrHdr
        || (r.crcOk && (r.status == Written || r.status == PreDelete || r.status == Deleted)))
  }

  /** No write and no deletion is under way. */
  predicate Settled(s: Sector) {
    forall j :: 0 <= j < |s.recs| ==> s.recs[j].status != PreDelete && s.recs[j].status != PreWrite
  }

  /** A sector is empty, or in use with more than the threshold left; it is never full. */
  ghost predicate SectorSound(secSize: nat, s: Sector) {
    && s.store != Full
    && (s.store == Empty ==> s == EMPTY_SECTOR)
    && (s.store == Using ==>
          s.recs != [] && secSize - SECTOR_HDR_SIZE - UsedBytes(s.recs) > REMAIN_THRESHOLD)
    && (forall j :: 0 <= j < |s.recs| ==> RecordSound(s.recs[j]))
  }

  /** Between operations every sector is sound, none is being collected, and at least one is empty. */
  ghost predicate Sound(db: Db) {
    && db.Shaped() && !db.recovering
    && (forall i :: 0 <= i < |db.secs| ==>
          SectorSound(db.secSize, db.secs[i]) && Settled(db.secs[i]) && db.secs[i].dirty != Collecting)
    && CountStore(db.secs, Empty) >= GC_EMPTY_SEC_THRESHOLD
  }

  ghost predicate Idle(db: Db) { Sound(db) && !db.gcRequest }

  // ---- While sector `x` is being collected ----

  ghost predicate CollectingAt(db: Db, x: nat) {
    && db.Shaped() && !db.recovering && db.gcRequest
    && x < |db.secs| && db.secs[x].store == Using
    && (forall i :: 0 <= i < |db.secs| ==>
          && SectorSound(db.secSize, db.secs[i])
          && (db.secs[i].dirty == Collecting <==> i == x)
          && (i != x ==> Settled(db.secs[i])))
  }

  /** Sector `y` took over from an empty one; it holds no more than the records of `x` before `j`. */
  ghost predicate TookOver(db: Db, x: nat, j: nat, y: nat)
    requires x < |db.secs| && j <= |db.secs[x].recs|
  {
    && y < |db.secs| && y != x
    && db.secs[y].store == Using && db.secs[y].dirty == Clean
    && UsedBytes(db.secs[y].recs) <= UsedBytes(db.secs[x].recs[..j])
  }

  /** `empties` sectors were empty when the collection of `x` began. Either none has been used since, or
      one has, and it still has room for the records of `x` from `j` on. */
  ghost predicate Room(db: Db, x: nat, j: nat, empties: nat)
    requires x < |db.secs| && j <= |db.secs[x].recs|
  {
    || CountStore(db.secs, Empty) == empties > 0
    || (CountStore(db.secs, Empty) + 1 == empties && exists y :: TookOver(db, x, j, y))
  }

  lemma MarkLive(db: Db, a: Address, status: KvStatus)
    requires db.HasRecord(a) && status != Written
    ensures Live(db.RecordAt(a)) <= LiveOf(db.secs)
    ensures LiveOf(MarkRecord(db, a, status).secs) == LiveOf(db.secs) - Live(db.RecordAt(a))
  {
    hide LiveOf, LiveIn;
    var s := db.secs[a.sector];
    var r := s.recs[a.pos].(status := status);
    var s' := MarkRecord(db, a, status).secs[a.sector];
    LiveInUpdate(s.recs, a.pos, r);
    LiveOfUpdate(db.secs, a.sector, s');
    TakeFromPart(LiveOf(db.secs), LiveIn(s.recs), Live(s.recs[a.pos]));
  }

  lemma TakeFromPart<T>(a: multiset<T>, b: multiset<T>, x: multiset<T>)
    requires x <= b <= a
    ensures x <= a
    ensures a - b + (b - x + multiset{}) == a - x
  {
  }

  lemma AppendLive(db: Db, i: nat, r: Record)
    requires i < |db.secs|
    ensures LiveOf(AppendRecord(db, i, r).secs) == LiveOf(db.secs) + Live(r)
  {
    hide LiveOf, LiveIn;
    LiveInAppend(db.secs[i].recs, r);
    LiveOfUpdate(db.secs, i, AppendRecord(db, i, r).secs[i]);
  }

  /** Changing the status of a record of the collected sector keeps everything else as it was. */
  lemma MarkKeepsCollecting(db: Db, x: nat, l: nat, status: KvStatus, j: nat, empties: nat)
    requires CollectingAt(db, x) && l < |db.secs[x].recs| && j <= |db.secs[x].recs|
    requires db.secs[x].recs[l].crcOk && (status == PreDelete || status == Deleted)
    requires Room(db, x, j, empties)
    ensures var db' := MarkRecord(db, Address(x, l), status);
            && db' == db.(secs := db'.secs) && |db'.secs[x].recs| == |db.secs[x].recs|
            && CollectingAt(db', x) && Room(db', x, j, empties)
            && (forall k :: 0 <= k < |db.secs| && k != x ==> db'.secs[k] == db.secs[k])
  {
    hide CountStore, UsedBytes;
    var db' := MarkRecord(db, Address(x, l), status);
    var recs, recs' := db.secs[x].recs, db'.secs[x].recs;
    UsedBytesUpdate(recs, l, recs'[l]);
    CountStoreUpdate(db.secs, x, db'.secs[x], Empty);
    assert UsedBytes(recs'[..j]) == UsedBytes(recs[..j]) by {
      if l < j {
        assert recs'[..j] == recs[..j][l := recs'[l]];
        UsedBytesUpdate(recs[..j], l, recs'[l]);
      } else {
        assert recs'[..j] == recs[..j];
      }
    }
    if exists y :: TookOver(db, x, j, y) {
      var y :| TookOver(db, x, j, y);
      assert TookOver(db', x, j, y);
    }
  }

  /** While a sector is collected there is room for its next record, in a clean sector, and an empty one
      is used only if none has been used before. */
  lemma AllocWhileCollecting(db: Db, x: nat, j: nat, empties: nat)
    requires CollectingAt(db, x) && j < |db.secs[x].recs| && Room(db, x, j, empties)
    ensures var r := Alloc(db, db.secs[x].recs[j].Len());
            && r.db == db && r.sector.Some?
            && var w := r.sector.value;
               && w != x && CanHold(db, w, db.secs[x].recs[j].Len()) && db.secs[w].dirty == Clean
               && (db.secs[w].store == Empty ==> CountStore(db.secs, Empty) == empties)
  {
    var size := db.secs[x].recs[j].Len();
    UsedBytesPrefix(db.secs[x].recs, j);
    CountStorePositive(db.secs, x, Using);
    if CountStore(db.secs, Empty) == empties {
      var z := SomeSectorWith(db.secs, Empty);
      FirstFitFinds(db, Empty, size, 0, z);
    } else {
      var y :| TookOver(db, x, j, y);
      FirstFitFinds(db, Using, size, 0, y);
    }
  }

  /** Appending the copy of the next record keeps room for the records after it. */
  lemma AppendWhileCollecting(db: Db, x: nat, j: nat, empties: nat, w: nat, r: Record)
    requires CollectingAt(db, x) && j < |db.secs[x].recs| && Room(db, x, j, empties)
    requires RecordSound(r) && r.status == Written && r.Len() == db.secs[x].recs[j].Len()
    requires w < |db.secs| && w != x && CanHold(db, w, r.Len()) && db.secs[w].dirty == Clean
    requires db.secs[w].store == Empty ==> CountStore(db.secs, Empty) == empties
    ensures var db' := AppendRecord(db, w, r);
            && db' == db.(secs := db'.secs) && db'.secs[x] == db.secs[x]
            && CollectingAt(db', x) && Room(db', x, j + 1, empties)
  {
    var db' := AppendRecord(db, w, r);
    UsedBytesAppend(db.secs[w].recs, r);
    UsedBytesPrefix(db.secs[x].recs, j);
    CountStoreUpdate(db.secs, w, db'.secs[w], Empty);
    AppendSound(db, w, r);
    if db.secs[w].store == Empty {
      assert TookOver(db', x, j + 1, w);
    } else if CountStore(db.secs, Empty) + 1 == empties {
      var y :| TookOver(db, x, j, y);
      assert TookOver(db', x, j + 1, y);
    }
  }

  /** A sector that can hold a record is sound after taking it, and not full. */
  lemma AppendSound(db: Db, w: nat, r: Record)
    requires w < |db.secs| && SectorSound(db.secSize, db.secs[w]) && Settled(db.secs[w])
    requires RecordSound(r) && r.status == Written && CanHold(db, w, r.Len())
    ensures var s := AppendRecord(db, w, r).secs[w];
            && s == Sector(Using, db.secs[w].dirty, db.secs[w].recs + [r])
            && SectorSound(db.secSize, s) && Settled(s)
  {
    UsedBytesAppend(db.secs[w].recs, r);
  }

  /** Moving the next record out of the collected sector succeeds and loses nothing. */
  lemma MoveWhileCollecting(db: Db, x: nat, j: nat, empties: nat)
    requires CollectingAt(db, x) && j < |db.secs[x].recs| && Room(db, x, j, empties)
    requires db.secs[x].recs[j].Movable()
    ensures var r, kv := Move(db, Address(x, j)), db.secs[x].recs[j];
            && r.ok && r.db == db.(secs := r.db.secs)
            && CollectingAt(r.db, x)
            && r.db.secs[x].recs == db.secs[x].recs[j := kv.(status := Deleted)]
            && Room(r.db, x, j + 1, empties)
            && Live(kv) <= LiveOf(db.secs)
            && LiveOf(r.db.secs) == LiveOf(db.secs) - Live(kv) + multiset{(kv.name, kv.value)}
  {
    hide LiveOf, LiveIn, CountStore, UsedBytes, FirstFit;
    var kv := db.secs[x].recs[j];
    var prepared := if kv.status == Written then MarkRecord(db, Address(x, j), PreDelete) else db;
    Prepared(db, x, j, empties);
    var copy := kv.(status := Written);
    AllocWhileCollecting(prepared, x, j, empties);
    var w := Alloc(prepared, kv.Len()).sector.value;
    AppendWhileCollecting(prepared, x, j, empties, w, copy);
    AppendLive(prepared, w, copy);
    var copied := AppendRecord(prepared, w, copy);
    MarkKeepsCollecting(copied, x, j, Deleted, j + 1, empties);
    MarkLive(copied, Address(x, j), Deleted);
  }

  lemma Prepared(db: Db, x: nat, j: nat, empties: nat)
    requires CollectingAt(db, x) && j < |db.secs[x].recs| && Room(db, x, j, empties)
    requires db.secs[x].recs[j].Movable()
    ensures var kv := db.secs[x].recs[j];
            var p := if kv.status == Written then MarkRecord(db, Address(x, j), PreDelete) else db;
            && p == db.(secs := p.secs) && CollectingAt(p, x)
            && p.secs[x].recs == db.secs[x].recs[j := kv.(status := PreDelete)] && Room(p, x, j, empties)
            && Live(kv) <= LiveOf(db.secs) && LiveOf(p.secs) == LiveOf(db.secs) - Live(kv)
  {
    hide LiveOf, LiveIn, CountStore, UsedBytes;
    var kv := db.secs[x].recs[j];
    if kv.status == Written {
      MarkKeepsCollecting(db, x, j, PreDelete, j, empties);
      MarkLive(db, Address(x, j), PreDelete);
    } else {
      assert db.secs[x].recs == db.secs[x].recs[j := kv];
    }
  }

  /** The records of `x` from position `j` on are as they were when its collection began. */
  ghost predicate Untouched(db: Db, x: nat, j: nat)
    requires x < |db.secs|
  {
    && j <= |db.secs[x].recs|
    && (forall l :: 0 <= l < j ==> db.secs[x].recs[l].status != Written)
    && (forall l :: j <= l < |db.secs[x].recs| ==> db.secs[x].recs[l].status != PreDelete)
  }

  /** Moving all remaining records of `x` never fails and loses nothing. */
  lemma {:induction false} MoveRecordsLosesNothing(db: Db, x: nat, j: nat, empties: nat)
    requires CollectingAt(db, x) && Untouched(db, x, j) && Room(db, x, j, empties)
    ensures var n := |db.secs[x].recs|;
            var r := MoveRecords(db, x, j, n);
            && r.failures == 0 && r.db == db.(secs := r.db.secs)
            && CollectingAt(r.db, x) && |r.db.secs[x].recs| == n
            && (forall l :: 0 <= l < n ==> r.db.secs[x].recs[l].status != Written)
            && Room(r.db, x, n, empties)
            && LiveOf(r.db.secs) == LiveOf(db.secs)
    decreases |db.secs[x].recs| - j
  {
    hide LiveOf, LiveIn, CountStore, UsedBytes, FirstFit, Move;
    if j < |db.secs[x].recs| {
      var kv := db.secs[x].recs[j];
      if kv.Movable() {
        MoveWhileCollecting(db, x, j, empties);
        MoveRecordsLosesNothing(Move(db, Address(x, j)).db, x, j + 1, empties);
        PutBack(LiveOf(db.secs), (kv.name, kv.value));
      } else {
        RoomGrows(db, x, j, empties);
        MoveRecordsLosesNothing(db, x, j + 1, empties);
      }
    }
  }

  lemma PutBack(a: multiset<Pair>, p: Pair)
    ensures multiset{p} <= a ==> a - multiset{p} + multiset{p} == a
  {
  }

  lemma RoomGrows(db: Db, x: nat, j: nat, empties: nat)
    requires x < |db.secs| && j < |db.secs[x].recs| && Room(db, x, j, empties)
    ensures Room(db, x, j + 1, empties)
  {
    UsedBytesPrefix(db.secs[x].recs, j);
    if CountStore(db.secs, Empty) != empties {
      var y :| TookOver(db, x, j, y);
      assert TookOver(db, x, j + 1, y);
    }
  }

  /** Collecting one dirty sector never fails to move a record, keeps the live records as they are, and
      leaves at least as many sectors empty as before. */
  lemma CollectSectorLosesNothing(db: Db, x: nat)
    requires Sound(db) && db.gcRequest && x < |db.secs| && db.secs[x].dirty == Dirty
    ensures var r := CollectSector(db, x);
            && r.failures == 0 && r.db == db.(secs := r.db.secs, oldest := db.NextSector(x))
            && Sound(r.db) && r.db.gcRequest
            && r.db.secs[x] == EMPTY_SECTOR
            && LiveOf(r.db.secs) == LiveOf(db.secs)
            && CountStore(r.db.secs, Empty) >= CountStore(db.secs, Empty)
  {
    hide LiveOf, LiveIn, CountStore, UsedBytes, MoveRecords;
    var s := db.secs[x].(dirty := Collecting);
    var marked := db.SetSector(x, s);
    var empties := CountStore(db.secs, Empty);
    CountStoreUpdate(db.secs, x, s, Empty);
    LiveOfUpdate(db.secs, x, s);
    SameParts(LiveOf(db.secs), LiveIn(s.recs));
    MoveRecordsLosesNothing(marked, x, 0, empties);
    var moved := MoveRecords(marked, x, 0, |s.recs|).db;
    NothingLiveIn(moved.secs[x].recs);
    EraseDeletedSector(moved, x);
  }

  lemma SameParts<T>(a: multiset<T>, b: multiset<T>)
    requires b <= a
    ensures a - b + b == a
  {
  }

  lemma EraseDeletedSector(db: Db, x: nat)
    requires x < |db.secs| && LiveIn(db.secs[x].recs) == multiset{}
    ensures LiveOf(db.secs[x := EMPTY_SECTOR]) == LiveOf(db.secs)
    ensures CountStore(db.secs[x := EMPTY_SECTOR], Empty)
         == CountStore(db.secs, Empty) + (if db.secs[x].store == Empty then 0 else 1)
  {
    LiveOfUpdate(db.secs, x, EMPTY_SECTOR);
    CountStoreUpdate(db.secs, x, EMPTY_SECTOR, Empty);
    assert LiveIn(EMPTY_SECTOR.recs) == multiset{};
  }

  lemma {:induction false} CollectFromLosesNothing(db: Db, first: nat, k: nat, last: nat, wanted: nat)
    requires Sound(db) && db.gcRequest && first < |db.secs| && k <= |db.secs| && last < |db.secs|
    ensures var r := CollectFrom(db, first, k, last, wanted);
            && r.failures == 0 && r.db == db.(secs := r.db.secs, oldest := r.db.oldest)
            && Sound(r.db) && r.db.gcRequest
            && LiveOf(r.db.secs) == LiveOf(db.secs)
            && CountStore(r.db.secs, Empty) >= CountStore(db.secs, Empty)
    decreases |db.secs| - k
  {
    hide LiveOf, LiveIn, CountStore, UsedBytes, CollectSector;
    if k < |db.secs| {
      var x := db.(oldest := first).SectorAt(k);
      if db.secs[x].dirty == Clean {
        CollectFromLosesNothing(db, first, k + 1, last, wanted);
      } else {
        CollectSectorLosesNothing(db, x);
        var c := CollectSector(db, x);
        if c.db.Remain(last) <= wanted {
          CollectFromLosesNothing(c.db, first, k + 1, x, wanted);
        }
      }
    }
  }

  /** Garbage collection loses nothing: from any sound database it moves every record it has to, keeps
      the live records as they are, and ends with at least one empty sector. */
  lemma CollectLosesNothing(db: Db, wanted: nat)
    requires Sound(db) && db.gcRequest
    ensures var r := Collect(db, wanted);
            && r.failures == 0 && Idle(r.db) && LiveOf(r.db.secs) == LiveOf(db.secs)
            && r.db.secSize == db.secSize && |r.db.secs| == |db.secs|
            && CountStore(r.db.secs, Empty) >= CountStore(db.secs, Empty) >= 1
  {
    hide LiveOf, LiveIn, CountStore, UsedBytes, CollectFrom;
    if CountStore(db.secs, Empty) <= GC_EMPTY_SEC_THRESHOLD {
      CollectFromLosesNothing(db, db.oldest, 0, LastEmpty(db, 0, 0), wanted);
    }
  }
}
