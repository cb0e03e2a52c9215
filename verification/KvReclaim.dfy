/** What garbage collection frees, and when a set reports that the flash is full. */
module KvReclaim {
  import opened KvStore
  import opened KvCollect
  import opened KvRefinement
  import opened Wrappers

  // ---- Bytes in use ----

  function TotalUsed(secs: seq<Sector>): nat {
    if secs == [] then 0 else TotalUsed(secs[..|secs| - 1]) + UsedBytes(secs[|secs| - 1].recs)
  }

  /** The bytes of the records from position `j` on that a collection moves. */
  function Moving(recs: seq<Record>, j: nat): nat
    decreases |recs| - j
  {
    if j >= |recs| then 0 else (if recs[j].Movable() then recs[j].Len() else 0) + Moving(recs, j + 1)
  }

  /** The bytes of the records from position `j` on that it does not move. */
  function Garbage(recs: seq<Record>, j: nat): nat
    decreases |recs| - j
  {
    if j >= |recs| then 0 else (if recs[j].Movable() then 0 else recs[j].Len()) + Garbage(recs, j + 1)
  }

  lemma {:induction false} MovingOrGarbage(recs: seq<Record>, j: nat)
    requires j <= |recs|
    ensures UsedBytes(recs[..j]) + Moving(recs, j) + Garbage(recs, j) == UsedBytes(recs)
    decreases |recs| - j
  {
    if j < |recs| {
      UsedBytesPrefix(recs, j);
      MovingOrGarbage(recs, j + 1);
    } else {
      assert recs[..j] == recs;
    }
  }

  lemma {:induction false} MovingLater(recs: seq<Record>, l: nat, r: Record, j: nat)
    requires l < |recs| && l < j
    ensures Moving(recs[l := r], j) == Moving(recs, j)
    decreases |recs| - j
  {
    if j < |recs| {
      MovingLater(recs, l, r, j + 1);
    }
  }

  lemma {:induction false} TotalUpdate(secs: seq<Sector>, i: nat, s: Sector)
    requires i < |secs|
    ensures TotalUsed(secs[i := s]) == TotalUsed(secs) - UsedBytes(secs[i].recs) + UsedBytes(s.recs)
  {
    hide UsedBytes;
    var n := |secs| - 1;
    if i == n {
      assert secs[i := s][..n] == secs[..n];
    } else {
      assert secs[i := s][..n] == secs[..n][i := s];
      TotalUpdate(secs[..n], i, s);
    }
  }

  /** A sector that gains bytes does so within the gain of all, if none loses any. */
  lemma {:induction false} GainWithinTotal(secs: seq<Sector>, secs': seq<Sector>, y: nat)
    requires |secs| == |secs'| && y < |secs|
    requires forall i :: 0 <= i < |secs| ==> UsedBytes(secs[i].recs) <= UsedBytes(secs'[i].recs)
    ensures UsedBytes(secs'[y].recs) - UsedBytes(secs[y].recs) <= TotalUsed(secs') - TotalUsed(secs)
  {
    hide UsedBytes;
    var n := |secs| - 1;
    if y < n {
      GainWithinTotal(secs[..n], secs'[..n], y);
    } else {
      NoLossInTotal(secs[..n], secs'[..n]);
    }
  }

  lemma {:induction false} NoLossInTotal(secs: seq<Sector>, secs': seq<Sector>)
    requires |secs| == |secs'|
    requires forall i :: 0 <= i < |secs| ==> UsedBytes(secs[i].recs) <= UsedBytes(secs'[i].recs)
    ensures TotalUsed(secs) <= TotalUsed(secs')
  {
    hide UsedBytes;
    var n := |secs| - 1;
    if secs != [] {
      NoLossInTotal(secs[..n], secs'[..n]);
    }
  }

  // ---- Collecting one sector ----

  /** A sector as it was, or a clean one with copies of records behind its own. */
  ghost predicate AsBeforeOrMore(s: Sector, s': Sector) {
    || s' == s
    || (s.dirty == s'.dirty == Clean && s'.store == Using && s.recs <= s'.recs
        && (forall j :: |s.recs| <= j < |s'.recs| ==> s'.recs[j].status == Written && s'.recs[j].crcOk)
        && UsedBytes(s.recs) <= UsedBytes(s'.recs))
  }

  ghost predicate OnlyCopies(db: Db, db': Db, x: nat) {
    && |db'.secs| == |db.secs|
    && (forall i :: 0 <= i < |db.secs| && i != x ==> AsBeforeOrMore(db.secs[i], db'.secs[i]))
  }

  lemma MarkTotal(db: Db, a: Address, status: KvStatus)
    requires db.HasRecord(a) && !db.RecordAt(a).Stray() && status != Unused
    ensures var db' := MarkRecord(db, a, status);
            && TotalUsed(db'.secs) == TotalUsed(db.secs) && OnlyCopies(db, db', a.sector)
            && UsedBytes(db'.secs[a.sector].recs) == UsedBytes(db.secs[a.sector].recs)
  {
    hide TotalUsed, UsedBytes;
    var s' := MarkRecord(db, a, status).secs[a.sector];
    UsedBytesUpdate(db.secs[a.sector].recs, a.pos, s'.recs[a.pos]);
    TotalUpdate(db.secs, a.sector, s');
  }

  lemma CopyTotal(db: Db, w: nat, r: Record, x: nat)
    requires w < |db.secs| && w != x && db.secs[w].dirty == Clean
    requires SectorSound(db.secSize, db.secs[w]) && Settled(db.secs[w])
    requires RecordSound(r) && r.status == Written && CanHold(db, w, r.Len())
    ensures var db' := AppendRecord(db, w, r);
            && TotalUsed(db'.secs) == TotalUsed(db.secs) + r.Len() && OnlyCopies(db, db', x)
  {
    hide TotalUsed, UsedBytes;
    UsedBytesAppend(db.secs[w].recs, r);
    AppendSound(db, w, r);
    TotalUpdate(db.secs, w, AppendRecord(db, w, r).secs[w]);
  }

  /** A move takes the bytes of its record once more, and touches no other dirty sector. */
  lemma MoveTakes(db: Db, x: nat, j: nat, empties: nat)
    requires CollectingAt(db, x) && j < |db.secs[x].recs| && Room(db, x, j, empties)
    requires db.secs[x].recs[j].Movable()
    ensures var r := Move(db, Address(x, j)).db;
            && TotalUsed(r.secs) == TotalUsed(db.secs) + db.secs[x].recs[j].Len()
            && OnlyCopies(db, r, x) && x < |r.secs|
            && UsedBytes(r.secs[x].recs) == UsedBytes(db.secs[x].recs)
  {
    hide TotalUsed, LiveOf, LiveIn, CountStore, UsedBytes, FirstFit;
    var kv := db.secs[x].recs[j];
    var prepared := if kv.status == Written then MarkRecord(db, Address(x, j), PreDelete) else db;
    Prepared(db, x, j, empties);
    if kv.status == Written {
      MarkTotal(db, Address(x, j), PreDelete);
    }
    var copy := kv.(status := Written);
    AllocWhileCollecting(prepared, x, j, empties);
    var w := Alloc(prepared, kv.Len()).sector.value;
    CopyTotal(prepared, w, copy, x);
    var copied := AppendRecord(prepared, w, copy);
    MarkTotal(copied, Address(x, j), Deleted);
  }

  lemma CopiesAgain(db: Db, db': Db, db'': Db, x: nat)
    requires OnlyCopies(db, db', x) && OnlyCopies(db', db'', x)
    ensures OnlyCopies(db, db'', x)
  {
  }

  lemma {:induction false} MoveRecordsTake(db: Db, x: nat, j: nat, empties: nat)
    requires CollectingAt(db, x) && Untouched(db, x, j) && Room(db, x, j, empties)
    ensures var r := MoveRecords(db, x, j, |db.secs[x].recs|).db;
            && TotalUsed(r.secs) == TotalUsed(db.secs) + Moving(db.secs[x].recs, j)
            && OnlyCopies(db, r, x) && x < |r.secs|
            && UsedBytes(r.secs[x].recs) == UsedBytes(db.secs[x].recs)
    decreases |db.secs[x].recs| - j
  {
    hide TotalUsed, LiveOf, LiveIn, CountStore, UsedBytes, FirstFit, Move, OnlyCopies;
    SameIsOnlyCopies(db, x);
    if j < |db.secs[x].recs| {
      var kv := db.secs[x].recs[j];
      if kv.Movable() {
        MoveWhileCollecting(db, x, j, empties);
        MoveTakes(db, x, j, empties);
        var moved := Move(db, Address(x, j)).db;
        MovingLater(db.secs[x].recs, j, kv.(status := Deleted), j + 1);
        MoveRecordsTake(moved, x, j + 1, empties);
        CopiesAgain(db, moved, MoveRecords(db, x, j, |db.secs[x].recs|).db, x);
      } else {
        RoomGrows(db, x, j, empties);
        MoveRecordsTake(db, x, j + 1, empties);
      }
    }
  }

  lemma SameIsOnlyCopies(db: Db, x: nat)
    ensures OnlyCopies(db, db, x)
  {
  }

  /** Collecting a dirty sector erases it, leaves the other dirty ones as they are, and frees exactly the bytes of
      its records that are not moved. */
  lemma CollectSectorFrees(db: Db, x: nat)
    requires Sound(db) && db.gcRequest && x < |db.secs| && db.secs[x].dirty == Dirty
    ensures var c := CollectSector(db, x).db;
            && TotalUsed(c.secs) + Garbage(db.secs[x].recs, 0) == TotalUsed(db.secs)
            && c.secs[x] == EMPTY_SECTOR && OnlyCopies(db, c, x)
  {
    hide TotalUsed, LiveOf, LiveIn, CountStore, UsedBytes, MoveRecords, Moving, Garbage;
    var s := db.secs[x].(dirty := Collecting);
    var marked := db.SetSector(x, s);
    CountStoreUpdate(db.secs, x, s, Empty);
    TotalUpdate(db.secs, x, s);
    var empties := CountStore(db.secs, Empty);
    MoveRecordsTake(marked, x, 0, empties);
    var moved := MoveRecords(marked, x, 0, |s.recs|).db;
    TotalUpdate(moved.secs, x, EMPTY_SECTOR);
    NothingUsed();
    assert s.recs[..0] == [];
    MovingOrGarbage(s.recs, 0);
  }

  lemma NothingUsed()
    ensures UsedBytes([]) == 0
  {
  }

  // ---- Collecting sectors one after the other ----

  /** The dirty sectors from the `k`-th on, in the order of the scan that started at `first`. */
  function DirtyFrom(db: Db, first: nat, k: nat): (order: seq<nat>)
    requires first < |db.secs| && k <= |db.secs|
    ensures forall m :: 0 <= m < |order| ==> order[m] < |db.secs| && db.secs[order[m]].dirty != Clean
    decreases |db.secs| - k
  {
    if k == |db.secs| then []
    else
      var x := db.(oldest := first).SectorAt(k);
      (if db.secs[x].dirty == Clean then [] else [x]) + DirtyFrom(db, first, k + 1)
  }

  /** The place of sector `i` in the scan that starts at `first`. */
  function Place(db: Db, first: nat, i: nat): (k: nat)
    requires first < |db.secs| && i < |db.secs|
    ensures k < |db.secs| && db.(oldest := first).SectorAt(k) == i
  {
    ScanIndex(db.(oldest := first), i)
  }

  lemma PlaceOf(db: Db, first: nat, k: nat)
    requires first < |db.secs| && k < |db.secs|
    ensures Place(db, first, db.(oldest := first).SectorAt(k)) == k
  {
  }

  /** Sectors by their places in the scan, from the `k`-th on. */
  ghost predicate InOrder(db: Db, first: nat, k: nat, order: seq<nat>)
    requires first < |db.secs|
  {
    && (forall a :: 0 <= a < |order| ==> order[a] < |db.secs| && Place(db, first, order[a]) >= k)
    && (forall a, b :: 0 <= a < b < |order| ==> Place(db, first, order[a]) < Place(db, first, order[b]))
  }

  lemma OneMoreInOrder(db: Db, first: nat, k: nat, x: nat, rest: seq<nat>)
    requires first < |db.secs| && x < |db.secs| && Place(db, first, x) == k && InOrder(db, first, k + 1, rest)
    ensures InOrder(db, first, k, [x] + rest) && InOrder(db, first, k, rest)
  {
    hide Place;
  }

  /** That order holds no sector twice and goes by the place in the scan. */
  lemma {:induction false} DirtyInOrder(db: Db, first: nat, k: nat)
    requires first < |db.secs| && k <= |db.secs|
    ensures InOrder(db, first, k, DirtyFrom(db, first, k))
    decreases |db.secs| - k
  {
    hide InOrder, Place;
    if k < |db.secs| {
      DirtyInOrder(db, first, k + 1);
      PlaceOf(db, first, k);
      OneMoreInOrder(db, first, k, db.(oldest := first).SectorAt(k), DirtyFrom(db, first, k + 1));
      assert [] + DirtyFrom(db, first, k + 1) == DirtyFrom(db, first, k + 1);
    } else {
      NothingInOrder(db, first, k);
    }
  }

  lemma NothingInOrder(db: Db, first: nat, k: nat)
    requires first < |db.secs|
    ensures InOrder(db, first, k, [])
  {
  }

  /** Every dirty sector is in it. */
  lemma {:induction false} DirtyIsThere(db: Db, first: nat, k: nat, i: nat)
    requires first < |db.secs| && k <= |db.secs| && i < |db.secs|
    requires Place(db, first, i) >= k && db.secs[i].dirty != Clean
    ensures i in DirtyFrom(db, first, k)
    decreases |db.secs| - k
  {
    hide ScanIndex;
    if k < |db.secs| {
      PlaceOf(db, first, k);
      if Place(db, first, i) > k {
        DirtyIsThere(db, first, k + 1, i);
      }
    }
  }

  /** The sectors of `order` collected one after the other. */
  function CollectAll(db: Db, order: seq<nat>): (r: Db)
    requires db.oldest < |db.secs| && forall m :: 0 <= m < |order| ==> order[m] < |db.secs|
    ensures |r.secs| == |db.secs|
    decreases |order|
  {
    if order == [] then db else CollectAll(CollectSector(db, order[0]).db, order[1..])
  }

  function GarbageOf(secs: seq<Sector>, order: seq<nat>): nat
    requires forall m :: 0 <= m < |order| ==> order[m] < |secs|
  {
    if order == [] then 0 else Garbage(secs[order[0]].recs, 0) + GarbageOf(secs, order[1..])
  }

  /** After `m` sectors, the one whose free space decides: the one collected before the last one. */
  function Decides(order: seq<nat>, last: nat, m: nat): nat
    requires 1 <= m <= |order| + 1
  {
    if m == 1 then last else order[m - 2]
  }

  /** Collecting the first `m` sectors of `order` has left enough room. */
  predicate Enough(db: Db, order: seq<nat>, last: nat, wanted: nat, m: nat)
    requires db.oldest < |db.secs| && (forall l :: 0 <= l < |order| ==> order[l] < |db.secs|) && last < |db.secs|
    requires 1 <= m <= |order|
  {
    CollectAll(db, order[..m]).Remain(Decides(order, last, m)) > wanted
  }

  /** The collection stops behind the first `n` sectors: at the first that leaves enough room, or else at the end. */
  ghost predicate StopsAt(db: Db, order: seq<nat>, last: nat, wanted: nat, n: nat)
    requires db.oldest < |db.secs| && (forall l :: 0 <= l < |order| ==> order[l] < |db.secs|) && last < |db.secs|
  {
    && n <= |order| && (order != [] ==> n >= 1)
    && (forall m :: 1 <= m < n ==> !Enough(db, order, last, wanted, m))
    && (n < |order| ==> Enough(db, order, last, wanted, n))
  }

  lemma {:induction false} SameDirty(db: Db, db': Db, first: nat, k: nat)
    requires |db.secs| == |db'.secs| && first < |db.secs| && k <= |db.secs|
    requires forall l :: k <= l < |db.secs| ==>
               var x := db.(oldest := first).SectorAt(l); db.secs[x].dirty == Clean <==> db'.secs[x].dirty == Clean
    ensures DirtyFrom(db, first, k) == DirtyFrom(db', first, k)
    decreases |db.secs| - k
  {
    if k < |db.secs| {
      assert db.(oldest := first).SectorAt(k) == db'.(oldest := first).SectorAt(k);
      forall l | k + 1 <= l < |db.secs|
        ensures var x := db.(oldest := first).SectorAt(l); db.secs[x].dirty == Clean <==> db'.secs[x].dirty == Clean
      {
      }
      SameDirty(db, db', first, k + 1);
    }
  }

  lemma {:induction false} SameGarbage(secs: seq<Sector>, secs': seq<Sector>, order: seq<nat>)
    requires forall m :: 0 <= m < |order| ==> order[m] < |secs| && order[m] < |secs'|
    requires forall m :: 0 <= m < |order| ==> secs[order[m]] == secs'[order[m]]
    ensures GarbageOf(secs, order) == GarbageOf(secs', order)
  {
    if order != [] {
      SameGarbage(secs, secs', order[1..]);
    }
  }

  /** After the first `n` sectors of `order` are collected: their garbage is gone and the others are as before. */
  ghost predicate Freed(db: Db, order: seq<nat>, n: nat, c: Db)
    requires db.oldest < |db.secs| && (forall l :: 0 <= l < |order| ==> order[l] < |db.secs|)
  {
    && n <= |order| && |c.secs| == |db.secs|
    && c == CollectAll(db, order[..n])
    && TotalUsed(c.secs) + GarbageOf(db.secs, order[..n]) == TotalUsed(db.secs)
    && (forall m :: n <= m < |order| ==> c.secs[order[m]] == db.secs[order[m]])
  }

  /** The order has no sector twice. */
  predicate Apart(order: seq<nat>) {
    forall a, b :: 0 <= a < b < |order| ==> order[a] != order[b]
  }

  lemma FreedFirst(db: Db, order: seq<nat>, n: nat, c: Db)
    requires Sound(db) && db.gcRequest && order != [] && Apart(order)
    requires forall m :: 0 <= m < |order| ==> order[m] < |db.secs| && db.secs[order[m]].dirty == Dirty
    requires Freed(CollectSector(db, order[0]).db, order[1..], n, c)
    ensures Freed(db, order, n + 1, c)
  {
    hide TotalUsed, Garbage, CollectSector, CollectAll, GarbageOf;
    CollectSectorFrees(db, order[0]);
    var b := CollectSector(db, order[0]).db;
    assert order[..n + 1][1..] == order[1..][..n] && order[..n + 1][0] == order[0];
    assert forall m :: 0 <= m < |order| - 1 ==> order[1..][m] == order[m + 1];
    assert forall m :: 1 <= m < |order| ==> order[m] == order[1..][m - 1] && b.secs[order[m]] == db.secs[order[m]];
    SameGarbage(b.secs, db.secs, order[1..][..n]);
    CollectAllStep(db, order[..n + 1]);
  }

  lemma CollectAllStep(db: Db, order: seq<nat>)
    requires db.oldest < |db.secs| && order != [] && forall m :: 0 <= m < |order| ==> order[m] < |db.secs|
    ensures CollectAll(db, order) == CollectAll(CollectSector(db, order[0]).db, order[1..])
    ensures GarbageOf(db.secs, order) == Garbage(db.secs[order[0]].recs, 0) + GarbageOf(db.secs, order[1..])
  {
  }

  lemma StopsLater(db: Db, order: seq<nat>, last: nat, wanted: nat, n: nat)
    requires db.oldest < |db.secs| && (forall l :: 0 <= l < |order| ==> order[l] < |db.secs|) && last < |db.secs|
    requires order != [] && !Enough(db, order, last, wanted, 1)
    requires StopsAt(CollectSector(db, order[0]).db, order[1..], order[0], wanted, n)
    ensures StopsAt(db, order, last, wanted, n + 1)
  {
    hide CollectSector, CollectAll, Db.Remain;
    var b := CollectSector(db, order[0]).db;
    forall m | 1 <= m < |order|
      ensures Enough(b, order[1..], order[0], wanted, m) == Enough(db, order, last, wanted, m + 1)
    {
      assert order[..m + 1][1..] == order[1..][..m] && order[..m + 1][0] == order[0];
      CollectAllStep(db, order[..m + 1]);
    }
    forall m | 1 <= m < n + 1 ensures !Enough(db, order, last, wanted, m) {
      if m > 1 {
        assert Enough(b, order[1..], order[0], wanted, m - 1) == Enough(db, order, last, wanted, m - 1 + 1);
      }
    }
  }

  lemma EnoughFirst(db: Db, order: seq<nat>, last: nat, wanted: nat)
    requires db.oldest < |db.secs| && (forall l :: 0 <= l < |order| ==> order[l] < |db.secs|) && last < |db.secs|
    requires order != []
    ensures Enough(db, order, last, wanted, 1) <==> CollectSector(db, order[0]).db.Remain(last) > wanted
  {
    hide CollectSector;
    assert order[..1] == [order[0]];
    CollectAllStep(db, order[..1]);
  }

  lemma StopsAtOnce(db: Db, order: seq<nat>, last: nat, wanted: nat)
    requires Sound(db) && db.gcRequest && order != [] && Apart(order) && last < |db.secs|
    requires forall m :: 0 <= m < |order| ==> order[m] < |db.secs| && db.secs[order[m]].dirty == Dirty
    requires Enough(db, order, last, wanted, 1)
    ensures StopsAt(db, order, last, wanted, 1) && Freed(db, order, 1, CollectSector(db, order[0]).db)
  {
    hide CollectSector, Enough, TotalUsed, GarbageOf;
    var c := CollectSector(db, order[0]).db;
    assert Freed(c, order[1..], 0, c) by {
      NoneFreed(c, order[1..]);
    }
    FreedFirst(db, order, 0, c);
  }

  /** The loop over the sectors collects a first part of the dirty ones, one after the other, and stops by the rule. */
  lemma {:induction false} CollectFromFrees(db: Db, first: nat, k: nat, last: nat, wanted: nat) returns (n: nat)
    requires Sound(db) && db.gcRequest && first < |db.secs| && k <= |db.secs| && last < |db.secs|
    requires db.oldest < |db.secs|
    ensures StopsAt(db, DirtyFrom(db, first, k), last, wanted, n)
    ensures Freed(db, DirtyFrom(db, first, k), n, CollectFrom(db, first, k, last, wanted).db)
    decreases |db.secs| - k
  {
    hide CollectSector, Enough, Freed, StopsAt, Sound, Apart, Db.Remain;
    if k == |db.secs| {
      n := 0;
      NoneFreed(db, []);
      NoStop(db, last, wanted);
    } else {
      var x := db.(oldest := first).SectorAt(k);
      if db.secs[x].dirty == Clean {
        n := CollectFromFrees(db, first, k + 1, last, wanted);
        assert DirtyFrom(db, first, k) == DirtyFrom(db, first, k + 1);
      } else {
        NextDirty(db, first, k);
        var order, c := DirtyFrom(db, first, k), CollectSector(db, x).db;
        EnoughFirst(db, order, last, wanted);
        if c.Remain(last) > wanted {
          n := 1;
          StopsAtOnce(db, order, last, wanted);
        } else {
          n := CollectFromFrees(c, first, k + 1, x, wanted);
          StopsLater(db, order, last, wanted, n);
          FreedFirst(db, order, n, CollectFrom(c, first, k + 1, x, wanted).db);
          n := n + 1;
        }
      }
    }
  }

  /** Behind a dirty sector the collection goes on with the dirty ones that come after it. */
  lemma NextDirty(db: Db, first: nat, k: nat)
    requires Sound(db) && db.gcRequest && first < |db.secs| && k < |db.secs|
    requires db.secs[db.(oldest := first).SectorAt(k)].dirty != Clean
    ensures var order, x := DirtyFrom(db, first, k), db.(oldest := first).SectorAt(k);
            var c := CollectSector(db, x).db;
            && order != [] && order[0] == x && Apart(order)
            && (forall m :: 0 <= m < |order| ==> order[m] < |db.secs| && db.secs[order[m]].dirty == Dirty)
            && Sound(c) && c.gcRequest && |c.secs| == |db.secs|
            && DirtyFrom(c, first, k + 1) == order[1..]
  {
    hide CollectSector, Sound, Place;
    var x := db.(oldest := first).SectorAt(k);
    DirtyInOrder(db, first, k);
    DirtyNow(db, x);
    CollectSectorLosesNothing(db, x);
    DirtyStays(db, first, k);
    forall m | 0 <= m < |DirtyFrom(db, first, k)| ensures db.secs[DirtyFrom(db, first, k)[m]].dirty == Dirty {
      DirtyNow(db, DirtyFrom(db, first, k)[m]);
    }
  }

  lemma DirtyNow(db: Db, x: nat)
    requires Sound(db) && x < |db.secs| && db.secs[x].dirty != Clean
    ensures db.secs[x].dirty == Dirty
  {
  }

  lemma NoneFreed(db: Db, order: seq<nat>)
    requires db.oldest < |db.secs| && forall l :: 0 <= l < |order| ==> order[l] < |db.secs|
    ensures Freed(db, order, 0, db)
  {
    assert order[..0] == [];
  }

  lemma NoStop(db: Db, last: nat, wanted: nat)
    requires db.oldest < |db.secs| && last < |db.secs|
    ensures StopsAt(db, [], last, wanted, 0)
  {
  }

  /** Collecting a sector leaves the order of the dirty ones behind it. */
  lemma DirtyStays(db: Db, first: nat, k: nat)
    requires Sound(db) && db.gcRequest && first < |db.secs| && k < |db.secs|
    requires db.secs[db.(oldest := first).SectorAt(k)].dirty == Dirty
    ensures var c := CollectSector(db, db.(oldest := first).SectorAt(k)).db;
            DirtyFrom(c, first, k + 1) == DirtyFrom(db, first, k + 1)
  {
    hide CollectSector, Place, TotalUsed, UsedBytes, Garbage, CountStore, SectorSound, Settled;
    var x := db.(oldest := first).SectorAt(k);
    CollectSectorFrees(db, x);
    forall l | k + 1 <= l < |db.secs| ensures db.(oldest := first).SectorAt(l) != x {
      PlaceOf(db, first, k);
      PlaceOf(db, first, l);
    }
    SameDirty(db, CollectSector(db, x).db, first, k + 1);
  }

  /** The last empty sector in scan order from the `k`-th on, if there is any. */
  lemma {:induction false} LastEmptyIs(db: Db, k: nat, last: nat)
    requires db.oldest < |db.secs| && k <= |db.secs| && last < |db.secs|
    ensures var e := LastEmpty(db, k, last);
            && (e == last || (db.secs[e].store == Empty && ScanIndex(db, e) >= k))
            && (forall i :: 0 <= i < |db.secs| && db.secs[i].store == Empty && ScanIndex(db, i) >= k ==>
                  db.secs[e].store == Empty && k <= ScanIndex(db, i) <= ScanIndex(db, e))
    decreases |db.secs| - k
  {
    if k < |db.secs| {
      var x := db.SectorAt(k);
      var last' := if db.secs[x].store == Empty then x else last;
      LastEmptyIs(db, k + 1, last');
      assert ScanIndex(db, x) == k;
      assert LastEmpty(db, k, last) == LastEmpty(db, k + 1, last');
    }
  }

  /** What a collection does, from any sound database that has requested one. With more than one empty sector it does
      nothing. Otherwise it collects the first dirty sector in scan order and goes on, one dirty sector after the
      other, until the sector collected before the last one (at first: the empty one) has more than `wanted` bytes
      free. The bytes in use fall by exactly those of the records it does not move, and the dirty sectors it does
      not reach are as they were. */
  lemma CollectFrees(db: Db, wanted: nat) returns (n: nat)
    requires Sound(db) && db.gcRequest
    ensures var order, r := DirtyFrom(db, db.oldest, 0), Collect(db, wanted).db;
            if CountStore(db.secs, Empty) > 1 then r == db.(gcRequest := false)
            else
              var last := LastEmpty(db, 0, 0);
              && db.secs[last].store == Empty && StopsAt(db, order, last, wanted, n)
              && Freed(db, order, n, r.(gcRequest := true))
  {
    hide StopsAt, Freed, CollectFrom, SectorSound, Settled, CountStore;
    var e := SomeSectorWith(db.secs, Empty);
    LastEmptyIs(db, 0, 0);
    n := CollectFromFrees(db, db.oldest, 0, LastEmpty(db, 0, 0), wanted);
    CollectFromLosesNothing(db, db.oldest, 0, LastEmpty(db, 0, 0), wanted);
  }

  // ---- When a set reports full flash ----

  predicate Fits(db: Db, store: StoreStatus, size: nat, i: nat)
    requires i < |db.secs|
  {
    db.secs[i].store == store && CanHold(db, i, size)
  }

  /** The first sector in scan order that has status `store` and can hold `size` bytes. */
  ghost predicate FirstThatFits(db: Db, store: StoreStatus, size: nat, i: nat)
    requires db.oldest < |db.secs|
  {
    && i < |db.secs| && Fits(db, store, size, i)
    && (forall j :: 0 <= j < |db.secs| && Fits(db, store, size, j) ==> ScanIndex(db, i) <= ScanIndex(db, j))
  }

  predicate NoneFits(db: Db, store: StoreStatus, size: nat) {
    forall i :: 0 <= i < |db.secs| ==> !Fits(db, store, size, i)
  }

  lemma {:induction false} FirstFitExactly(db: Db, store: StoreStatus, size: nat, k: nat)
    requires db.oldest < |db.secs| && k <= |db.secs|
    ensures var r := FirstFit(db, store, size, k);
            && (r.Some? ==> ScanIndex(db, r.value) >= k)
            && (forall j :: 0 <= j < |db.secs| && k <= ScanIndex(db, j) && Fits(db, store, size, j) ==>
                  r.Some? && ScanIndex(db, r.value) <= ScanIndex(db, j))
    decreases |db.secs| - k
  {
    hide CanHold;
    if k < |db.secs| {
      FirstFitExactly(db, store, size, k + 1);
      assert ScanIndex(db, db.SectorAt(k)) == k;
    }
  }

  lemma FirstFitIsFirst(db: Db, store: StoreStatus, size: nat)
    requires db.oldest < |db.secs|
    ensures match FirstFit(db, store, size, 0)
            case Some(i) => FirstThatFits(db, store, size, i)
            case None => NoneFits(db, store, size)
  {
    hide CanHold, FirstFit;
    FirstFitExactly(db, store, size, 0);
  }

  /** Room for a record without a collection: in a sector in use, or in an empty one that is not the last. */
  predicate HasRoom(db: Db, size: nat) {
    || !NoneFits(db, Using, size)
    || (CountStore(db.secs, Empty) > 1 && db.secSize - SECTOR_HDR_SIZE > size + REMAIN_THRESHOLD)
  }

  /** An allocation outside a collection: the first sector in use that fits, or else the first empty one while more
      than one is left; with only one left it asks for a collection instead. */
  lemma AllocExactly(db: Db, size: nat)
    requires Idle(db)
    ensures var r := Alloc(db, size);
            && (r.sector.Some? <==> HasRoom(db, size))
            && (r.sector.Some? && !NoneFits(db, Using, size) ==> FirstThatFits(db, Using, size, r.sector.value))
            && (r.sector.Some? && NoneFits(db, Using, size) ==> FirstThatFits(db, Empty, size, r.sector.value))
            && (r.db.gcRequest <==> NoneFits(db, Using, size) && CountStore(db.secs, Empty) == 1)
  {
    assert forall i :: 0 <= i < |db.secs| ==> db.secs[i].store != Full;
    hide FirstFit, FirstThatFits, NoneFits, CanHold, SectorSound, CountStore, UsedBytes, Settled;
    FirstFitIsFirst(db, Using, size);
    FirstFitIsFirst(db, Empty, size);
    NoSectorWith(db, Using, size);
    EmptyFits(db, size);
  }

  lemma NoSectorWith(db: Db, store: StoreStatus, size: nat)
    ensures CountStore(db.secs, store) == 0 ==> NoneFits(db, store, size)
  {
    if CountStore(db.secs, store) == 0 {
      forall i | 0 <= i < |db.secs| ensures db.secs[i].store != store {
        if db.secs[i].store == store {
          CountStorePositive(db.secs, i, store);
        }
      }
    }
  }

  lemma EmptyFits(db: Db, size: nat)
    requires Idle(db)
    ensures NoneFits(db, Empty, size) <==> db.secSize - SECTOR_HDR_SIZE <= size + REMAIN_THRESHOLD
  {
    hide CountStore, UsedBytes, Settled;
    var e := SomeSectorWith(db.secs, Empty);
    assert Fits(db, Empty, size, e) <==> db.secSize - SECTOR_HDR_SIZE > size + REMAIN_THRESHOLD;
  }

  /** A set reports full flash exactly if there is no room, and none after the collection that it then asks for. */
  lemma SetReportsFullExactly(db: Db, key: Bytes, value: Bytes)
    requires Idle(db)
    ensures var size := RecordSize(key, value);
            SetKv(db, key, value).error == SavedFull <==>
              && !HasRoom(db, size)
              && (CountStore(db.secs, Empty) == 1 ==> !HasRoom(Collect(db.(gcRequest := true), size).db, size))
  {
    assert db.oldest < |db.secs|;
    hide Alloc, HasRoom, Collect, CountStore, LiveOf, Replace, Find, Sound;
    var size := RecordSize(key, value);
    AllocExactly(db, size);
    HasRoomMeans(db, size);
    if !HasRoom(db, size) && CountStore(db.secs, Empty) == 1 {
      SoundRequest(db);
      CollectLosesNothing(db.(gcRequest := true), size);
      AllocExactly(Collect(db.(gcRequest := true), size).db, size);
    }
    NewKvLosesNothing(db, size);
    var alloc := NewKv(db, size);
    if alloc.sector.Some? {
      RoomIsUsed(alloc.db, alloc.sector.value, key, value);
    }
  }

  lemma HasRoomMeans(db: Db, size: nat)
    ensures !HasRoom(db, size) ==> NoneFits(db, Using, size)
  {
  }

  lemma SoundRequest(db: Db)
    requires Idle(db)
    ensures Sound(db.(gcRequest := true))
  {
    hide SectorSound, Settled, CountStore;
  }

  lemma RoomIsUsed(db: Db, i: nat, key: Bytes, value: Bytes)
    requires Idle(db) && Reserved(db, i, RecordSize(key, value))
    ensures Replace(db, i, Find(db, key), key, value).error == if |key| > NAME_MAX then NameError else NoError
  {
    hide Find, Collect, CountStore, SectorSound, Settled, LiveOf;
    if |key| <= NAME_MAX {
      ReplaceEffect(db, i, Find(db, key), key, value);
    }
  }

  lemma TwoOf(secs: seq<Sector>, store: StoreStatus, i: nat, j: nat)
    requires i < |secs| && j < |secs| && i != j && secs[i].store == secs[j].store == store
    ensures CountStore(secs, store) > 1
  {
    var other := if store == Empty then Using else Empty;
    var s := secs[i].(store := other);
    CountStoreUpdate(secs, i, s, store);
    CountStorePositive(secs[i := s], j, store);
  }

  /** Collecting a sector leaves in every other empty one at least the room that the records to move do not take. */
  lemma EmptyKeepsRoom(db: Db, x: nat, e: nat)
    requires Sound(db) && db.gcRequest && x < |db.secs| && db.secs[x].dirty == Dirty
    requires e < |db.secs| && db.secs[e].store == Empty
    ensures e != x && CollectSector(db, x).db.Remain(e) >= db.secSize - SECTOR_HDR_SIZE - Moving(db.secs[x].recs, 0)
  {
    hide CollectSector, TotalUsed, Moving, Garbage, Settled, CountStore, UsedBytes, LiveOf;
    CollectSectorFrees(db, x);
    CollectSectorLosesNothing(db, x);
    var c := CollectSector(db, x).db;
    var secs' := c.secs[x := db.secs[x]];
    TotalUpdate(c.secs, x, db.secs[x]);
    NothingUsed();
    assert db.secs[x].recs[..0] == [];
    MovingOrGarbage(db.secs[x].recs, 0);
    GainWithinTotal(db.secs, secs', e);
  }

  /** A set succeeds when there is room, and also when the record fits an empty sector beside all that must be moved
      out of the first dirty one. */
  lemma SetSucceeds(db: Db, key: Bytes, value: Bytes)
    requires Idle(db) && |key| <= NAME_MAX
    requires var size, dirty := RecordSize(key, value), DirtyFrom(db, db.oldest, 0);
             HasRoom(db, size) || (dirty != [] && FitsBesideMoved(db, dirty[0], size))
    ensures SetKv(db, key, value).error == NoError
  {
    hide HasRoom, Collect, CountStore, LiveOf, SetKv, Moving, Sound;
    var size := RecordSize(key, value);
    SetReportsFullExactly(db, key, value);
    SetEnds(db, key, value);
    if !HasRoom(db, size) {
      OneEmptyLeft(db, size);
      CollectionMakesRoom(db, size);
    }
  }

  lemma OneEmptyLeft(db: Db, size: nat)
    requires Idle(db) && !HasRoom(db, size) && db.secSize - SECTOR_HDR_SIZE > size + REMAIN_THRESHOLD
    ensures CountStore(db.secs, Empty) == 1
  {
  }

  lemma SetEnds(db: Db, key: Bytes, value: Bytes)
    requires Idle(db)
    ensures SetKv(db, key, value).error == SavedFull ||
            SetKv(db, key, value).error == if |key| > NAME_MAX then NameError else NoError
  {
    assert db.oldest < |db.secs|;
    hide NewKv, CountStore, LiveOf, Replace, Find, Sound;
    NewKvLosesNothing(db, RecordSize(key, value));
    var alloc := NewKv(db, RecordSize(key, value));
    if alloc.sector.Some? {
      RoomIsUsed(alloc.db, alloc.sector.value, key, value);
    }
  }

  predicate FitsBesideMoved(db: Db, x: nat, size: nat)
    requires x < |db.secs|
  {
    db.secSize - SECTOR_HDR_SIZE > Moving(db.secs[x].recs, 0) + size + REMAIN_THRESHOLD
  }

  /** The collection stops behind the first dirty sector if that leaves room enough. */
  lemma FirstIsEnough(db: Db, size: nat)
    requires Sound(db) && db.gcRequest && CountStore(db.secs, Empty) == 1
    requires DirtyFrom(db, db.oldest, 0) != [] && FitsBesideMoved(db, DirtyFrom(db, db.oldest, 0)[0], size)
    ensures var x, last := DirtyFrom(db, db.oldest, 0)[0], LastEmpty(db, 0, 0);
            && db.secs[x].dirty == Dirty && db.secs[last].store == Empty
            && Collect(db, size).db == CollectSector(db, x).db.(gcRequest := false)
  {
    assert db.oldest < |db.secs|;
    hide CollectSector, Moving, CountStore, Collect, CollectAll, GarbageOf, TotalUsed, UsedBytes, Sound, Db.Remain;
    var last, order := LastEmpty(db, 0, 0), DirtyFrom(db, db.oldest, 0);
    var n := CollectFrees(db, size);
    var x := order[0];
    DirtyNow(db, x);
    EmptyKeepsRoom(db, x, last);
    EnoughFirst(db, order, last, size);
    assert order[..1] == [x];
    CollectAllStep(db, [x]);
    CollectNone(CollectSector(db, x).db);
    CollectLosesNothing(db, size);
    IdleAsks(Collect(db, size).db);
  }

  lemma CollectNone(db: Db)
    requires db.oldest < |db.secs|
    ensures CollectAll(db, []) == db
  {
  }

  lemma IdleAsks(db: Db)
    requires Idle(db)
    ensures !db.gcRequest
  {
  }

  lemma CollectionMakesRoom(db: Db, size: nat)
    requires Idle(db) && CountStore(db.secs, Empty) == 1
    requires DirtyFrom(db, db.oldest, 0) != [] && FitsBesideMoved(db, DirtyFrom(db, db.oldest, 0)[0], size)
    ensures HasRoom(Collect(db.(gcRequest := true), size).db, size)
  {
    hide CollectSector, Moving, CountStore, Collect, LiveOf, TotalUsed, UsedBytes, Settled;
    var d := db.(gcRequest := true);
    SameDirty(db, d, db.oldest, 0);
    SoundRequest(db);
    FirstIsEnough(d, size);
    var x, last := DirtyFrom(d, d.oldest, 0)[0], LastEmpty(d, 0, 0);
    EmptyKeepsRoom(d, x, last);
    CollectSectorLosesNothing(d, x);
    var c := CollectSector(d, x).db;
    if c.secs[last].store == Empty {
      TwoOf(c.secs, Empty, last, x);
    } else {
      assert Fits(c.(gcRequest := false), Using, size, last);
    }
  }

  // ---- Dirty sectors are those with garbage ----

  predicate AllMovable(recs: seq<Record>) {
    forall j :: 0 <= j < |recs| ==> recs[j].Movable()
  }

  predicate MarkedSector(s: Sector) { s.dirty == Clean <==> AllMovable(s.recs) }

  /** The sectors that are not clean are exactly those with a record that no collection moves. */
  predicate Marked(db: Db) {
    forall i :: 0 <= i < |db.secs| ==> MarkedSector(db.secs[i])
  }

  /** The same, but for sector `x`, which is dirty already. */
  predicate MarkedBut(db: Db, x: nat) {
    && x < |db.secs| && db.secs[x].dirty != Clean
    && (forall i :: 0 <= i < |db.secs| && i != x ==> MarkedSector(db.secs[i]))
  }

  lemma AppendMarked(s: Sector, r: Record, store: StoreStatus)
    requires MarkedSector(s) && r.Movable()
    ensures MarkedSector(s.(store := store, recs := s.recs + [r]))
  {
    assert forall j :: 0 <= j < |s.recs| ==> (s.recs + [r])[j] == s.recs[j];
  }

  lemma CreateMarked(db: Db, i: nat, key: Bytes, value: Bytes, x: nat)
    requires i < |db.secs| && (Marked(db) || MarkedBut(db, x))
    ensures var r := CreateKv(db, i, key, value).db;
            (Marked(db) ==> Marked(r)) && (MarkedBut(db, x) ==> MarkedBut(r, x) && r.secs[x].dirty == db.secs[x].dirty)
  {
    hide MarkedSector, StoreAfter;
    var r := Record(Written, true, key, value);
    if i != x || Marked(db) {
      AppendMarked(db.secs[i], r, StoreAfter(db, i, r.Len()));
    }
  }

  lemma DeletedMarked(db: Db, a: Address)
    requires db.HasRecord(a) && (Marked(db) || MarkedBut(db, a.sector))
    ensures Marked(MarkRecord(db, a, Deleted))
  {
    assert !MarkRecord(db, a, Deleted).secs[a.sector].recs[a.pos].Movable();
  }

  lemma CollectSectorMarked(db: Db, x: nat)
    requires Sound(db) && db.gcRequest && x < |db.secs| && db.secs[x].dirty == Dirty && Marked(db)
    ensures Marked(CollectSector(db, x).db)
  {
    hide CollectSector, TotalUsed, Garbage, UsedBytes, Settled, CountStore, SectorSound;
    CollectSectorFrees(db, x);
    var c := CollectSector(db, x).db;
    forall i | 0 <= i < |db.secs| ensures MarkedSector(c.secs[i]) {
      assert MarkedSector(db.secs[i]);
      assert i != x ==> AsBeforeOrMore(db.secs[i], c.secs[i]);
    }
  }

  lemma {:induction false} CollectFromMarked(db: Db, first: nat, k: nat, last: nat, wanted: nat)
    requires Sound(db) && db.gcRequest && first < |db.secs| && k <= |db.secs| && last < |db.secs| && Marked(db)
    ensures Marked(CollectFrom(db, first, k, last, wanted).db)
    decreases |db.secs| - k
  {
    hide CollectSector, Marked, LiveOf, LiveIn, CountStore, UsedBytes, SectorSound, Settled;
    if k < |db.secs| {
      var x := db.(oldest := first).SectorAt(k);
      if db.secs[x].dirty == Clean {
        CollectFromMarked(db, first, k + 1, last, wanted);
      } else {
        DirtyNow(db, x);
        CollectSectorMarked(db, x);
        CollectSectorLosesNothing(db, x);
        var c := CollectSector(db, x).db;
        if c.Remain(last) <= wanted {
          CollectFromMarked(c, first, k + 1, x, wanted);
        }
      }
    }
  }

  lemma CollectMarked(db: Db, wanted: nat)
    requires Sound(db) && db.gcRequest && Marked(db)
    ensures Marked(Collect(db, wanted).db)
  {
    hide CollectFrom, MarkedSector, SectorSound, Settled, CountStore;
    CollectFromMarked(db, db.oldest, 0, LastEmpty(db, 0, 0), wanted);
  }

  lemma NewKvMarked(db: Db, size: nat)
    requires Idle(db) && Marked(db)
    ensures Marked(NewKv(db, size).db)
  {
    hide Alloc, Collect, MarkedSector, SectorSound, Settled, CountStore;
    var first := Alloc(db, size);
    assert first.db == db || first.db == db.(gcRequest := true);
    if first.sector == None && first.db.gcRequest {
      SoundRequest(db);
      CollectMarked(first.db, size);
    }
  }

  lemma ReplaceMarked(db: Db, i: nat, old_: Option<Address>, key: Bytes, value: Bytes)
    requires Idle(db) && Marked(db) && Reserved(db, i, RecordSize(key, value)) && |key| <= NAME_MAX
    requires old_.Some? ==> db.HasRecord(old_.value) && db.RecordAt(old_.value).crcOk
    ensures Marked(Replace(db, i, old_, key, value).db)
  {
    hide MarkedSector, Settled, CountStore, UsedBytes, MarkRecord, AppendRecord, OneMoreRecord;
    var kv := Record(Written, true, key, value);
    if old_.None? {
      AppendKeepsSteady(db, i, kv);
      CreateMarked(db, i, key, value, i);
    } else {
      var a := old_.value;
      var prepared := MarkRecord(db, a, PreDelete);
      MarkKeepsSteady(db, a, PreDelete);
      PreparedMarked(db, a);
      AppendKeepsSteady(prepared, i, kv);
      CreateMarked(prepared, i, key, value, a.sector);
      assert CreateKv(prepared, i, key, value).db.HasRecord(a);
      DeletedMarked(CreateKv(prepared, i, key, value).db, a);
      StaysIdle(db, i, a, key, value);
    }
  }

  lemma StaysIdle(db: Db, i: nat, a: Address, key: Bytes, value: Bytes)
    requires Idle(db) && Reserved(db, i, RecordSize(key, value)) && |key| <= NAME_MAX
    requires db.HasRecord(a) && db.RecordAt(a).crcOk
    ensures var r := CreateKv(MarkRecord(db, a, PreDelete), i, key, value);
            r.error == NoError && r.db.HasRecord(a) && !MarkRecord(r.db, a, Deleted).gcRequest
  {
    hide Settled, CountStore, UsedBytes, AppendRecord, SameRecordsExcept, OneMoreRecord;
    MarkKeepsSteady(db, a, PreDelete);
    AppendKeepsSteady(MarkRecord(db, a, PreDelete), i, Record(Written, true, key, value));
  }

  lemma PreparedMarked(db: Db, a: Address)
    requires db.HasRecord(a) && Marked(db)
    ensures MarkedBut(MarkRecord(db, a, PreDelete), a.sector)
  {
  }

  lemma LongNameMarked(db: Db, i: nat, key: Bytes, value: Bytes)
    requires Idle(db) && i < |db.secs| && |key| > NAME_MAX
    ensures Replace(db, i, Find(db, key), key, value).db == db
  {
    hide Find, Collect;
  }

  lemma SetMarked(db: Db, key: Bytes, value: Bytes)
    requires Idle(db) && Marked(db)
    ensures Marked(SetKv(db, key, value).db)
  {
    assert db.oldest < |db.secs|;
    hide NewKv, Marked, Idle, Sound, Replace, Find, LiveOf, CanHold, CountStore;
    var size := RecordSize(key, value);
    NewKvMarked(db, size);
    NewKvLosesNothing(db, size);
    var alloc := NewKv(db, size);
    if alloc.sector.Some? {
      if |key| > NAME_MAX {
        LongNameMarked(alloc.db, alloc.sector.value, key, value);
      } else {
        ReplaceMarked(alloc.db, alloc.sector.value, Find(alloc.db, key), key, value);
      }
    }
  }

  lemma StepMarked(s: State, op: Operation)
    requires Idle(s.db) && Marked(s.db)
    ensures Marked(Step(s, op).db)
  {
    assert s.db.oldest < |s.db.secs|;
    hide Marked, Idle, Sound, SetKv, Find, MarkRecord;
    match op
    case Set(k, v) => SetMarked(s.db, k, v);
    case Delete(k) =>
      match Find(s.db, k) {
        case None =>
        case Some(a) => DeletedMarked(s.db, a);
      }
    case Get(k) =>
  }

  /** After any run of operations on a formatted database, the sectors with a deleted record are exactly the dirty
      ones, those that a collection looks at. */
  lemma {:induction false} RunMarked(secSize: nat, secNum: nat, ops: seq<Operation>)
    requires secSize >= SECTOR_HDR_SIZE && secNum >= 2
    ensures var db := Run(State(Formatted(secSize, secNum), map[]), ops).db; Idle(db) && Marked(db)
    decreases |ops|
  {
    hide LiveOf, Represents, Step, Idle;
    var s0 := State(Formatted(secSize, secNum), map[]);
    RunRefines(secSize, secNum, ops, []);
    if ops != [] {
      RunRefines(secSize, secNum, ops[..|ops| - 1], []);
      RunMarked(secSize, secNum, ops[..|ops| - 1]);
      StepMarked(Run(s0, ops[..|ops| - 1]), ops[|ops| - 1]);
    }
  }

  /** A collection that is asked for with one empty sector left frees space whenever there is garbage anywhere. */
  lemma GarbageIsFreed(db: Db, wanted: nat, a: Address)
    requires Sound(db) && db.gcRequest && Marked(db) && CountStore(db.secs, Empty) == 1
    requires db.HasRecord(a) && !db.RecordAt(a).Movable()
    ensures TotalUsed(Collect(db, wanted).db.secs) < TotalUsed(db.secs)
  {
    assert db.oldest < |db.secs| && MarkedSector(db.secs[a.sector]);
    hide Sound, CountStore, Collect, CollectAll, TotalUsed, Place, Enough;
    var order := DirtyFrom(db, db.oldest, 0);
    DirtyIsThere(db, db.oldest, 0, a.sector);
    var n := CollectFrees(db, wanted);
    assert order[..n][0] == order[0];
    assert db.secs[order[0]].dirty != Clean;
    SomeGarbage(db, order[0]);
  }

  lemma SomeGarbage(db: Db, x: nat)
    requires Sound(db) && Marked(db) && x < |db.secs| && db.secs[x].dirty != Clean
    ensures Garbage(db.secs[x].recs, 0) > 0
  {
    hide CountStore, UsedBytes, Settled;
    assert MarkedSector(db.secs[x]) && SectorSound(db.secSize, db.secs[x]);
    var j :| 0 <= j < |db.secs[x].recs| && !db.secs[x].recs[j].Movable();
    GarbageFrom(db.secs[x].recs, 0, j);
  }

  lemma {:induction false} GarbageFrom(recs: seq<Record>, k: nat, j: nat)
    requires k <= j < |recs| && !recs[j].Movable() && RecordSound(recs[j])
    ensures Garbage(recs, k) > 0
    decreases j - k
  {
    if k < j {
      GarbageFrom(recs, k + 1, j);
    }
  }

  /** With no dirty sector a set reports full flash exactly if there is no room: a collection would find nothing. */
  lemma NothingToCollect(db: Db, key: Bytes, value: Bytes)
    requires Idle(db) && DirtyFrom(db, db.oldest, 0) == []
    ensures SetKv(db, key, value).error == SavedFull <==> !HasRoom(db, RecordSize(key, value))
  {
    assert db.oldest < |db.secs|;
    hide Idle, Sound, CountStore, Collect, CollectAll, SetKv, LiveOf, TotalUsed, GarbageOf, Enough, HasRoom;
    var size, d := RecordSize(key, value), db.(gcRequest := true);
    SetReportsFullExactly(db, key, value);
    SameDirty(db, d, db.oldest, 0);
    SoundRequest(db);
    if !HasRoom(db, size) && CountStore(db.secs, Empty) == 1 {
      var n := CollectFrees(d, size);
      CollectLosesNothing(d, size);
      IdleAsks(Collect(d, size).db);
      IdleAsks(db);
      CollectNone(d);
      assert Collect(d, size).db == db;
    }
  }

  /** Two sectors of 4096 bytes, "a" with 3900 bytes set and deleted: "b" with 100 bytes can be set. */
  lemma DeletedSpaceIsUsed(a: Bytes, b: Bytes)
    requires |a| == 3900 && |b| == 100
    ensures var db := Db(4096, [Sector(Using, Dirty, [Record(Deleted, true, [97], a)]), EMPTY_SECTOR], 0, false, false);
            Idle(db) && !HasRoom(db, RecordSize([98], b)) && SetKv(db, [98], b).error == NoError
  {
    var r := Record(Deleted, true, [97], a);
    var db := Db(4096, [Sector(Using, Dirty, [r]), EMPTY_SECTOR], 0, false, false);
    assert UsedBytes([r]) == r.Len();
    assert db.secs[..1] == [db.secs[0]] && db.secs[..0] == [];
    assert CountStore(db.secs[..1], Empty) == 0;
    assert CountStore(db.secs, Empty) == 1;
    assert db.SectorAt(0) == 0;
    assert DirtyFrom(db, 0, 0)[0] == 0;
    assert Moving([r], 0) == 0 + Moving([r], 1);
    assert FitsBesideMoved(db, 0, RecordSize([98], b));
    hide SetKv;
    SetSucceeds(db, [98], b);
  }
}
