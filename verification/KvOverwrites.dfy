/** What a set does when the address it writes to comes from a walk of the sector, as after a start: if the walk
    falls short, the new record is written over the end of the last one. */
module KvOverwrites {
  import opened KvStore
  import opened KvCollect
  import opened KvRefinement
  import opened KvCrash
  import opened KvEvery
  import opened KvStrays
  import opened KvWalks
  import opened Wrappers

  /** The last record of a sector has lost its last bytes, and its checksum with them. */
  function Overwritten(db: Db, i: nat): Db
    requires i < |db.secs| && db.secs[i].recs != []
  {
    var recs, n := db.secs[i].recs, |db.secs[i].recs| - 1;
    db.SetSector(i, db.secs[i].(recs := recs[n := recs[n].(crcOk := false)]))
  }

  function AppendByWalk(db: Db, i: nat, r: Record): Db
    requires i < |db.secs|
  {
    if WalkShort(db.secs[i].recs) == 0 then AppendRecord(db, i, r) else AppendRecord(Overwritten(db, i), i, r)
  }

  lemma AppendByWalkKeeps(db: Db, i: nat, r: Record, a: Address)
    requires i < |db.secs| && db.HasRecord(a)
    ensures AppendByWalk(db, i, r).HasRecord(a)
    ensures AppendByWalk(db, i, r).RecordAt(a).status == db.RecordAt(a).status
    ensures |AppendByWalk(db, i, r).secs| == |db.secs| && AppendByWalk(db, i, r).oldest == db.oldest
  {
  }

  lemma PreparedShape(db: Db, old_: Option<Address>)
    requires old_.Some? ==> db.HasRecord(old_.value)
    ensures OldRecordAfter(db, old_, 2).oldest == db.oldest && |OldRecordAfter(db, old_, 2).secs| == |db.secs|
  {
  }

  /** A set into sector `i`, whose empty address comes from a walk. */
  function SetByWalk(db: Db, i: nat, key: Bytes, value: Bytes): (r: Db)
    requires db.oldest < |db.secs| && i < |db.secs|
    ensures |r.secs| == |db.secs| && r.oldest == db.oldest
  {
    var old_ := Find(db, key);
    PreparedShape(db, old_);
    var prepared := OldRecordAfter(db, old_, 2);
    var written := AppendByWalk(prepared, i, Record(Written, true, key, value));
    if old_.None? then written
    else
      AppendByWalkKeeps(prepared, i, Record(Written, true, key, value), old_.value);
      MarkRecord(written, old_.value, Deleted)
  }

  /** With a walk that does not fall short this is the set. */
  lemma RightWalkIsSet(db: Db, i: nat, key: Bytes, value: Bytes)
    requires Idle(db) && Reserved(db, i, RecordSize(key, value)) && |key| < NAME_MAX
    requires WalkShort(db.secs[i].recs) == 0
    ensures SetByWalk(db, i, key, value) == Replace(db, i, Find(db, key), key, value).db
  {
    var old_ := Find(db, key);
    var l := Loss(SET_WRITES, 0, true);
    SameWalkPrepared(db, i, key);
    if old_.Some? {
      FoundIsIntact(db, key);
    }
    hide Idle, Find, WalkShort, CountStore, UsedBytes, MarkRecord, AppendRecord, Reserved, Replace, SectorSound;
    AllWritesAreTheSet(db, i, old_, key, value, l);
  }

  lemma FoundIsIntact(db: Db, key: Bytes)
    requires db.oldest < |db.secs| && Find(db, key).Some?
    ensures var r := db.RecordAt(Find(db, key).value);
            r.crcOk && r.status == Written && r.name == key && |key| < NAME_MAX
  {
  }

  /** Walks do not look at how far a record's status has come. */
  lemma {:induction false} StrayTotalUpdate(recs: seq<Record>, j: nat, status: KvStatus)
    requires j < |recs| && !recs[j].Stray() && status != Unused
    ensures StrayTotal(recs[j := recs[j].(status := status)]) == StrayTotal(recs)
  {
    var n := |recs| - 1;
    if j == n {
      assert recs[j := recs[j].(status := status)][..n] == recs[..n];
    } else {
      assert recs[j := recs[j].(status := status)][..n] == recs[..n][j := recs[j].(status := status)];
      StrayTotalUpdate(recs[..n], j, status);
    }
  }

  lemma SameWalk(db: Db, i: nat, a: Address, status: KvStatus)
    requires db.HasRecord(a) && i < |db.secs| && !db.RecordAt(a).Stray() && status != Unused
    ensures WalkShort(MarkRecord(db, a, status).secs[i].recs) == WalkShort(db.secs[i].recs)
  {
    if i == a.sector {
      StrayTotalUpdate(db.secs[i].recs, a.pos, status);
    }
  }

  // ---- Exactly when a live record is lost ----

  /** The walk of the sector falls short, and its last record is live and not the one being replaced. */
  predicate Spoils(db: Db, i: nat, key: Bytes)
    requires i < |db.secs|
  {
    && WalkShort(db.secs[i].recs) > 0
    && var r := db.secs[i].recs[|db.secs[i].recs| - 1];
       r.crcOk && r.status == Written && |r.name| < NAME_MAX && r.name != key
  }

  lemma OverwriteLive(db: Db, i: nat)
    requires i < |db.secs| && db.secs[i].recs != []
    ensures var r := db.secs[i].recs[|db.secs[i].recs| - 1];
            Live(r) <= LiveOf(db.secs) && LiveOf(Overwritten(db, i).secs) == LiveOf(db.secs) - Live(r)
  {
    hide LiveOf, LiveIn;
    var recs, n := db.secs[i].recs, |db.secs[i].recs| - 1;
    LiveInUpdate(recs, n, recs[n].(crcOk := false));
    LiveOfUpdate(db.secs, i, Overwritten(db, i).secs[i]);
    TakeFromPart(LiveOf(db.secs), LiveIn(recs), Live(recs[n]));
  }

  /** The pair, if any, that is overwritten with the end of a sector. */
  function LostEnd(recs: seq<Record>): multiset<Pair> {
    if WalkShort(recs) > 0 && recs != [] then Live(recs[|recs| - 1]) else multiset{}
  }

  lemma AppendByWalkLive(db: Db, i: nat, r: Record)
    requires i < |db.secs| && r.crcOk && r.status == Written
    ensures LostEnd(db.secs[i].recs) <= LiveOf(db.secs)
    ensures LiveOf(AppendByWalk(db, i, r).secs)
         == LiveOf(db.secs) - LostEnd(db.secs[i].recs) + multiset{(r.name, r.value)}
  {
    hide LiveOf, LiveIn, WalkShort, AppendRecord, Overwritten, Live;
    WrittenIsLive(r);
    if WalkShort(db.secs[i].recs) == 0 {
      AppendLive(db, i, r);
    } else {
      ShortIsNotEmpty(db.secs[i].recs);
      OverwriteLive(db, i);
      OverwrittenShape(db, i);
      AppendLive(Overwritten(db, i), i, r);
    }
  }

  lemma ShortIsNotEmpty(recs: seq<Record>)
    requires WalkShort(recs) > 0
    ensures recs != [] && !recs[|recs| - 1].Stray()
  {
  }

  lemma OverwrittenShape(db: Db, i: nat)
    requires i < |db.secs| && db.secs[i].recs != []
    ensures |Overwritten(db, i).secs| == |db.secs|
  {
  }

  /** Losing a pair of the map on the way to another key is noticed. */
  lemma LossBreaksMap(live: multiset<Pair>, m: map<Bytes, Bytes>, lost: Pair, key: Bytes, value: Bytes)
    requires Represents(live, m) && live[lost] > 0 && lost.0 != key && |lost.0| < NAME_MAX && |key| < NAME_MAX
    ensures !Represents(live - multiset{lost} + multiset{(key, value)}, m[key := value])
  {
    var live', m' := live - multiset{lost} + multiset{(key, value)}, m[key := value];
    assert live[(lost.0, lost.1)] == if lost.0 in m && m[lost.0] == lost.1 then 1 else 0;
    assert live'[(lost.0, lost.1)] == 0 && lost.0 in m' && m'[lost.0] == lost.1;
  }

  lemma LongNameIsNoLoss(live: multiset<Pair>, m: map<Bytes, Bytes>, lost: multiset<Pair>)
    requires Represents(live, m) && lost <= live && forall p :: p in lost ==> |p.0| >= NAME_MAX
    ensures Represents(live - lost, m)
  {
    forall k, v | |k| < NAME_MAX ensures (live - lost)[(k, v)] == if k in m && m[k] == v then 1 else 0 {
      assert (k, v) !in lost;
      assert live[(k, v)] == if k in m && m[k] == v then 1 else 0;
    }
  }

  /** A key is on flash only once, so its live record is the one that is found. */
  lemma KeyIsFound(db: Db, a: Address, key: Bytes, m: map<Bytes, Bytes>)
    requires Idle(db) && Represents(LiveOf(db.secs), m) && db.HasRecord(a) && db.RecordAt(a).Matches(key)
    ensures Find(db, key) == Some(a)
  {
    RepresentedNamesAreUnique(db, m, key);
    MatchIsLive(db, a, key);
    FoundPair(db, key, m);
    hide LiveOf, Represents;
  }

  /** Preparing another record leaves this one as it is. */
  lemma OtherRecordPrepared(db: Db, old_: Option<Address>, a: Address)
    requires db.HasRecord(a) && (old_.Some? ==> db.HasRecord(old_.value))
    ensures var p := OldRecordAfter(db, old_, 2);
            && p.HasRecord(a)
            && p.RecordAt(a) == if old_ == Some(a) then db.RecordAt(a).(status := PreDelete) else db.RecordAt(a)
  {
  }

  lemma FoundExactly(db: Db, a: Address, key: Bytes, m: map<Bytes, Bytes>)
    requires Idle(db) && Represents(LiveOf(db.secs), m) && |key| < NAME_MAX && db.HasRecord(a)
    ensures db.oldest < |db.secs|
    ensures Find(db, key) == Some(a) <==> db.RecordAt(a).Matches(key)
  {
    if db.RecordAt(a).Matches(key) {
      KeyIsFound(db, a, key, m);
    }
  }

  lemma LiveEnd(r: Record, key: Bytes)
    requires |key| < NAME_MAX
    ensures Live(if r.Matches(key) then r.(status := PreDelete) else r) == if r.name == key then multiset{} else Live(r)
  {
  }

  /** The end of the sector as the set prepares it: the last record is live still exactly if it is not the one
      being replaced. */
  lemma PreparedEnd(db: Db, i: nat, key: Bytes, m: map<Bytes, Bytes>)
    requires Idle(db) && Represents(LiveOf(db.secs), m) && |key| < NAME_MAX
    requires i < |db.secs| && db.secs[i].recs != []
    ensures db.oldest < |db.secs|
    ensures var p := OldRecordAfter(db, Find(db, key), 2);
            var recs, recs' := db.secs[i].recs, p.secs[i].recs;
            && |recs'| == |recs|
            && Live(recs'[|recs| - 1]) ==
               if recs[|recs| - 1].name == key then multiset{} else Live(recs[|recs| - 1])
  {
    hide LiveOf, Represents, Idle, Find, OldRecordAfter, Live;
    var a := Address(i, |db.secs[i].recs| - 1);
    FoundExactly(db, a, key, m);
    LiveEnd(db.RecordAt(a), key);
    OldRecordCount(db, Find(db, key), 2);
    OtherRecordPrepared(db, Find(db, key), a);
  }

  /** The pair, if any, that a set of `key` loses by overwriting the end of a sector. */
  function LostBySet(recs: seq<Record>, key: Bytes): multiset<Pair> {
    if recs != [] && recs[|recs| - 1].name == key then multiset{} else LostEnd(recs)
  }

  lemma PreparedLost(db: Db, i: nat, key: Bytes, m: map<Bytes, Bytes>)
    requires Idle(db) && Represents(LiveOf(db.secs), m) && |key| < NAME_MAX && i < |db.secs|
    ensures db.oldest < |db.secs|
    ensures var p := OldRecordAfter(db, Find(db, key), 2);
            i < |p.secs| && LostEnd(p.secs[i].recs) == LostBySet(db.secs[i].recs, key)
  {
    hide LiveOf, Represents, Find, WalkShort, Live, OldRecordAfter;
    SameWalkPrepared(db, i, key);
    OldRecordCount(db, Find(db, key), 2);
    if db.secs[i].recs != [] {
      PreparedEnd(db, i, key, m);
    }
  }

  /** The live records after a set whose address comes from a walk. */
  lemma SetByWalkLive(db: Db, i: nat, key: Bytes, value: Bytes, m: map<Bytes, Bytes>)
    requires Idle(db) && Represents(LiveOf(db.secs), m) && |key| < NAME_MAX && i < |db.secs|
    ensures db.oldest < |db.secs|
    ensures var live, lost := LiveOf(OldRecordAfter(db, Find(db, key), 2).secs), LostBySet(db.secs[i].recs, key);
            lost <= live && LiveOf(SetByWalk(db, i, key, value).secs) == live - lost + multiset{(key, value)}
  {
    hide LiveOf, Represents, Find, AppendByWalk, SetByWalk, OldRecordAfter, LostBySet, LostEnd;
    PreparedLost(db, i, key, m);
    SetByWalkDeletes(db, i, key, value);
    AppendByWalkLive(OldRecordAfter(db, Find(db, key), 2), i, Record(Written, true, key, value));
  }

  lemma SameWalkPrepared(db: Db, i: nat, key: Bytes)
    requires db.oldest < |db.secs| && i < |db.secs|
    ensures var p := OldRecordAfter(db, Find(db, key), 2);
            && i < |p.secs| && WalkShort(p.secs[i].recs) == WalkShort(db.secs[i].recs)
            && (WalkShort(db.secs[i].recs) > 0 ==> db.secs[i].recs != [])
  {
    if Find(db, key).Some? {
      FoundIsIntact(db, key);
      SameWalk(db, i, Find(db, key).value, PreDelete);
    }
  }

  lemma SetByWalkDeletes(db: Db, i: nat, key: Bytes, value: Bytes)
    requires db.oldest < |db.secs| && i < |db.secs|
    ensures var p := OldRecordAfter(db, Find(db, key), 2);
            && i < |p.secs|
            && LiveOf(SetByWalk(db, i, key, value).secs)
            == LiveOf(AppendByWalk(p, i, Record(Written, true, key, value)).secs)
  {
    var old_, r := Find(db, key), Record(Written, true, key, value);
    var p := OldRecordAfter(db, old_, 2);
    if old_.Some? {
      OtherRecordPrepared(db, old_, old_.value);
      hide LiveOf, Find, OldRecordAfter, AppendByWalk, MarkRecord;
      AppendByWalkKeeps(p, i, r, old_.value);
      DeletedWasNotLive(AppendByWalk(p, i, r), old_.value);
    }
  }

  lemma DeletedWasNotLive(db: Db, a: Address)
    requires db.HasRecord(a) && db.RecordAt(a).status == PreDelete
    ensures LiveOf(MarkRecord(db, a, Deleted).secs) == LiveOf(db.secs)
  {
    hide LiveOf;
    MarkLive(db, a, Deleted);
    NotWrittenIsNotLive(db.RecordAt(a));
  }

  /** A set whose address comes from a walk keeps the map exactly when it does not spoil a live record. */
  lemma SetByWalkExactly(db: Db, i: nat, key: Bytes, value: Bytes, m: map<Bytes, Bytes>)
    requires Idle(db) && Represents(LiveOf(db.secs), m) && |key| < NAME_MAX && i < |db.secs|
    ensures db.oldest < |db.secs|
    ensures Represents(LiveOf(SetByWalk(db, i, key, value).secs), m[key := value]) <==> !Spoils(db, i, key)
  {
    hide LiveOf, Represents, Find, OldRecordAfter, WalkShort, SetByWalk, Live, LostBySet;
    SetByWalkLive(db, i, key, value, m);
    BaseHolds(db, i, key, 2, m);
    SetByWalkMap(LiveOf(OldRecordAfter(db, Find(db, key), 2).secs), m, db.secs[i].recs, key, value);
  }

  lemma SetByWalkMap(live: multiset<Pair>, m: map<Bytes, Bytes>, recs: seq<Record>, key: Bytes, value: Bytes)
    requires Represents(live, m - {key}) && |key| < NAME_MAX && LostBySet(recs, key) <= live
    ensures WalkShort(recs) > 0 ==> recs != []
    ensures Represents(live - LostBySet(recs, key) + multiset{(key, value)}, m[key := value]) <==>
            !(WalkShort(recs) > 0 && var r := recs[|recs| - 1];
              r.crcOk && r.status == Written && |r.name| < NAME_MAX && r.name != key)
  {
    hide Represents, WalkShort;
    if WalkShort(recs) > 0 {
      ShortIsNotEmpty(recs);
    }
    var lost := LostBySet(recs, key);
    assert (m - {key})[key := value] == m[key := value];
    if lost != multiset{} && |recs[|recs| - 1].name| < NAME_MAX {
      LossBreaksMap(live, m - {key}, (recs[|recs| - 1].name, recs[|recs| - 1].value), key, value);
    } else {
      LongNameIsNoLoss(live, m - {key}, lost);
      RepresentsAdd(live - lost, m, key, value);
    }
  }

  lemma LostIsGone(live: multiset<Pair>, m: map<Bytes, Bytes>, lost: Pair, key: Bytes, value: Bytes, v: Bytes)
    requires Represents(live, m) && live[lost] > 0 && |lost.0| < NAME_MAX && lost.0 != key
    ensures (live - multiset{lost} + multiset{(key, value)})[(lost.0, v)] == 0
  {
    assert live[(lost.0, lost.1)] == if lost.0 in m && m[lost.0] == lost.1 then 1 else 0;
    assert live[(lost.0, v)] == if lost.0 in m && m[lost.0] == v then 1 else 0;
  }

  /** The key of a spoiled record is found no more. */
  lemma SpoiledIsLost(db: Db, i: nat, key: Bytes, value: Bytes, m: map<Bytes, Bytes>)
    requires Idle(db) && Represents(LiveOf(db.secs), m) && |key| < NAME_MAX && i < |db.secs| && Spoils(db, i, key)
    ensures db.oldest < |db.secs| && db.secs[i].recs != []
    ensures GetKv(SetByWalk(db, i, key, value), db.secs[i].recs[|db.secs[i].recs| - 1].name) == None
  {
    hide LiveOf, Represents, OldRecordAfter, WalkShort, SetByWalk;
    ShortIsNotEmpty(db.secs[i].recs);
    SetByWalkLive(db, i, key, value, m);
    BaseHolds(db, i, key, 2, m);
    var r := db.secs[i].recs[|db.secs[i].recs| - 1];
    var after := SetByWalk(db, i, key, value);
    var live := LiveOf(OldRecordAfter(db, Find(db, key), 2).secs);
    assert Live(r) == multiset{(r.name, r.value)} && LostBySet(db.secs[i].recs, key) == Live(r);
    if Find(after, r.name).Some? {
      var a := Find(after, r.name).value;
      MatchIsLive(after, a, r.name);
      LostIsGone(live, m - {key}, (r.name, r.value), key, value, after.RecordAt(a).value);
    }
  }
}
