/** Runs of the key-value database from erased flash, through its caches and its garbage collection; and the two
    families of names for which the caches change what is found. */
module KvDbRuns {
  import opened KvStore
  import opened KvCollect
  import opened KvRefinement
  import opened KvEvery
  import opened KvCaches
  import opened KvNames
  import opened KvDbs
  import opened StatusTable
  import opened RecordBytes
  import opened KvScans
  import opened KvFlashes
  import opened Wrappers

  lemma RunStep(s: KvRefinement.State, ops: seq<Operation>, i: nat)
    requires s.db.oldest < |s.db.secs| && i < |ops|
    ensures Run(s, ops[..i + 1]) == Step(Run(s, ops[..i]), ops[i])
  {
    assert ops[..i + 1][..i] == ops[..i];
  }

  lemma StepNames(s: KvRefinement.State, op: Operation, names: set<Bytes>)
    requires s.db.oldest < |s.db.secs| && s.entries.Keys <= names && op.key in names
    ensures Step(s, op).entries.Keys <= names
  {
    hide SetKv, DelKv;
  }

  lemma FormattedIsShort(secSize: nat, secNum: nat)
    ensures ShortNames(Formatted(secSize, secNum))
  {
  }

  lemma StepStaysShort(s: KvRefinement.State, op: Operation)
    requires ShortNames(s.db) && s.db.oldest < |s.db.secs| && (op.Set? ==> |op.key| != NAME_MAX)
    ensures ShortNames(Step(s, op).db)
  {
    hide Step, Every, Stable;
    ShortIsStable();
    StepKeepsEvery(s, op, IsShort);
  }

  /** What is known of the map, if no two names can be mistaken for each other. */
  ghost predicate Follows(db: Db, s: KvRefinement.State, names: set<Bytes>) {
    && db == s.db && Represents(LiveOf(db.secs), s.entries) && s.entries.Keys <= names && ShortNames(db)
  }

  lemma FollowsIsFaithful(db: KvDb, s: KvRefinement.State, names: set<Bytes>, key: Bytes)
    requires AllApart(names) && key in names && Follows(db.State(), s, names)
    ensures db.Faithful(s.entries, key) && (|key| != NAME_MAX || Every(db.State(), OtherName(key)))
  {
    hide Represents, LiveOf, Unmistakable, AllApart, Every;
    ApartIsUnmistakable(names, s.entries, key);
    ShortIsApart(db.State(), key);
    if |key| == NAME_MAX {
      ShortIsOther(db.State(), key);
    }
  }

  lemma StaysFaithful(db: Db, s: KvRefinement.State, op: Operation, names: set<Bytes>)
    requires s.db.oldest < |s.db.secs| && Follows(s.db, s, names) && op.key in names
    requires op.Set? ==> |op.key| != NAME_MAX
    requires db == Step(s, op).db && Represents(LiveOf(db.secs), Step(s, op).entries)
    ensures Follows(db, Step(s, op), names)
  {
    hide Represents, LiveOf, Step, Every;
    StepNames(s, op, names);
    StepStaysShort(s, op);
  }

  /** One operation on the database. */
  method Apply(db: KvDb, op: Operation, ghost s: KvRefinement.State, ghost names: set<Bytes>)
    returns (value: Option<Bytes>)
    requires db.Valid() && (forall c :: db.Safe(c)) && (op.Set? ==> |op.key| != NAME_MAX)
    modifies db`secs, db`oldest, db`gcRequest, db`lastIsCompleteDel, db`tainted
    modifies db.kvCache.nodes, db.sectorCache.infos, db.flash.sectors
    ensures db.Valid() && forall c :: db.Safe(c)
    ensures AllApart(names) && op.key in names && old(Follows(db.State(), s, names)) ==>
              && s.db.oldest < |s.db.secs| && Follows(db.State(), Step(s, op), names)
              && (op.Get? ==> value == if op.key in s.entries then Some(s.entries[op.key]) else None)
  {
    hide KvDb.Valid, Follows, SetKv, DelKv, AllApart, KvDb.Safe, KvDb.Faithful, Every, MapAfterSet, KvDb.Remembers;
    db.IsShaped(op.key);
    ghost var follows := AllApart(names) && op.key in names && Follows(db.State(), s, names);
    if follows {
      FollowsIsFaithful(db, s, names, op.key);
      SameState(db.State(), s, names);
    }
    value := None;
    match op {
      case Set(key, v) =>
        ShortTaint(key);
        var error := db.Set(key, v, s.entries);
      case Delete(key) =>
        var error := db.Delete(key, s.entries);
      case Get(key) =>
        value := db.Get(key, s.entries);
    }
    if follows {
      StaysFaithful(db.State(), s, op, names);
    }
  }

  lemma SameState(db: Db, s: KvRefinement.State, names: set<Bytes>)
    requires Follows(db, s, names)
    ensures db == s.db && Represents(LiveOf(db.secs), s.entries)
  {
  }

  lemma ShortTaint(key: Bytes)
    requires |key| != NAME_MAX
    ensures Taint(key) == {}
  {
  }

  /** Run operations on a new database. Whatever the keys, the bytes of every sector hold its header and its
      records, one behind the other, and the caches agree with them. And if no two keys can be mistaken for each
      other, every get returns what the map after the operations before it has. */
  method Replay(medium: Medium, secSize: nat, secNum: nat, ops: seq<Operation>, ghost names: set<Bytes>)
    returns (db: KvDb, values: seq<Option<Bytes>>)
    requires SECTOR_HDR_SIZE <= secSize < SECTOR_LIMIT && secNum >= 2
    requires forall op :: op in ops && op.Set? ==> |op.key| != NAME_MAX
    ensures db.Valid() && |values| == |ops|
    ensures |db.flash.sectors| == |db.secs| == secNum
    ensures forall i :: 0 <= i < secNum ==>
              && db.flash.sectors[i].Length == secSize && HoldsSector(db.flash.sectors[i][..], db.secs[i])
              && Whole(db.secs[i].recs)
    ensures AllApart(names) && (forall op :: op in ops ==> op.key in names) ==>
              var s := KvRefinement.State(Formatted(secSize, secNum), map[]);
              && db.State() == Run(s, ops).db && Represents(LiveOf(db.secs), Run(s, ops).entries)
              && forall i :: 0 <= i < |ops| && ops[i].Get? ==>
                   var m := Run(s, ops[..i]).entries;
                   values[i] == if ops[i].key in m then Some(m[ops[i].key]) else None
  {
    hide KvDb.Valid, Represents, LiveOf, Run, Step, AllApart, KvDb.Safe, Follows, HoldsSector, Formatted;
    ghost var s0 := KvRefinement.State(Formatted(secSize, secNum), map[]);
    db := new KvDb(medium, secSize, secNum);
    values := [];
    StartOfRun(db, secSize, secNum, names);
    ghost var apart := AllApart(names) && forall op :: op in ops ==> op.key in names;
    for i := 0 to |ops|
      invariant fresh(db) && fresh(db.kvCache.nodes) && fresh(db.sectorCache.infos) && fresh(db.flash.sectors)
      invariant db.Valid() && (forall c :: db.Safe(c)) && |values| == i
      invariant |db.flash.sectors| == secNum && db.flash.secSize == secSize
      invariant apart ==> Follows(db.State(), Run(s0, ops[..i]), names)
      invariant apart ==> forall j :: 0 <= j < i && ops[j].Get? ==>
                  var m := Run(s0, ops[..j]).entries;
                  values[j] == if ops[j].key in m then Some(m[ops[j].key]) else None
    {
      RunStep(s0, ops, i);
      var value := Apply(db, ops[i], Run(s0, ops[..i]), names);
      values := values + [value];
    }
    assert ops[..|ops|] == ops;
    if apart {
      SameState(db.State(), Run(s0, ops), names);
    }
    db.SectorsHold();
  }

  lemma StartOfRun(db: KvDb, secSize: nat, secNum: nat, names: set<Bytes>)
    requires secSize >= SECTOR_HDR_SIZE && secNum >= 2 && db.Valid()
    requires db.State() == Formatted(secSize, secNum) && db.tainted == {}
    ensures var s := KvRefinement.State(Formatted(secSize, secNum), map[]);
            s.db.oldest < |s.db.secs| && Follows(db.State(), s, names) && Run(s, []) == s
    ensures forall c :: db.Safe(c)
    ensures |db.flash.sectors| == secNum && db.flash.secSize == secSize
  {
    hide Represents, LiveOf, Idle, KvFlash.HoldsAll, AllAgree, NameCrc, PointsExcept, KvCache.Valid;
    FormattedIsIdle(secSize, secNum);
    FormattedIsShort(secSize, secNum);
    forall c ensures db.Safe(c) {
      ShortSpares(Db(0, db.secs, 0, false, false), c);
    }
  }

  // ---- The first set on formatted flash ----

  lemma {:induction false} NoneInUse(n: nat)
    ensures CountStore(seq(n, _ => EMPTY_SECTOR), Using) == 0
  {
    if n > 0 {
      NoneInUse(n - 1);
      assert seq(n, _ => EMPTY_SECTOR)[..n - 1] == seq(n - 1, _ => EMPTY_SECTOR);
    }
  }

  lemma FirstAlloc(secSize: nat, secNum: nat, size: nat)
    requires secNum >= 2 && SECTOR_HDR_SIZE + size + REMAIN_THRESHOLD < secSize
    ensures Alloc(Formatted(secSize, secNum), size).sector == Some(0)
  {
    hide CountStore;
    NoneInUse(secNum);
    FormattedCounts(secNum);
    var db := Formatted(secSize, secNum);
    assert db.SectorAt(0) == 0 && CanHold(db, 0, size);
    assert FirstFit(db, Empty, size, 0) == Some(0);
  }

  /** It succeeds if the sector has room, and the search on flash finds it exactly when the name is shorter than
      the maximal length. */
  lemma FirstSet(secSize: nat, secNum: nat, key: Bytes, value: Bytes)
    requires secNum >= 2 && SECTOR_HDR_SIZE + RecordSize(key, value) + REMAIN_THRESHOLD < secSize
    requires |key| <= NAME_MAX
    ensures var r := SetKv(Formatted(secSize, secNum), key, value);
            && r.error == NoError && r.db.oldest < |r.db.secs|
            && GetKv(r.db, key) == if |key| < NAME_MAX then Some(value) else None
  {
    hide Idle, LiveOf, Represents, Alloc, Find, Replace, CountStore;
    var db := Formatted(secSize, secNum);
    FormattedIsIdle(secSize, secNum);
    FirstAlloc(secSize, secNum, RecordSize(key, value));
    NewKvLosesNothing(db, RecordSize(key, value));
    var room := NewKv(db, RecordSize(key, value));
    SetInReservedRoom(room.db, room.sector.value, key, value, map[]);
    var r := SetKv(db, key, value);
    GetAfterRun(KvRefinement.State(r.db, MapAfterSet(map[], key, value, r.error)), key);
  }

  /** Sixty-four times the letter "a". */
  const LONG_KEY: Bytes := seq(NAME_MAX, _ => 0x61)

  /** A name of the maximal length is set, and the search on flash does not find it. */
  lemma LongKeyIsMissed(value: Bytes)
    requires |value| < 3800
    ensures var r := SetKv(Formatted(4096, 2), LONG_KEY, value);
            && |LONG_KEY| == NAME_MAX && r.error == NoError && r.db.oldest < |r.db.secs| && Find(r.db, LONG_KEY) == None
  {
    hide SetKv, Find;
    FirstSet(4096, 2, LONG_KEY, value);
    LongIsNotFound(SetKv(Formatted(4096, 2), LONG_KEY, value).db, LONG_KEY);
  }

  // ---- What the caches change ----

  /** Set one key on a new database. */
  method SetFirst(medium: Medium, secSize: nat, secNum: nat, key: Bytes, value: Bytes) returns (db: KvDb)
    requires secNum >= 2 && SECTOR_HDR_SIZE + RecordSize(key, value) + REMAIN_THRESHOLD < secSize < SECTOR_LIMIT
    requires |key| <= NAME_MAX
    ensures db.Valid() && fresh(db) && fresh(db.kvCache.nodes) && fresh(db.sectorCache.infos) && fresh(db.flash.sectors)
    ensures NameCrc(key) !in db.tainted && (forall c :: c !in Taint(key) ==> c !in db.tainted)
    ensures Represents(LiveOf(db.secs), if |key| < NAME_MAX then map[key := value] else map[])
    ensures exists a :: db.Remembers(key, value, a)
  {
    hide KvDb.Valid, Represents, LiveOf, SetKv, KvDb.Faithful, KvDb.Remembers, Follows, Every, RecordSize, Formatted,
      Taint, AllApart, NameCrc, Alloc;
    ghost var s := KvRefinement.State(Formatted(secSize, secNum), map[]);
    db := new KvDb(medium, secSize, secNum);
    StartOfRun(db, secSize, secNum, {key});
    AloneIsApart(key);
    FollowsIsFaithful(db, s, {key}, key);
    FirstSet(secSize, secNum, key, value);
    db.IsShaped(key);
    var error := db.Set(key, value, map[]);
    assert forall c :: c !in Taint(key) ==> db.Safe(c);
  }

  lemma AloneIsApart(key: Bytes)
    ensures AllApart({key})
  {
  }

  /** A name of the maximal length is found while the cache has it, though no search on flash finds it. */
  method LongNameInCache(medium: Medium, secSize: nat, secNum: nat, key: Bytes, value: Bytes)
    returns (db: KvDb, got: Option<Bytes>)
    requires secNum >= 2 && SECTOR_HDR_SIZE + RecordSize(key, value) + REMAIN_THRESHOLD < secSize < SECTOR_LIMIT
    requires |key| == NAME_MAX
    ensures db.Valid() && got == Some(value)
    ensures db.oldest < |db.secs| && Find(db.State(), key) == None
  {
    hide KvDb.Valid, Represents, LiveOf, KvDb.Faithful, KvDb.Remembers, Find, RecordSize, Taint, NameCrc;
    db := SetFirst(medium, secSize, secNum, key, value);
    got := db.Get(key, map[]);
    db.IsShaped(key);
    LongIsNotFound(db.State(), key);
  }

  /** Set "lednw" on a new database and look for "led": the cache answers with the record of "lednw", though no
      record on flash matches "led". */
  method MistakenKey(medium: Medium, secSize: nat, secNum: nat, value: Bytes)
    returns (db: KvDb, r: Option<Address>)
    requires secNum >= 2 && SECTOR_HDR_SIZE + RecordSize(LONGER_NAME, value) + REMAIN_THRESHOLD < secSize < SECTOR_LIMIT
    ensures db.oldest < |db.secs| && Find(db.State(), SHORTER_NAME) == None
    ensures r.Some? && db.State().HasRecord(r.value)
    ensures db.State().RecordAt(r.value) == Record(Written, true, LONGER_NAME, value)
  {
    hide KvDb.Faithful, Represents, LiveOf, Find, RecordSize, NameCrc, KvDb.SectorsCached, KvDb.NamesCached, Idle,
      KvDb.Hits, KvDb.OnFlash, AllApart;
    NamesCanBeMistaken();
    db := SetFirst(medium, secSize, secNum, LONGER_NAME, value);
    db.IsShaped(SHORTER_NAME);
    IdleIsSteady(db.State());
    FindRefines(db.State(), SHORTER_NAME, map[LONGER_NAME := value]);
    ghost var a :| db.Remembers(LONGER_NAME, value, a);
    HitsBeginning(db, LONGER_NAME, value, a, SHORTER_NAME);
    r := db.FindKv(SHORTER_NAME);
  }

  /** A remembered record is hit by the beginning of its name, if that has its checksum. */
  lemma HitsBeginning(db: KvDb, name: Bytes, value: Bytes, a: Address, key: Bytes)
    requires db.Valid() && db.Remembers(name, value, a) && key <= name && NameCrc(key) == NameCrc(name)
    ensures db.OnFlash() && db.Hits(key, a)
  {
    hide Idle, NameCrc, Knows, AllAgree, PointsExcept, KvCache.Valid, HoldsSector, Start, StartsWithKey;
    db.SectorsHold();
    PassesCheck(db.flash.sectors[a.sector][..], db.secs[a.sector], a.pos, key);
  }
}
