/** What stray bytes do to the runs after them: exactly if a loss leaves some, there are later sets and restarts,
    without another loss, in which a key is lost. */
module KvStrayRuns {
  import opened KvStore
  import opened KvCollect
  import opened KvRefinement
  import opened KvCrash
  import opened KvEvery
  import opened KvStrays
  import opened KvWalks
  import opened KvOverwrites
  import opened KvLossExact
  import opened Wrappers

  // ---- Sets, each after a restart ----

  type Sets = seq<(Bytes, Bytes)>

  lemma BootShape(db: Db)
    requires |db.secs| > 0
    ensures Boot(db).oldest < |Boot(db).secs|
  {
    hide RecoverSectors, OldestSector;
  }

  /** A restart, and a set that finds room: its sector's empty address comes from a walk. */
  function Session(db: Db, key: Bytes, value: Bytes): (r: Db)
    requires |db.secs| > 0
    ensures |r.secs| > 0
  {
    BootShape(db);
    match Alloc(Boot(db), RecordSize(key, value)).sector
    case None => Boot(db)
    case Some(t) => SetByWalk(Boot(db), t, key, value)
  }

  function Sessions(db: Db, sets: Sets): (r: Db)
    requires |db.secs| > 0
    ensures |r.secs| > 0
    decreases |sets|
  {
    if sets == [] then db else Sessions(Session(db, sets[0].0, sets[0].1), sets[1..])
  }

  function Entries(m: map<Bytes, Bytes>, sets: Sets): map<Bytes, Bytes>
    decreases |sets|
  {
    if sets == [] then m else Entries(m[sets[0].0 := sets[0].1], sets[1..])
  }

  /** Every set finds room at once, so that nothing is collected. */
  predicate FindRoom(db: Db, sets: Sets)
    requires |db.secs| > 0
    decreases |sets|
  {
    sets != [] ==>
      && |sets[0].0| < NAME_MAX && Boot(db).oldest < |Boot(db).secs|
      && Alloc(Boot(db), RecordSize(sets[0].0, sets[0].1)).sector.Some?
      && FindRoom(Session(db, sets[0].0, sets[0].1), sets[1..])
  }

  /** After these sets some key that was set, or had a value before, is not found. */
  ghost predicate LoseAKey(db: Db, m: map<Bytes, Bytes>, sets: Sets)
    requires |db.secs| > 0
  {
    && FindRoom(db, sets)
    && var d := Sessions(db, sets);
       d.oldest < |d.secs| && exists k :: k in Entries(m, sets) && GetKv(d, k) == None
  }

  // ---- Restarts of an idle database ----

  lemma IdleBoot(db: Db)
    requires Idle(db)
    ensures |db.secs| > 0 && Idle(Boot(db)) && Boot(db).secs == db.secs && Boot(db).secSize == db.secSize
    ensures Boot(db).oldest == OldestSector(db.secs, 0, 0) < |db.secs|
  {
    IdleIsUnbroken(db);
    QuietBoot(db);
    BootIsStart(db);
    hide SectorSound, CountStore, OldestSector, Boot, Broken, Settled;
    UnbrokenIsIdle(Boot(db));
  }

  lemma BootIsStart(db: Db)
    requires Broken(db, None, None)
    ensures |db.secs| > 0 && Boot(db) == Started(db).(recovering := false)
  {
    BrokenAnyOldest(db, None, None);
    UnbrokenIsQuiet(Started(db));
    NothingPending(Started(db), 0);
    hide SectorSound, CountStore, OldestSector, RecoverSectors;
  }

  // ---- What a set does to the sectors when its walk is right ----

  /** One record more in sector `j`; of the others at most the status has changed, and only of those of that name. */
  ghost predicate OneMore(db: Db, d: Db, j: nat, r: Record) {
    && |d.secs| == |db.secs| && d.secSize == db.secSize && j < |db.secs|
    && forall t :: 0 <= t < |db.secs| ==>
         && d.secs[t].store == db.secs[t].store && d.Remain(t) == db.Remain(t) - (if t == j then r.Len() else 0)
         && |d.secs[t].recs| == |db.secs[t].recs| + (if t == j then 1 else 0)
         && (t == j ==> d.secs[t].recs[|db.secs[t].recs|] == r)
         && forall p :: 0 <= p < |db.secs[t].recs| ==> AsBefore(db.secs[t].recs[p], d.secs[t].recs[p], r.name)
  }

  predicate AsBefore(was: Record, now: Record, name: Bytes) {
    if was.name == name && !was.Stray() then now == was.(status := now.status) && !now.Stray() else now == was
  }

  lemma RightSet(s: Db, j: nat, key: Bytes, value: Bytes, m: map<Bytes, Bytes>)
    requires Idle(s) && Represents(LiveOf(s.secs), m) && |key| < NAME_MAX
    requires Reserved(s, j, RecordSize(key, value)) && s.secs[j].store == Using && WalkShort(s.secs[j].recs) == 0
    ensures s.oldest < |s.secs|
    ensures var d := SetByWalk(s, j, key, value);
            && Idle(d) && Represents(LiveOf(d.secs), m[key := value])
            && OneMore(s, d, j, Record(Written, true, key, value))
  {
    RightWalkIsSet(s, j, key, value);
    SetInReservedRoom(s, j, key, value, m);
    RightSetShape(s, j, key, value, m);
    hide Replace, SetByWalk, Idle, Represents, LiveOf, Reserved, WalkShort, OneMore;
  }

  lemma RightSetShape(s: Db, j: nat, key: Bytes, value: Bytes, m: map<Bytes, Bytes>)
    requires Idle(s) && Represents(LiveOf(s.secs), m) && |key| < NAME_MAX
    requires Reserved(s, j, RecordSize(key, value)) && s.secs[j].store == Using && WalkShort(s.secs[j].recs) == 0
    ensures s.oldest < |s.secs|
    ensures OneMore(s, SetByWalk(s, j, key, value), j, Record(Written, true, key, value))
  {
    var old_, r := Find(s, key), Record(Written, true, key, value);
    SameWalkPrepared(s, j, key);
    hide LiveOf, Represents, Find, WalkShort, CountStore, Settled, LiveIn, SectorSound, UsedBytes, OneMore;
    if old_.None? {
      AppendedMore(s, j, r);
    } else {
      FoundIsIntact(s, key);
      ReplacedMore(s, j, r, old_.value);
    }
  }

  lemma ReplacedMore(s: Db, j: nat, r: Record, x: Address)
    requires Steady(s) && RecordSound(r) && MayAppend(s, j, r.Len()) && s.secs[j].store == Using
    requires s.HasRecord(x) && s.RecordAt(x).crcOk && s.RecordAt(x).status == Written && s.RecordAt(x).name == r.name
    ensures var a := AppendRecord(MarkRecord(s, x, PreDelete), j, r);
            a.HasRecord(x) && OneMore(s, MarkRecord(a, x, Deleted), j, r)
  {
    hide CountStore, SectorSound, UsedBytes, OneMore, OneMarked;
    RecordIsSound(s, x);
    var p := MarkRecord(s, x, PreDelete);
    MarkKeepsSteady(s, x, PreDelete);
    MarkedSame(s, x, PreDelete);
    AppendKeepsSteady(p, j, r);
    AppendedMore(p, j, r);
    var a := AppendRecord(p, j, r);
    hide MarkRecord, AppendRecord;
    MarkKeepsSteady(a, x, Deleted);
    MarkedSame(a, x, Deleted);
    MarkedAround(s, p, a, MarkRecord(a, x, Deleted), j, r, x);
  }

  lemma RecordIsSound(s: Db, x: Address)
    requires Steady(s) && s.HasRecord(x)
    ensures RecordSound(s.RecordAt(x))
  {
    hide CountStore, UsedBytes;
    assert SectorSound(s.secSize, s.secs[x.sector]);
  }

  lemma AppendedMore(s: Db, j: nat, r: Record)
    requires Steady(s) && RecordSound(r) && MayAppend(s, j, r.Len()) && s.secs[j].store == Using
    ensures OneMore(s, AppendRecord(s, j, r), j, r)
  {
    hide UsedBytes, CountStore;
    AppendedSectorSound(s, j, r);
    UsedBytesAppend(s.secs[j].recs, r);
  }

  /** Only the status of one record has changed. */
  ghost predicate OneMarked(db: Db, d: Db, a: Address) {
    && |d.secs| == |db.secs| && d.secSize == db.secSize && db.HasRecord(a)
    && forall t :: 0 <= t < |db.secs| ==>
         && d.secs[t].store == db.secs[t].store && d.Remain(t) == db.Remain(t)
         && |d.secs[t].recs| == |db.secs[t].recs|
         && forall p :: 0 <= p < |db.secs[t].recs| ==>
              if Address(t, p) == a then
                && d.secs[t].recs[p] == db.secs[t].recs[p].(status := d.secs[t].recs[p].status)
                && !d.secs[t].recs[p].Stray()
              else d.secs[t].recs[p] == db.secs[t].recs[p]
  }

  lemma MarkedSame(db: Db, a: Address, status: KvStatus)
    requires Steady(db) && db.HasRecord(a) && RecordSound(db.RecordAt(a).(status := status))
    requires !db.RecordAt(a).Stray() && status != Unused
    ensures OneMarked(db, MarkRecord(db, a, status), a)
  {
    hide UsedBytes, CountStore, SectorSound, RecordSound;
    MarkKeepsSteady(db, a, status);
  }

  lemma MarkedAround(s: Db, p: Db, a: Db, d: Db, j: nat, r: Record, x: Address)
    requires OneMarked(s, p, x) && OneMore(p, a, j, r) && OneMarked(a, d, x)
    requires s.RecordAt(x).name == r.name && !s.RecordAt(x).Stray()
    requires p.RecordAt(x).status == PreDelete
    ensures OneMore(s, d, j, r)
  {
    hide UsedBytes, Db.Remain;
  }

  // ---- Without stray bytes ----

  lemma CleanSession(db: Db, m: map<Bytes, Bytes>, key: Bytes, value: Bytes)
    requires Idle(db) && NoStrays(db) && Represents(LiveOf(db.secs), m) && |db.secs| > 0 && |key| < NAME_MAX
    requires Boot(db).oldest < |Boot(db).secs| && Alloc(Boot(db), RecordSize(key, value)).sector.Some?
    ensures var d := Session(db, key, value);
            Idle(d) && NoStrays(d) && Represents(LiveOf(d.secs), m[key := value])
  {
    IdleBoot(db);
    var b := Boot(db);
    AllocReserves(b, RecordSize(key, value));
    SameSectorsKeepEvery(db, b, NotStray);
    var t := Alloc(b, RecordSize(key, value)).sector.value;
    NoStraysWalkRight(b, t);
    NotStrayIsStable();
    hide Idle, Boot, Represents, LiveOf, Alloc, Every, Reserved, Replace, SetByWalk, WalkShort, Stable, Find,
      RecordSize;
    RightWalkIsSet(b, t, key, value);
    SetInReservedRoom(b, t, key, value, m);
    FoundNoStray(b, key);
    ReplaceKeepsEvery(b, t, Find(b, key), key, value, NotStray);
  }

  lemma FoundNoStray(b: Db, key: Bytes)
    requires b.oldest < |b.secs|
    ensures Find(b, key).Some? ==> b.HasRecord(Find(b, key).value) && !b.RecordAt(Find(b, key).value).Stray()
  {
    if Find(b, key).Some? {
      FoundIsNoStray(b, key);
    }
  }

  /** Without stray bytes sets and restarts keep the map, and lose no key. */
  lemma {:induction false} CleanSessions(db: Db, m: map<Bytes, Bytes>, sets: Sets)
    requires Idle(db) && NoStrays(db) && Represents(LiveOf(db.secs), m) && |db.secs| > 0 && FindRoom(db, sets)
    ensures !LoseAKey(db, m, sets)
    ensures var d := Sessions(db, sets); Idle(d) && Represents(LiveOf(d.secs), Entries(m, sets))
    decreases |sets|
  {
    hide Idle, Represents, LiveOf, Session, Boot, Alloc, NoStrays, GetKv;
    if sets != [] {
      CleanSession(db, m, sets[0].0, sets[0].1);
      CleanSessions(Session(db, sets[0].0, sets[0].1), m[sets[0].0 := sets[0].1], sets[1..]);
    } else {
      AllKeysFound(db, m);
    }
  }

  lemma AllKeysFound(db: Db, m: map<Bytes, Bytes>)
    requires Idle(db) && Represents(LiveOf(db.secs), m)
    ensures db.oldest < |db.secs| && forall k :: k in m ==> GetKv(db, k) != None
  {
    IdleIsSteadyToo(db);
    hide Idle, Represents, LiveOf, GetKv;
    forall k | k in m ensures GetKv(db, k) != None {
      GetAfterRun(State(db, m), k);
    }
  }

  lemma IdleIsSteadyToo(db: Db)
    requires Idle(db)
    ensures Steady(db) && db.oldest < |db.secs|
  {
  }

  // ---- With stray bytes ----

  /** Stray bytes in sector `i` and in no other; and the last record there is stray or the live one of `key`. */
  ghost predicate StraysIn(db: Db, i: nat, key: Bytes) {
    && i < |db.secs| && db.secs[i].store == Using && db.secs[i].recs != []
    && (exists j :: 0 <= j < |db.secs[i].recs| && db.secs[i].recs[j].Stray())
    && (forall t, j :: 0 <= t < |db.secs| && t != i && 0 <= j < |db.secs[t].recs| ==> !db.secs[t].recs[j].Stray())
    && var last := db.secs[i].recs[|db.secs[i].recs| - 1];
       last.Stray() || (last.crcOk && last.status == Written && last.name == key)
  }

  /** Names of one letter, all different from a given one and from each other. */
  function FillName(key: Bytes): Bytes { if key == [0x61] then [0x64] else [0x61] }
  function FirstName(key: Bytes): Bytes { if key == [0x62] then [0x64] else [0x62] }
  function SecondName(key: Bytes): Bytes { if key == [0x63] then [0x64] else [0x63] }

  /** A record of the first name ends in an erased byte, and one of the second name is as short as can be. */
  const FIRST_SIZE: nat := KV_HDR_SIZE + 2
  const SECOND_SIZE: nat := KV_HDR_SIZE + 1

  /** There is room in sector `i` for two more records. */
  ghost predicate RoomForTwo(db: Db, i: nat) {
    i < |db.secs| && db.Remain(i) > FIRST_SIZE + SECOND_SIZE + REMAIN_THRESHOLD
  }

  lemma FitIs(s: Db, i: nat, size: nat)
    requires Idle(s) && i < |s.secs| && s.secs[i].store == Using
    ensures Alloc(s, size).sector == Some(i) <==>
            && s.Remain(i) > size + REMAIN_THRESHOLD
            && forall k :: 0 <= k < ScanIndex(s, i) ==>
                 (s.secs[s.SectorAt(k)].store == Using ==> s.Remain(s.SectorAt(k)) <= size + REMAIN_THRESHOLD)
    ensures Alloc(s, size).sector.Some? ==> Reserved(s, Alloc(s, size).sector.value, size)
  {
    hide CountStore, UsedBytes, FirstFit, Alloc, SectorSound, Db.Remain;
    AllocIs(s, size, i);
    FirstFitIs(s, Using, size, 0, i);
    AllocReserves(s, size);
    forall k | 0 <= k < ScanIndex(s, i)
      ensures CanHold(s, s.SectorAt(k), size) <==> s.Remain(s.SectorAt(k)) > size + REMAIN_THRESHOLD
    {
    }
    assert CanHold(s, i, size) <==> s.Remain(i) > size + REMAIN_THRESHOLD;
  }

  lemma LastIsInMap(db: Db, i: nat, key: Bytes, m: map<Bytes, Bytes>)
    requires Represents(LiveOf(db.secs), m) && StraysIn(db, i, key) && |key| < NAME_MAX
    requires WalkShort(db.secs[i].recs) > 0
    ensures key in m
    ensures var last := db.secs[i].recs[|db.secs[i].recs| - 1];
            !last.Stray() && last.crcOk && last.status == Written && last.name == key
  {
    var last := db.secs[i].recs[|db.secs[i].recs| - 1];
    assert db.RecordAt(Address(i, |db.secs[i].recs| - 1)) == last;
    MatchIsLive(db, Address(i, |db.secs[i].recs| - 1), key);
  }

  lemma OneSet(db: Db, m: map<Bytes, Bytes>, key: Bytes, value: Bytes, k: Bytes)
    requires |db.secs| > 0 && |key| < NAME_MAX && Boot(db).oldest < |Boot(db).secs|
    requires Alloc(Boot(db), RecordSize(key, value)).sector.Some?
    requires var d := Session(db, key, value); d.oldest < |d.secs| && GetKv(d, k) == None
    requires k == key || k in m
    ensures LoseAKey(db, m, [(key, value)])
  {
    hide Boot, Alloc, Session, GetKv;
    assert Entries(m[key := value], []) == m[key := value];
    assert LoseAKey(Session(db, key, value), m[key := value], []);
    OneSetMore(db, m, key, value, []);
    assert [(key, value)] + [] == [(key, value)];
  }

  lemma OneSetMore(db: Db, m: map<Bytes, Bytes>, key: Bytes, value: Bytes, rest: Sets)
    requires |db.secs| > 0 && |key| < NAME_MAX && Boot(db).oldest < |Boot(db).secs|
    requires Alloc(Boot(db), RecordSize(key, value)).sector.Some?
    requires LoseAKey(Session(db, key, value), m[key := value], rest)
    ensures LoseAKey(db, m, [(key, value)] + rest)
  {
    hide Boot, Alloc, Session, GetKv;
    var sets := [(key, value)] + rest;
    assert sets[1..] == rest;
  }

  /** A set goes over the end of the last record, and that one's key is lost. */
  lemma SpoilingSet(db: Db, i: nat, last: Bytes, next: Bytes, value: Bytes, m: map<Bytes, Bytes>)
    requires Idle(db) && Represents(LiveOf(db.secs), m) && i < |db.secs| && |next| < NAME_MAX && next != last
        && last in m
    requires WalkShort(db.secs[i].recs) > 0 && db.secs[i].recs != []
    requires var r := db.secs[i].recs[|db.secs[i].recs| - 1];
             r.crcOk && r.status == Written && r.name == last && |last| < NAME_MAX
    requires |Boot(db).secs| > 0 && Boot(db).oldest < |Boot(db).secs|
    requires Alloc(Boot(db), RecordSize(next, value)).sector == Some(i)
    ensures LoseAKey(db, m, [(next, value)])
  {
    IdleBoot(db);
    var s := Boot(db);
    hide Idle, Boot, Represents, LiveOf, Alloc, WalkShort, SetByWalk, RecordSize, GetKv;
    SpoiledIsLost(s, i, next, value, m);
    assert Session(db, next, value) == SetByWalk(s, i, next, value);
    OneSet(db, m, next, value, last);
  }

  /** After two more sets into the sector a key is lost: one that ends in an erased byte, unless the copy behind the
      stray bytes does, and one that is written over its end. */
  lemma TwoSetsLose(db: Db, i: nat, key: Bytes, m: map<Bytes, Bytes>) returns (sets: Sets)
    requires Idle(db) && Represents(LiveOf(db.secs), m) && StraysIn(db, i, key) && |key| < NAME_MAX && RoomForTwo(db, i)
    requires db.secs[i].store == Using && |Boot(db).secs| > 0 && Boot(db).oldest < |Boot(db).secs|
    requires Alloc(Boot(db), SECOND_SIZE).sector == Some(i)
    ensures |db.secs| > 0 && LoseAKey(db, m, sets)
  {
    hide Idle, Boot, Represents, LiveOf, Alloc, WalkShort, SetByWalk, Session, OneMore, StraysIn, RecordSize,
      LoseAKey;
    var first, erased := FirstName(key), [0xFF];
    FirstFits(db, i);
    SizesOfSets(key);
    IdleBoot(db);
    if WalkShort(db.secs[i].recs) > 0 {
      LastIsInMap(db, i, key, m);
      NotEmptyNow(db, i, key);
      SpoilingSet(db, i, key, first, erased, m);
      return [(first, erased)];
    }
    var d, r := Session(db, first, erased), Record(Written, true, first, erased);
    FirstSetGoes(db, i, key, m);
    SecondSetFits(db, Boot(db), d, i, r);
    StraysNamed(db, i);
    ShortNow(db, d, i, key, r);
    SpoilingSet(d, i, first, SecondName(key), [], m[first := erased]);
    OneSetMore(db, m, first, erased, [(SecondName(key), [])]);
    return [(first, erased)] + [(SecondName(key), [])];
  }

  lemma SizesOfSets(key: Bytes)
    ensures RecordSize(FirstName(key), [0xFF]) == FIRST_SIZE && RecordSize(SecondName(key), []) == SECOND_SIZE
    ensures LastByteErased(FirstName(key) + [0xFF])
    ensures Record(Written, true, FirstName(key), [0xFF]).Len() == FIRST_SIZE
  {
  }

  lemma NotEmptyNow(db: Db, i: nat, key: Bytes)
    requires StraysIn(db, i, key)
    ensures db.secs[i].recs != []
  {
  }

  lemma StraysNamed(db: Db, i: nat)
    requires Idle(db) && i < |db.secs|
    ensures forall j :: 0 <= j < |db.secs[i].recs| && db.secs[i].recs[j].Stray() ==> |db.secs[i].recs[j].name| > 0
  {
    hide CountStore, UsedBytes;
    assert SectorSound(db.secSize, db.secs[i]);
  }

  lemma FirstFits(db: Db, i: nat)
    requires Idle(db) && i < |db.secs| && RoomForTwo(db, i) && db.secs[i].store == Using
    requires |Boot(db).secs| > 0 && Boot(db).oldest < |Boot(db).secs|
    requires Alloc(Boot(db), SECOND_SIZE).sector == Some(i)
    ensures Alloc(Boot(db), FIRST_SIZE).sector == Some(i) && RoomForTwo(Boot(db), i)
    ensures Reserved(Boot(db), i, FIRST_SIZE)
  {
    IdleBoot(db);
    hide Idle, Boot, Alloc, Reserved, Db.Remain;
    SameRemain(db, Boot(db));
    FitIs(Boot(db), i, SECOND_SIZE);
    FitIs(Boot(db), i, FIRST_SIZE);
  }

  /** The first set goes behind the stray bytes, or what follows them. */
  lemma FirstSetGoes(db: Db, i: nat, key: Bytes, m: map<Bytes, Bytes>)
    requires Idle(db) && Represents(LiveOf(db.secs), m) && StraysIn(db, i, key) && RoomForTwo(db, i)
    requires WalkShort(db.secs[i].recs) == 0
    requires |Boot(db).secs| > 0 && Boot(db).oldest < |Boot(db).secs|
    requires Alloc(Boot(db), SECOND_SIZE).sector == Some(i)
    ensures |db.secs| > 0
    ensures var first, erased := FirstName(key), [0xFF];
            var d := Session(db, first, erased);
            && Idle(d) && Represents(LiveOf(d.secs), m[first := erased])
            && OneMore(db, d, i, Record(Written, true, first, erased))
            && OneMore(Boot(db), d, i, Record(Written, true, first, erased))
  {
    FirstFits(db, i);
    SizesOfSets(key);
    IdleBoot(db);
    hide Idle, Boot, Represents, LiveOf, Alloc, WalkShort, SetByWalk, OneMore, RecordSize, Reserved;
    RightSet(Boot(db), i, FirstName(key), [0xFF], m);
    MoreThanBefore(db, Boot(db), Session(db, FirstName(key), [0xFF]), i, Record(Written, true, FirstName(key), [0xFF]));
  }

  lemma MoreThanBefore(db: Db, s: Db, d: Db, i: nat, r: Record)
    requires s.secs == db.secs && s.secSize == db.secSize && OneMore(s, d, i, r)
    ensures OneMore(db, d, i, r)
  {
    hide UsedBytes;
    SameRemain(db, s);
  }

  lemma SameRemain(db: Db, s: Db)
    requires s.secs == db.secs && s.secSize == db.secSize
    ensures forall t :: 0 <= t < |db.secs| ==> s.Remain(t) == db.Remain(t)
  {
  }

  lemma SecondSetFits(db: Db, s: Db, d: Db, i: nat, r: Record)
    requires Idle(db) && Idle(d) && |db.secs| > 0 && s == Boot(db) && s.secs == db.secs && i < |db.secs|
    requires Idle(s) && s.oldest == OldestSector(db.secs, 0, 0)
    requires OneMore(s, d, i, r) && r.Len() == FIRST_SIZE && RoomForTwo(s, i) && s.secs[i].store == Using
    requires Alloc(s, SECOND_SIZE).sector == Some(i)
    ensures |d.secs| > 0 && |Boot(d).secs| > 0 && Boot(d).oldest < |Boot(d).secs|
    ensures Alloc(Boot(d), SECOND_SIZE).sector == Some(i)
  {
    IdleBoot(d);
    var s' := Boot(d);
    RoomElsewhere(s, d, i, r);
    SameRemain(d, s');
    hide Idle, Boot, Alloc, OldestSector, Db.Remain, OneMore;
    OldestSameStores(s.secs, d.secs, 0, 0);
    FitIs(s, i, SECOND_SIZE);
    FitIs(s', i, SECOND_SIZE);
    assert ScanIndex(s', i) == ScanIndex(s, i);
    assert forall k :: 0 <= k < ScanIndex(s, i) ==> s'.SectorAt(k) == s.SectorAt(k) != i;
  }

  lemma RoomElsewhere(s: Db, d: Db, i: nat, r: Record)
    requires OneMore(s, d, i, r)
    ensures |d.secs| == |s.secs|
    ensures forall t :: 0 <= t < |s.secs| ==>
              d.secs[t].store == s.secs[t].store && d.Remain(t) == s.Remain(t) - (if t == i then r.Len() else 0)
  {
    hide UsedBytes, Db.Remain, AsBefore;
  }

  lemma ShortNow(db: Db, d: Db, i: nat, key: Bytes, r: Record)
    requires StraysIn(db, i, key) && OneMore(db, d, i, r) && !r.Stray() && LastByteErased(r.name + r.value)
    requires forall j :: 0 <= j < |db.secs[i].recs| && db.secs[i].recs[j].Stray() ==> |db.secs[i].recs[j].name| > 0
    ensures WalkShort(d.secs[i].recs) > 0 && d.secs[i].recs != []
    ensures d.secs[i].recs[|d.secs[i].recs| - 1] == r
  {
    hide WalkShort, LastByteErased, UsedBytes, Db.Remain;
    var j :| 0 <= j < |db.secs[i].recs| && db.secs[i].recs[j].Stray();
    assert AsBefore(db.secs[i].recs[j], d.secs[i].recs[j], r.name);
    ShortBehindStray(d.secs[i].recs, j);
  }

  /** The other sectors that would take a record of the second name. */
  function Roomy(db: Db, i: nat): set<nat> {
    set t: nat | t < |db.secs| && t != i && db.secs[t].store == Using && db.Remain(t) > SECOND_SIZE + REMAIN_THRESHOLD
  }

  /** How long a value of a record must be that leaves a sector just the threshold and a byte. */
  function FillSize(remain: int): (n: nat)
    requires remain > SECOND_SIZE + REMAIN_THRESHOLD
    ensures SECOND_SIZE + n == remain - REMAIN_THRESHOLD - 1
  {
    remain - REMAIN_THRESHOLD - 1 - SECOND_SIZE
  }

  lemma SomeFits(db: Db, i: nat)
    requires Idle(db) && i < |db.secs| && db.secs[i].store == Using && RoomForTwo(db, i)
    requires |Boot(db).secs| > 0 && Boot(db).oldest < |Boot(db).secs|
    ensures var j := Alloc(Boot(db), SECOND_SIZE).sector;
            j.Some? && j.value < |db.secs| && db.secs[j.value].store == Using
            && db.Remain(j.value) > SECOND_SIZE + REMAIN_THRESHOLD
  {
    IdleBoot(db);
    var s := Boot(db);
    SameRemain(db, s);
    NotCollecting(s, i);
    hide Idle, Boot, Db.Remain;
    CountStorePositive(s.secs, i, Using);
    FirstFitFinds(s, Using, SECOND_SIZE, 0, i);
  }

  lemma NotCollecting(s: Db, i: nat)
    requires Idle(s) && i < |s.secs|
    ensures s.secs[i].dirty != Collecting && !s.gcRequest
  {
  }

  /** Filling the first of the other sectors that has room. */
  lemma FillFits(db: Db, j: nat, size: nat)
    requires Idle(db) && j < |db.secs| && db.secs[j].store == Using && SECOND_SIZE <= size
    requires |Boot(db).secs| > 0 && Boot(db).oldest < |Boot(db).secs|
    requires Alloc(Boot(db), SECOND_SIZE).sector == Some(j) && db.Remain(j) > size + REMAIN_THRESHOLD
    ensures Alloc(Boot(db), size).sector == Some(j) && Reserved(Boot(db), j, size)
  {
    IdleBoot(db);
    SameRemain(db, Boot(db));
    hide Idle, Boot, Alloc, Reserved, Db.Remain;
    FitIs(Boot(db), j, SECOND_SIZE);
    FitIs(Boot(db), j, size);
  }

  lemma NoStraysThere(db: Db, i: nat, key: Bytes, j: nat)
    requires StraysIn(db, i, key) && j < |db.secs| && j != i
    ensures WalkShort(db.secs[j].recs) == 0
  {
    hide WalkShort;
    NoStraysNoTotal(db.secs[j].recs);
  }

  lemma FillKeepsStrays(db: Db, d: Db, i: nat, key: Bytes, j: nat, r: Record)
    requires StraysIn(db, i, key) && OneMore(db, d, j, r) && j != i && r.name != key && !r.Stray()
    ensures StraysIn(d, i, key) && d.Remain(i) == db.Remain(i)
  {
    hide UsedBytes, Db.Remain;
    var n := |db.secs[i].recs| - 1;
    assert AsBefore(db.secs[i].recs[n], d.secs[i].recs[n], r.name);
    var x :| 0 <= x < |db.secs[i].recs| && db.secs[i].recs[x].Stray();
    assert AsBefore(db.secs[i].recs[x], d.secs[i].recs[x], r.name);
    assert d.secs[i].recs[x].Stray();
    forall t, p | 0 <= t < |d.secs| && t != i && 0 <= p < |d.secs[t].recs| ensures !d.secs[t].recs[p].Stray() {
      if p < |db.secs[t].recs| {
        assert AsBefore(db.secs[t].recs[p], d.secs[t].recs[p], r.name);
      }
    }
  }

  lemma FillFills(db: Db, d: Db, i: nat, j: nat, r: Record)
    requires OneMore(db, d, j, r) && j in Roomy(db, i) && r.Len() == db.Remain(j) - REMAIN_THRESHOLD - 1
    ensures |Roomy(d, i)| < |Roomy(db, i)|
  {
    hide UsedBytes, Db.Remain;
    forall t | t in Roomy(d, i) ensures t in Roomy(db, i) - {j} {
    }
    Smaller(Roomy(d, i), Roomy(db, i) - {j});
  }

  lemma {:induction false} Smaller(a: set<nat>, b: set<nat>)
    requires a <= b
    ensures |a| <= |b|
    decreases a
  {
    if a != {} {
      var x :| x in a;
      Smaller(a - {x}, b - {x});
    }
  }

  /** With stray bytes in a sector that has room for two more records, sets and restarts can lose a key: other
      sectors that would take the two records are filled first. */
  lemma {:induction false} StraysLoseAKey(db: Db, i: nat, key: Bytes, m: map<Bytes, Bytes>) returns (sets: Sets)
    requires Idle(db) && Represents(LiveOf(db.secs), m) && StraysIn(db, i, key) && |key| < NAME_MAX && RoomForTwo(db, i)
    requires i < |db.secs| && db.secs[i].store == Using
    ensures |db.secs| > 0 && LoseAKey(db, m, sets)
    decreases |Roomy(db, i)|
  {
    hide Idle, Boot, Represents, LiveOf, Alloc, WalkShort, SetByWalk, Session, OneMore, StraysIn, RecordSize,
      LoseAKey, Roomy, Reserved, RoomForTwo;
    IdleBoot(db);
    SomeFits(db, i);
    var j := Alloc(Boot(db), SECOND_SIZE).sector.value;
    if j == i {
      sets := TwoSetsLose(db, i, key, m);
    } else {
      var name, value := FillName(key), seq(FillSize(db.Remain(j)), _ => 0x61);
      Filled(db, i, key, m, j, name, value);
      var d := Session(db, name, value);
      var rest := StraysLoseAKey(d, i, key, m[name := value]);
      OneSetMore(db, m, name, value, rest);
      sets := [(name, value)] + rest;
    }
  }

  lemma Filled(db: Db, i: nat, key: Bytes, m: map<Bytes, Bytes>, j: nat, name: Bytes, value: Bytes)
    requires Idle(db) && Represents(LiveOf(db.secs), m) && StraysIn(db, i, key) && RoomForTwo(db, i) && j != i
    requires |Boot(db).secs| > 0 && Boot(db).oldest < |Boot(db).secs| && db.secs[i].store == Using
    requires Alloc(Boot(db), SECOND_SIZE).sector == Some(j) && j < |db.secs| && db.secs[j].store == Using
    requires db.Remain(j) > SECOND_SIZE + REMAIN_THRESHOLD
    requires name == FillName(key) && |value| == FillSize(db.Remain(j))
    ensures |db.secs| > 0 && Alloc(Boot(db), RecordSize(name, value)).sector == Some(j)
    ensures var d := Session(db, name, value);
            && Idle(d) && Represents(LiveOf(d.secs), m[name := value]) && StraysIn(d, i, key) && RoomForTwo(d, i)
            && i < |d.secs| && d.secs[i].store == Using && |Roomy(d, i)| < |Roomy(db, i)|
  {
    var r := Record(Written, true, name, value);
    FillFits(db, j, RecordSize(name, value));
    IdleBoot(db);
    NoStraysThere(db, i, key, j);
    assert j in Roomy(db, i);
    hide Idle, Boot, Represents, LiveOf, Alloc, WalkShort, SetByWalk, OneMore, StraysIn, Reserved, Roomy, Db.Remain;
    var d := Session(db, name, value);
    RightSet(Boot(db), j, name, value, m);
    MoreThanBefore(db, Boot(db), d, j, r);
    FillKeepsStrays(db, d, i, key, j, r);
    FillFills(db, d, i, j, r);
    StoreKept(db, d, i, j, r);
  }

  lemma StoreKept(db: Db, d: Db, i: nat, j: nat, r: Record)
    requires OneMore(db, d, j, r) && i < |db.secs|
    ensures i < |d.secs| && d.secs[i].store == db.secs[i].store
  {
  }

  // ---- Exactly the losses that leave stray bytes ----

  /** What can be checked at the loss: besides the stray bytes and a copy of the old record, sector `i` has room for
      two short records. */
  predicate RoomLeft(db: Db, i: nat, key: Bytes, l: Loss, m: map<Bytes, Bytes>)
    requires i < |db.secs| && l.header < 4
  {
    db.Remain(i) > |StrayBytes(l.header)| + (if key in m then RecordSize(key, m[key]) else 0)
                   + FIRST_SIZE + SECOND_SIZE + REMAIN_THRESHOLD
  }

  /** Where the pending deletion is completed, sector `i` loses room for one record at most. */
  lemma CopyLeavesRoom(s: Db, i: nat, w: nat, a: Address, copy: Record)
    requires Steady(s) && !s.gcRequest && i < |s.secs| && s.secs[i].store == Using
    requires s.HasRecord(a) && s.RecordAt(a).crcOk && s.RecordAt(a).status == PreDelete
    requires copy == s.RecordAt(a).(status := Written) && MayAppend(s, w, copy.Len())
    ensures var d := MarkRecord(AppendRecord(s, w, copy), a, Deleted);
            i < |d.secs| && d.secSize == s.secSize && d.Remain(i) >= s.Remain(i) - copy.Len()
  {
    hide CountStore, SectorSound, UsedBytes, OneMarked;
    RecordIsSound(s, a);
    SoundSector(s, w);
    AppendedSectorSound(s, w, copy);
    AppendKeepsSteady(s, w, copy);
    UsedBytesAppend(s.secs[w].recs, copy);
    var x := AppendRecord(s, w, copy);
    hide MarkRecord;
    MarkKeepsSteady(x, a, Deleted);
  }

  lemma SoundSector(s: Db, w: nat)
    requires Steady(s) && w < |s.secs|
    ensures SectorSound(s.secSize, s.secs[w])
  {
  }

  lemma RoomAfterStarts(db: Db, i: nat, key: Bytes, value: Bytes, l: Loss, m: map<Bytes, Bytes>)
    requires LossIn(db, i, key, value, l, m) && LeavesStray(db, i, l) && RoomLeft(db, i, key, l, m)
    ensures db.oldest < |db.secs| && i < |db.secs|
    ensures var b := Boot(Boot(Lost(db, i, key, value, l))); i < |b.secs| && RoomForTwo(b, i)
  {
    var c := Lost(db, i, key, value, l);
    LostRoom(db, i, key, value, l, m);
    StrayLossRest(db, i, key, value, l, m);
    RecoversOldOrNew(db, i, key, value, l, m);
    hide LossIn, Recoverable, Lost, Alloc, Boot, AppendRecord, MarkRecord, OldestSector, Db.Remain, Find, LeavesStray,
      Broken, Represents, LiveOf, Idle;
    StartedRoom(c);
    if key in m {
      CopiedRoom(c, Find(db, key).value, key, m[key], m - {key}, i);
    } else {
      QuietBoot(c);
      QuietBoot(Boot(c));
      SameRemain(c, Boot(Boot(c)));
    }
  }

  lemma CopiedRoom(c: Db, a: Address, key: Bytes, value: Bytes, m: map<Bytes, Bytes>, i: nat)
    requires Recoverable(c, Rest(Some(a), None, m), key, value) && key !in m
    requires i < |c.secs| && c.secs[i].store == Using && |c.secs| > 0 && Boot(Boot(c)).secSize == c.secSize
    ensures i < |Boot(Boot(c)).secs| && Boot(Boot(c)).Remain(i) >= c.Remain(i) - RecordSize(key, value)
  {
    hide Recoverable, Alloc, Boot, AppendRecord, MarkRecord, OldestSector, Db.Remain, Steady, Reserved;
    StartedRoom(c);
    PendingDeletionMoves(c, a, key, value, m);
    PendingRecord(c, a, key, value, m);
    PendingIsSteady(c, a, key, value, m);
    var s := Started(c);
    var w := Alloc(s, RecordSize(key, value)).sector.value;
    AllocReserves(s, RecordSize(key, value));
    ReservedMay(s, w, RecordSize(key, value));
    CopyLeavesRoom(s, i, w, a, OldRecord(key, value));
    SameRemain(MarkRecord(AppendRecord(s, w, OldRecord(key, value)), a, Deleted), Boot(Boot(c)));
  }

  lemma ReservedMay(s: Db, w: nat, size: nat)
    requires Reserved(s, w, size)
    ensures MayAppend(s, w, size)
  {
    hide CountStore, UsedBytes;
  }

  lemma PendingIsSteady(c: Db, a: Address, key: Bytes, value: Bytes, m: map<Bytes, Bytes>)
    requires Recoverable(c, Rest(Some(a), None, m), key, value)
    ensures |c.secs| > 0 && Steady(Started(c)) && Started(c).HasRecord(a)
    ensures Started(c).RecordAt(a) == c.RecordAt(a)
    ensures c.RecordAt(a).crcOk && c.RecordAt(a).status == PreDelete
  {
    BrokenAnyOldest(c, Some(a), None);
    PreparedIsIntact(c, a, None);
    hide SectorSound, CountStore, OldestSector;
  }

  lemma StraysAfterStarts(db: Db, i: nat, key: Bytes, value: Bytes, l: Loss, m: map<Bytes, Bytes>)
    requires LossIn(db, i, key, value, l, m) && LeavesStray(db, i, l)
    ensures db.oldest < |db.secs| && i < |db.secs|
    ensures var b := Boot(Boot(Lost(db, i, key, value, l))); StraysIn(b, i, key)
  {
    ShapeOfLoss(db, i, key, value, l, m);
    SettledAfterStarts(db, i, key, value, l, m);
    RecoversOldOrNew(db, i, key, value, l, m);
    var b := Boot(Boot(Lost(db, i, key, value, l)));
    hide LossIn, Lost, Alloc, Boot, LeavesStray, Represents, LiveOf, Settles, StraysIn;
    if key in m {
      SettledStrays(db, i, l, b, Alloc(Started(Lost(db, i, key, value, l)), RecordSize(key, m[key])).sector,
                    OldRecord(key, m[key]), key);
    } else {
      SettledStrays(db, i, l, b, None, OldRecord(key, []), key);
    }
  }

  lemma SettledStrays(db: Db, i: nat, l: Loss, b: Db, copied: Option<nat>, copy: Record, key: Bytes)
    requires i < |db.secs| && Idle(b)
    requires Settles(db, i, l, b, copied, if copied.Some? then copy else ERROR_RECORD)
    requires copy.crcOk && copy.status == Written && copy.name == key
    ensures StraysIn(b, i, key)
  {
    hide CountStore, UsedBytes;
    assert SectorSound(b.secSize, b.secs[i]);
    assert b.secs[i].recs[|db.secs[i].recs|].Stray();
  }

  /** After a loss in a set and two starts there are sets and restarts, each set finding room at once, after which a
      key is lost, exactly if the loss left stray bytes. */
  lemma StraysExactly(db: Db, i: nat, key: Bytes, value: Bytes, l: Loss, m: map<Bytes, Bytes>)
    requires LossIn(db, i, key, value, l, m)
    requires i < |db.secs| && (LeavesStray(db, i, l) ==> RoomLeft(db, i, key, l, m))
    ensures db.oldest < |db.secs|
    ensures var b := Boot(Boot(Lost(db, i, key, value, l)));
            var entries := if l.writes < 8 then m else m[key := value];
            && |b.secs| > 0
            && (LeavesStray(db, i, l) <==> exists sets: Sets :: LoseAKey(b, entries, sets))
  {
    ShapeOfLoss(db, i, key, value, l, m);
    RecoversOldOrNew(db, i, key, value, l, m);
    var b := Boot(Boot(Lost(db, i, key, value, l)));
    if LeavesStray(db, i, l) {
      RoomAfterStarts(db, i, key, value, l, m);
      StraysAfterStarts(db, i, key, value, l, m);
      InUse(b, i, key);
      hide LossIn, Lost, Boot, Represents, LiveOf, StraysIn, Idle, LoseAKey, RoomForTwo;
      var sets := StraysLoseAKey(b, i, key, m);
    } else {
      StartsKeepStraysExactly(db, i, key, value, l);
      hide LossIn, Lost, Boot, Represents, LiveOf, Idle, FindRoom, Sessions, NoStrays;
      var entries := if l.writes < 8 then m else m[key := value];
      forall sets: Sets ensures !LoseAKey(b, entries, sets) {
        if FindRoom(b, sets) {
          CleanSessions(b, entries, sets);
        }
      }
    }
  }

  lemma InUse(b: Db, i: nat, key: Bytes)
    requires StraysIn(b, i, key)
    ensures i < |b.secs| && b.secs[i].store == Using
  {
  }
}
