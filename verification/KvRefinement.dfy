/** The key-value database refines a finite map: what each operation does to the map its live records
    stand for, and what any run of operations leaves. */
module KvRefinement {
  import opened KvStore
  import opened KvCollect
  import opened Wrappers

  /** The live records stand for the map `m`: one written record for each entry. Names of the maximal
      length are on flash but outside the map, since no lookup finds them. */
  ghost predicate Represents(live: multiset<Pair>, m: map<Bytes, Bytes>) {
    && (forall k, v :: |k| < NAME_MAX ==> live[(k, v)] == if k in m && m[k] == v then 1 else 0)
    && (forall k :: k in m ==> |k| < NAME_MAX)
  }

  // ---- Lookup ----

  lemma {:induction false} FindFromMisses(db: Db, key: Bytes, k: nat, i: nat, j: nat)
    requires db.Shaped() && k <= |db.secs|
    requires FindFrom(db, key, k).None?
    requires i < |db.secs| && ScanIndex(db, i) >= k && db.secs[i].store != Empty && j < |db.secs[i].recs|
    ensures !db.secs[i].recs[j].Matches(key)
    decreases |db.secs| - k
  {
    if ScanIndex(db, i) > k {
      FindFromMisses(db, key, k + 1, i, j);
    }
  }

  lemma {:induction false} LiveInWitness(recs: seq<Record>, p: Pair) returns (j: nat)
    requires LiveIn(recs)[p] > 0
    ensures j < |recs| && recs[j].crcOk && recs[j].status == Written && (recs[j].name, recs[j].value) == p
  {
    var n := |recs| - 1;
    if Live(recs[n])[p] > 0 {
      j := n;
    } else {
      j := LiveInWitness(recs[..n], p);
    }
  }

  lemma {:induction false} LiveOfWitness(secs: seq<Sector>, p: Pair) returns (i: nat, j: nat)
    requires LiveOf(secs)[p] > 0
    ensures i < |secs| && j < |secs[i].recs|
    ensures var r := secs[i].recs[j]; r.crcOk && r.status == Written && (r.name, r.value) == p
  {
    var n := |secs| - 1;
    if LiveIn(secs[n].recs)[p] > 0 {
      i := n;
      j := LiveInWitness(secs[n].recs, p);
    } else {
      i, j := LiveOfWitness(secs[..n], p);
    }
  }

  /** Sectors, settled or not, that a fault has not hit and that are not being collected. */
  ghost predicate Steady(db: Db) {
    && db.Shaped()
    && (forall i :: 0 <= i < |db.secs| ==> SectorSound(db.secSize, db.secs[i]) && db.secs[i].dirty != Collecting)
    && CountStore(db.secs, Empty) >= GC_EMPTY_SEC_THRESHOLD
  }

  lemma FindMissesAll(db: Db, key: Bytes, v: Bytes)
    requires Steady(db) && Find(db, key).None? && |key| < NAME_MAX
    ensures LiveOf(db.secs)[(key, v)] == 0
  {
    if LiveOf(db.secs)[(key, v)] > 0 {
      var i, j := LiveOfWitness(db.secs, (key, v));
      FindFromMisses(db, key, 0, i, j);
    }
  }

  lemma FoundIsLive(db: Db, a: Address)
    requires db.HasRecord(a)
    ensures Live(db.RecordAt(a)) <= LiveOf(db.secs)
  {
    LiveInUpdate(db.secs[a.sector].recs, a.pos, db.RecordAt(a));
    LiveOfUpdate(db.secs, a.sector, db.secs[a.sector]);
  }

  /** A lookup finds the value that the map has for the key, for every key. */
  lemma FindRefines(db: Db, key: Bytes, m: map<Bytes, Bytes>)
    requires Steady(db) && Represents(LiveOf(db.secs), m)
    ensures Find(db, key).Some? <==> key in m
    ensures key in m ==> db.RecordAt(Find(db, key).value).value == m[key]
  {
    match Find(db, key)
    case None =>
      if key in m {
        FindMissesAll(db, key, m[key]);
      }
    case Some(a) =>
      var r := db.RecordAt(a);
      FoundIsLive(db, a);
      assert (r.name, r.value) in Live(r);
      assert LiveOf(db.secs)[(r.name, r.value)] > 0;
  }

  lemma GetRefines(db: Db, key: Bytes, m: map<Bytes, Bytes>)
    requires Steady(db) && Represents(LiveOf(db.secs), m)
    ensures GetKv(db, key) == if key in m then Some(m[key]) else None
  {
    FindRefines(db, key, m);
  }

  /** At most one record matches the key. */
  ghost predicate UniqueName(db: Db, key: Bytes) {
    forall a, b :: db.HasRecord(a) && db.HasRecord(b) && db.RecordAt(a).Matches(key) && db.RecordAt(b).Matches(key)
      ==> a == b
  }

  /** Flash that stands for a map has no key twice. */
  lemma RepresentedNamesAreUnique(db: Db, m: map<Bytes, Bytes>, key: Bytes)
    requires Represents(LiveOf(db.secs), m)
    ensures UniqueName(db, key)
  {
    forall a, b | db.HasRecord(a) && db.HasRecord(b) && db.RecordAt(a).Matches(key) && db.RecordAt(b).Matches(key)
      ensures a == b
    {
      MatchIsLive(db, a, key);
      MatchIsLive(db, b, key);
      if a != b {
        TwoRecordsTwice(db, a, b);
      }
    }
  }

  lemma MatchIsLive(db: Db, a: Address, key: Bytes)
    requires db.HasRecord(a) && db.RecordAt(a).Matches(key)
    ensures LiveOf(db.secs)[(key, db.RecordAt(a).value)] > 0
  {
    FoundIsLive(db, a);
    assert (key, db.RecordAt(a).value) in Live(db.RecordAt(a));
  }

  lemma TwoRecordsTwice(db: Db, a: Address, b: Address)
    requires db.HasRecord(a) && db.HasRecord(b) && a != b
    ensures Live(db.RecordAt(a)) + Live(db.RecordAt(b)) <= LiveOf(db.secs)
  {
    hide LiveOf, Live;
    MarkLive(db, a, Deleted);
    FoundIsLive(MarkRecord(db, a, Deleted), b);
    assert MarkRecord(db, a, Deleted).RecordAt(b) == db.RecordAt(b);
  }

  // ---- Allocation ----

  /** What a successful allocation outside garbage collection promises. */
  ghost predicate Reserved(db: Db, i: nat, size: nat) {
    && i < |db.secs| && CanHold(db, i, size)
    && (db.secs[i].store == Empty ==> CountStore(db.secs, Empty) > GC_EMPTY_SEC_THRESHOLD)
  }

  lemma AllocReserves(db: Db, size: nat)
    requires db.oldest < |db.secs| && !db.gcRequest
    ensures var r := Alloc(db, size);
            && (r.sector.Some? ==> r.db == db && Reserved(db, r.sector.value, size))
            && (r.sector.None? ==> r.db == db || r.db == db.(gcRequest := true))
  {
  }

  /** Making room for a record keeps the live records, whether it succeeds or not. */
  lemma NewKvLosesNothing(db: Db, size: nat)
    requires Idle(db)
    ensures var r := NewKv(db, size);
            && Idle(r.db) && LiveOf(r.db.secs) == LiveOf(db.secs) && r.db.secSize == db.secSize
            && (r.sector.Some? ==> Reserved(r.db, r.sector.value, size))
  {
    hide Alloc, Collect, LiveOf, CountStore, CanHold;
    AllocReserves(db, size);
    var first := Alloc(db, size);
    if first.sector == None && first.db.gcRequest {
      CollectLosesNothing(first.db, size);
      AllocReserves(Collect(first.db, size).db, size);
    }
  }

  // ---- Replacing a record ----

  /** `db'` has the records of `db`, the same but for the one at `a`. */
  ghost predicate SameRecordsExcept(db: Db, db': Db, a: Address) {
    && (forall x :: db.HasRecord(x) <==> db'.HasRecord(x))
    && (forall x :: db.HasRecord(x) && x != a ==> db'.RecordAt(x) == db.RecordAt(x))
  }

  /** `db'` has the records of `db` and a new one at `a`. */
  ghost predicate OneMoreRecord(db: Db, db': Db, a: Address) {
    && !db.HasRecord(a)
    && (forall x :: db'.HasRecord(x) <==> db.HasRecord(x) || x == a)
    && (forall x :: db.HasRecord(x) ==> db'.RecordAt(x) == db.RecordAt(x))
  }

  lemma SettledPointwise(db: Db)
    ensures (forall i :: 0 <= i < |db.secs| ==> Settled(db.secs[i])) <==>
            (forall x :: db.HasRecord(x) ==> db.RecordAt(x).status != PreDelete && db.RecordAt(x).status != PreWrite)
  {
    if forall x :: db.HasRecord(x) ==> db.RecordAt(x).status != PreDelete && db.RecordAt(x).status != PreWrite {
      forall i, j | 0 <= i < |db.secs| && 0 <= j < |db.secs[i].recs|
        ensures db.secs[i].recs[j].status != PreDelete && db.secs[i].recs[j].status != PreWrite
      {
        assert db.RecordAt(Address(i, j)) == db.secs[i].recs[j];
      }
    }
  }

  lemma MarkKeepsSteady(db: Db, a: Address, status: KvStatus)
    requires Steady(db) && db.HasRecord(a) && RecordSound(db.RecordAt(a).(status := status))
    requires !db.RecordAt(a).Stray() && status != Unused
    ensures var db' := MarkRecord(db, a, status);
            && db' == db.(secs := db'.secs) && Steady(db') && SameRecordsExcept(db, db', a)
            && db'.RecordAt(a) == db.RecordAt(a).(status := status)
            && CountStore(db'.secs, Empty) == CountStore(db.secs, Empty)
            && forall i :: 0 <= i < |db.secs| ==> db'.Remain(i) == db.Remain(i) && db'.secs[i].store == db.secs[i].store
  {
    hide CountStore, UsedBytes;
    var db' := MarkRecord(db, a, status);
    UsedBytesUpdate(db.secs[a.sector].recs, a.pos, db'.secs[a.sector].recs[a.pos]);
    CountStoreUpdate(db.secs, a.sector, db'.secs[a.sector], Empty);
  }

  /** A sector with room is sound after taking a record, and not full. */
  lemma AppendedSectorSound(db: Db, w: nat, r: Record)
    requires w < |db.secs| && SectorSound(db.secSize, db.secs[w])
    requires RecordSound(r) && db.Remain(w) > r.Len() + REMAIN_THRESHOLD
    ensures var s := AppendRecord(db, w, r).secs[w];
            && s == Sector(Using, db.secs[w].dirty, db.secs[w].recs + [r])
            && SectorSound(db.secSize, s) && StoreAfter(db, w, r.Len()) == Using
    ensures CountStore(AppendRecord(db, w, r).secs, Empty)
         == CountStore(db.secs, Empty) - (if db.secs[w].store == Empty then 1 else 0)
  {
    UsedBytesAppend(db.secs[w].recs, r);
    CountStoreUpdate(db.secs, w, AppendRecord(db, w, r).secs[w], Empty);
  }

  /** Room for a record that may be used outside garbage collection. */
  ghost predicate MayAppend(db: Db, w: nat, size: nat) {
    && w < |db.secs| && db.Remain(w) > size + REMAIN_THRESHOLD
    && (db.secs[w].store == Empty ==> CountStore(db.secs, Empty) > GC_EMPTY_SEC_THRESHOLD)
  }

  lemma AppendKeepsSteady(db: Db, w: nat, r: Record)
    requires Steady(db) && RecordSound(r) && MayAppend(db, w, r.Len())
    ensures var db' := AppendRecord(db, w, r);
            var a := Address(w, |db.secs[w].recs|);
            && db' == db.(secs := db'.secs) && Steady(db')
            && OneMoreRecord(db, db', a) && db'.RecordAt(a) == r
            && StoreAfter(db, w, r.Len()) == Using
  {
    hide CountStore, UsedBytes, SectorSound, StoreAfter;
    AppendedSectorSound(db, w, r);
  }

  lemma SteadyAndSettled(db: Db)
    requires Steady(db) && !db.recovering
    requires forall x :: db.HasRecord(x) ==> db.RecordAt(x).status != PreDelete && db.RecordAt(x).status != PreWrite
    ensures Sound(db)
  {
    hide CountStore, SectorSound;
    SettledPointwise(db);
  }

  /** The live records after a set into reserved room: the old record's pair, if there is one, is
      replaced by the new pair. This holds for whatever record the caller names as the old one. */
  lemma ReplaceEffect(db: Db, i: nat, old_: Option<Address>, key: Bytes, value: Bytes)
    requires Idle(db) && Reserved(db, i, RecordSize(key, value)) && |key| <= NAME_MAX
    requires old_.Some? ==> db.HasRecord(old_.value) && db.RecordAt(old_.value).crcOk
    ensures var r := Replace(db, i, old_, key, value);
            && r.error == NoError && Idle(r.db) && r.db.secSize == db.secSize
            && LiveOf(r.db.secs) ==
               (if old_.Some? then LiveOf(db.secs) - Live(db.RecordAt(old_.value)) else LiveOf(db.secs))
               + multiset{(key, value)}
  {
    hide LiveOf, LiveIn, CountStore, UsedBytes, MarkRecord, AppendRecord, Live;
    var kv := Record(Written, true, key, value);
    SettledPointwise(db);
    if old_.None? {
      AppendKeepsSteady(db, i, kv);
      AppendLive(db, i, kv);
      SteadyAndSettled(AppendRecord(db, i, kv));
      WrittenIsLive(kv);
    } else {
      ReplaceOldEffect(db, i, old_.value, key, value);
    }
  }

  lemma WrittenIsLive(r: Record)
    requires r.crcOk && r.status == Written
    ensures Live(r) == multiset{(r.name, r.value)}
  {
  }

  lemma NotWrittenIsNotLive(r: Record)
    requires r.status != Written
    ensures Live(r) == multiset{}
  {
  }

  lemma ReplaceOldEffect(db: Db, i: nat, a: Address, key: Bytes, value: Bytes)
    requires Idle(db) && Reserved(db, i, RecordSize(key, value)) && |key| <= NAME_MAX
    requires db.HasRecord(a) && db.RecordAt(a).crcOk
    ensures var r := Replace(db, i, Some(a), key, value);
            && r.error == NoError && Idle(r.db) && r.db.secSize == db.secSize
            && LiveOf(r.db.secs) == LiveOf(db.secs) - Live(db.RecordAt(a)) + multiset{(key, value)}
  {
    hide LiveOf, LiveIn, CountStore, UsedBytes, MarkRecord, AppendRecord, Live;
    var kv := Record(Written, true, key, value);
    SettledPointwise(db);
    var prepared := MarkRecord(db, a, PreDelete);
    MarkKeepsSteady(db, a, PreDelete);
    MarkLive(db, a, PreDelete);
    AppendKeepsSteady(prepared, i, kv);
    AppendLive(prepared, i, kv);
    WrittenIsLive(kv);
    var created := AppendRecord(prepared, i, kv);
    MarkKeepsSteady(created, a, Deleted);
    MarkLive(created, a, Deleted);
    NotWrittenIsNotLive(created.RecordAt(a));
    SteadyAndSettled(MarkRecord(created, a, Deleted));
  }

  // ---- Operations ----

  lemma RepresentsSet(live: multiset<Pair>, m: map<Bytes, Bytes>, key: Bytes, value: Bytes)
    requires Represents(live, m) && |key| <= NAME_MAX
    ensures var kept := if key in m then live - multiset{(key, m[key])} else live;
            Represents(kept + multiset{(key, value)}, if |key| < NAME_MAX then m[key := value] else m)
  {
    var kept := if key in m then live - multiset{(key, m[key])} else live;
    var live' := kept + multiset{(key, value)};
    var m' := if |key| < NAME_MAX then m[key := value] else m;
    forall k, v | |k| < NAME_MAX ensures live'[(k, v)] == if k in m' && m'[k] == v then 1 else 0 {
      assert live[(k, v)] == if k in m && m[k] == v then 1 else 0;
    }
  }

  lemma RepresentsDelete(live: multiset<Pair>, m: map<Bytes, Bytes>, key: Bytes)
    requires Represents(live, m) && key in m
    ensures Represents(live - multiset{(key, m[key])}, m - {key})
  {
    var live', m' := live - multiset{(key, m[key])}, m - {key};
    forall k, v | |k| < NAME_MAX ensures live'[(k, v)] == if k in m' && m'[k] == v then 1 else 0 {
      assert live[(k, v)] == if k in m && m[k] == v then 1 else 0;
    }
  }

  lemma FoundPair(db: Db, key: Bytes, m: map<Bytes, Bytes>)
    requires Steady(db) && Represents(LiveOf(db.secs), m)
    ensures Find(db, key).Some? <==> key in m
    ensures key in m ==> Live(db.RecordAt(Find(db, key).value)) == multiset{(key, m[key])}
  {
    FindRefines(db, key, m);
  }

  /** The map after a set with outcome `error`. */
  function MapAfterSet(m: map<Bytes, Bytes>, key: Bytes, value: Bytes, error: Error): map<Bytes, Bytes> {
    if error == NoError && |key| < NAME_MAX then m[key := value] else m
  }

  /** A set stores its value, or reports that the name is too long or the flash full and changes
      nothing. A name of exactly the maximal length is accepted, and lost. */
  lemma SetRefines(db: Db, key: Bytes, value: Bytes, m: map<Bytes, Bytes>)
    requires Idle(db) && Represents(LiveOf(db.secs), m)
    ensures var r := SetKv(db, key, value);
            && Idle(r.db) && r.db.secSize == db.secSize
            && Represents(LiveOf(r.db.secs), MapAfterSet(m, key, value, r.error))
            && (r.error != NoError ==> LiveOf(r.db.secs) == LiveOf(db.secs))
            && (|key| > NAME_MAX ==> r.error != NoError) && (r.error == NameError ==> |key| > NAME_MAX)
  {
    hide LiveOf, Represents, NewKv, Find, Reserved, CountStore, SectorSound, Settled;
    NewKvLosesNothing(db, RecordSize(key, value));
    var alloc := NewKv(db, RecordSize(key, value));
    if alloc.sector.Some? {
      SetInReservedRoom(alloc.db, alloc.sector.value, key, value, m);
    }
  }

  lemma SetInReservedRoom(db: Db, i: nat, key: Bytes, value: Bytes, m: map<Bytes, Bytes>)
    requires Idle(db) && Represents(LiveOf(db.secs), m) && Reserved(db, i, RecordSize(key, value))
    ensures var r := Replace(db, i, Find(db, key), key, value);
            && Idle(r.db) && r.db.secSize == db.secSize
            && r.error == (if |key| > NAME_MAX then NameError else NoError)
            && Represents(LiveOf(r.db.secs), MapAfterSet(m, key, value, r.error))
            && (r.error != NoError ==> LiveOf(r.db.secs) == LiveOf(db.secs))
  {
    FoundPair(db, key, m);
    if |key| <= NAME_MAX {
      hide LiveOf, Replace, Represents;
      ReplaceEffect(db, i, Find(db, key), key, value);
      RepresentsSet(LiveOf(db.secs), m, key, value);
    }
  }

  /** A delete removes the key, or reports that it is absent and changes nothing. */
  lemma DelRefines(db: Db, key: Bytes, m: map<Bytes, Bytes>)
    requires Idle(db) && Represents(LiveOf(db.secs), m)
    ensures var r := DelKv(db, key);
            && Idle(r.db) && r.db.secSize == db.secSize
            && r.error == (if key in m then NoError else NameError)
            && Represents(LiveOf(r.db.secs), m - {key})
            && (key !in m ==> r.db == db)
  {
    FoundPair(db, key, m);
    if key in m {
      hide LiveOf, Represents;
      DeleteEffect(db, Find(db, key).value);
      RepresentsDelete(LiveOf(db.secs), m, key);
    } else {
      assert m - {key} == m;
    }
  }

  lemma DeleteEffect(db: Db, a: Address)
    requires Idle(db) && db.HasRecord(a) && RecordSound(db.RecordAt(a).(status := Deleted))
    ensures var db' := MarkRecord(db, a, Deleted);
            && Idle(db') && db'.secSize == db.secSize
            && LiveOf(db'.secs) == LiveOf(db.secs) - Live(db.RecordAt(a))
  {
    hide LiveOf, LiveIn, CountStore, UsedBytes, MarkRecord;
    SettledPointwise(db);
    MarkKeepsSteady(db, a, Deleted);
    MarkLive(db, a, Deleted);
    SteadyAndSettled(MarkRecord(db, a, Deleted));
  }

  /** After a successful set, a lookup returns the value exactly when the name is shorter than the
      maximal length. */
  lemma SetThenGetExactly(db: Db, key: Bytes, value: Bytes, m: map<Bytes, Bytes>)
    requires Idle(db) && Represents(LiveOf(db.secs), m)
    requires SetKv(db, key, value).error == NoError
    ensures GetKv(SetKv(db, key, value).db, key) == Some(value) <==> |key| < NAME_MAX
  {
    hide LiveOf, Represents, SetKv, GetKv;
    SetRefines(db, key, value, m);
    var r := SetKv(db, key, value);
    var m' := MapAfterSet(m, key, value, r.error);
    GetRefines(r.db, key, m');
    if key in m {
      NamesAreShort(LiveOf(db.secs), m, key);
    }
  }

  lemma NamesAreShort(live: multiset<Pair>, m: map<Bytes, Bytes>, key: Bytes)
    requires Represents(live, m) && key in m
    ensures |key| < NAME_MAX
  {
  }

  // ---- Runs ----

  datatype Operation = Set(key: Bytes, value: Bytes) | Delete(key: Bytes) | Get(key: Bytes)

  /** The database and the map after a run of operations on them; a set that fails leaves the map alone. */
  datatype State = State(db: Db, entries: map<Bytes, Bytes>)

  function Step(s: State, op: Operation): (s': State)
    requires s.db.oldest < |s.db.secs|
    ensures s'.db.oldest < |s'.db.secs|
  {
    match op
    case Set(k, v) =>
      var r := SetKv(s.db, k, v);
      State(r.db, MapAfterSet(s.entries, k, v, r.error))
    case Delete(k) => State(DelKv(s.db, k).db, s.entries - {k})
    case Get(k) => s
  }

  function Run(s: State, ops: seq<Operation>): (s': State)
    requires s.db.oldest < |s.db.secs|
    ensures s'.db.oldest < |s'.db.secs|
  {
    if ops == [] then s else Step(Run(s, ops[..|ops| - 1]), ops[|ops| - 1])
  }

  function Formatted(secSize: nat, secNum: nat): Db {
    Db(secSize, seq(secNum, _ => EMPTY_SECTOR), 0, false, false)
  }

  lemma {:induction false} FormattedCounts(n: nat)
    ensures LiveOf(seq(n, _ => EMPTY_SECTOR)) == multiset{}
    ensures CountStore(seq(n, _ => EMPTY_SECTOR), Empty) == n
  {
    if n > 0 {
      FormattedCounts(n - 1);
      assert seq(n, _ => EMPTY_SECTOR)[..n - 1] == seq(n - 1, _ => EMPTY_SECTOR);
      assert LiveIn(EMPTY_SECTOR.recs) == multiset{};
    }
  }

  lemma FormattedIsIdle(secSize: nat, secNum: nat)
    requires secSize >= SECTOR_HDR_SIZE && secNum >= 2
    ensures Idle(Formatted(secSize, secNum))
    ensures Represents(LiveOf(Formatted(secSize, secNum).secs), map[])
  {
    FormattedCounts(secNum);
  }

  lemma StepRefines(s: State, op: Operation)
    requires Idle(s.db) && Represents(LiveOf(s.db.secs), s.entries)
    ensures var s' := Step(s, op); Idle(s'.db) && Represents(LiveOf(s'.db.secs), s'.entries)
  {
    hide LiveOf, Represents, SetKv, DelKv, Idle;
    match op
    case Set(k, v) => SetRefines(s.db, k, v, s.entries);
    case Delete(k) => DelRefines(s.db, k, s.entries);
    case Get(k) =>
  }

  /** After any run of operations on a formatted database, garbage collection included, a lookup of any
      key returns the value of its last successful set that no delete follows. */
  lemma {:induction false} RunRefines(secSize: nat, secNum: nat, ops: seq<Operation>, key: Bytes)
    requires secSize >= SECTOR_HDR_SIZE && secNum >= 2
    ensures var s := Run(State(Formatted(secSize, secNum), map[]), ops);
            && Idle(s.db) && Represents(LiveOf(s.db.secs), s.entries)
            && GetKv(s.db, key) == if key in s.entries then Some(s.entries[key]) else None
    decreases |ops|
  {
    hide LiveOf, Represents, Step, Idle;
    var s0 := State(Formatted(secSize, secNum), map[]);
    FormattedIsIdle(secSize, secNum);
    if ops != [] {
      RunRefines(secSize, secNum, ops[..|ops| - 1], key);
      StepRefines(Run(s0, ops[..|ops| - 1]), ops[|ops| - 1]);
    }
    GetAfterRun(Run(s0, ops), key);
  }

  lemma GetAfterRun(s: State, key: Bytes)
    requires Idle(s.db) && Represents(LiveOf(s.db.secs), s.entries)
    ensures GetKv(s.db, key) == if key in s.entries then Some(s.entries[key]) else None
  {
    GetRefines(s.db, key, s.entries);
  }
}
