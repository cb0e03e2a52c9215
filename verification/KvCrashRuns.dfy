/** Whole runs with power losses: what survives them, and exactly which loss a later set makes fatal. */
module KvCrashRuns {
  import opened KvStore
  import opened KvCollect
  import opened KvRefinement
  import opened KvCrash
  import opened KvEvery
  import opened KvStrays
  import opened KvWalks
  import opened KvOverwrites
  import opened Wrappers

  // ---- Power loss in a deletion ----

  /** A delete makes two flash writes: 1 the record's status, 2 its sector's dirty mark. */
  const DELETE_WRITES: nat := 2

  function AfterDeleteWrites(db: Db, key: Bytes, n: nat): Db
    requires db.oldest < |db.secs|
  {
    match Find(db, key)
    case None => db
    case Some(a) => if n == 0 then db else if n == 1 then SetStatus(db, a, Deleted) else MarkRecord(db, a, Deleted)
  }

  /** The map after a loss in a delete: one write is enough. */
  function MapAfterDeleteWrites(m: map<Bytes, Bytes>, key: Bytes, n: nat): map<Bytes, Bytes> {
    if n == 0 then m else m - {key}
  }

  lemma StatusDeletes(db: Db, a: Address)
    requires Idle(db) && db.HasRecord(a) && db.RecordAt(a).crcOk && db.RecordAt(a).status == Written
    ensures var db' := SetStatus(db, a, Deleted);
            Idle(db') && db'.secSize == db.secSize && LiveOf(db'.secs) == LiveOf(db.secs) - Live(db.RecordAt(a))
  {
    hide LiveOf, LiveIn, CountStore, UsedBytes, SetStatus;
    SettledPointwise(db);
    SetStatusKeepsSteady(db, a, Deleted);
    SetStatusLive(db, a, Deleted);
    SteadyAndSettled(SetStatus(db, a, Deleted));
  }

  lemma DeleteWritesRefine(db: Db, key: Bytes, n: nat, m: map<Bytes, Bytes>)
    requires Idle(db) && Represents(LiveOf(db.secs), m)
    ensures var c := AfterDeleteWrites(db, key, n);
            Idle(c) && c.secSize == db.secSize && Represents(LiveOf(c.secs), MapAfterDeleteWrites(m, key, n))
  {
    FoundPair(db, key, m);
    if key in m {
      FoundIsIntact(db, key);
      hide LiveOf, Represents, Find, SetStatus, MarkRecord, Idle;
      StatusDeletes(db, Find(db, key).value);
      DeleteEffect(db, Find(db, key).value);
      RepresentsDelete(LiveOf(db.secs), m, key);
    } else {
      assert m - {key} == m;
    }
  }

  lemma DeleteWritesKeepEvery(db: Db, key: Bytes, n: nat, p: Record -> bool)
    requires Every(db, p) && Stable(p) && db.oldest < |db.secs|
    ensures Every(AfterDeleteWrites(db, key, n), p)
  {
    if Find(db, key).Some? {
      FoundIsNoStray(db, key);
      SetStatusKeepsEvery(db, Find(db, key).value, Deleted, p);
      MarkKeepsEvery(db, Find(db, key).value, Deleted, p);
    }
  }

  /** An idle database stays as it is, but for the oldest sector. */
  lemma IdleStarts(db: Db, m: map<Bytes, Bytes>)
    requires Idle(db) && Represents(LiveOf(db.secs), m)
    ensures var b := Boot(Boot(db)); Idle(b) && b.secSize == db.secSize && Represents(LiveOf(b.secs), m)
  {
    hide LiveOf, Represents, Idle, Boot, Broken;
    IdleIsUnbroken(db);
    BrokenIsShaped(db);
    TwoStartsRecover(db, Rest(None, None, m), [], []);
  }

  lemma BrokenIsShaped(db: Db)
    requires Broken(db, None, None)
    ensures |db.secs| > 0
  {
  }

  // ---- Runs ----

  datatype Event =
    | Normal(op: Operation)
    | SetLoss(key: Bytes, value: Bytes, loss: Loss)
    | DeleteLoss(key: Bytes, writes: nat)

  datatype Lost = NoRoom | LostAt(db: Db, sector: nat, flash: Db)

  /** The flash when power is lost in a set: room has been made in a sector, and some writes have been done. */
  function AtSetLoss(db: Db, key: Bytes, value: Bytes, loss: Loss): (r: Lost)
    requires db.oldest < |db.secs| && loss.Possible()
    ensures r.LostAt? ==> r.db.oldest < |r.db.secs| && r.sector < |r.db.secs|
  {
    var alloc := NewKv(db, RecordSize(key, value));
    match alloc.sector
    case None => NoRoom
    case Some(i) => LostAt(alloc.db, i, AfterWrites(alloc.db, i, Find(alloc.db, key), key, value, loss))
  }

  /** What a loss must be like for a run to go on as if nothing had happened: room for the record was made, a
      pending deletion has room for a copy, no stray bytes are left, and a record that is not complete has no second
      magic word at which a search could stop. */
  predicate Harmless(s: State, e: Event)
    requires s.db.oldest < |s.db.secs|
  {
    e.SetLoss? ==>
      && |e.key| < NAME_MAX && e.loss.Possible()
      && var c := AtSetLoss(s.db, e.key, e.value, e.loss);
         && c.LostAt? && |c.flash.secs| > 0
         && (1 <= e.loss.writes < SET_WRITES && e.key in s.entries ==>
               RoomToRecover(c.flash, RecordSize(e.key, s.entries[e.key])))
         && !LeavesStray(c.db, c.sector, e.loss)
         && SkippedWhole(e.loss, e.key, e.value)
  }

  /** An operation; or a loss followed by two starts. */
  function AfterEvent(s: State, e: Event): State
    requires s.db.oldest < |s.db.secs| && Harmless(s, e)
  {
    match e
    case Normal(op) => Step(s, op)
    case SetLoss(k, v, loss) =>
      State(Boot(Boot(AtSetLoss(s.db, k, v, loss).flash)), if loss.writes < 8 then s.entries else s.entries[k := v])
    case DeleteLoss(k, writes) =>
      DeleteKeepsSectors(s.db, k, writes);
      State(Boot(Boot(AfterDeleteWrites(s.db, k, writes))), MapAfterDeleteWrites(s.entries, k, writes))
  }

  lemma DeleteKeepsSectors(db: Db, key: Bytes, n: nat)
    requires db.oldest < |db.secs|
    ensures |AfterDeleteWrites(db, key, n).secs| == |db.secs|
  {
  }

  lemma SetLossRefines(s: State, k: Bytes, v: Bytes, loss: Loss)
    requires Idle(s.db) && Represents(LiveOf(s.db.secs), s.entries) && NoStrays(s.db)
    requires Harmless(s, SetLoss(k, v, loss))
    ensures var s' := AfterEvent(s, SetLoss(k, v, loss));
            Idle(s'.db) && Represents(LiveOf(s'.db.secs), s'.entries) && NoStrays(s'.db)
  {
    hide LiveOf, Represents, NewKv, AfterWrites, RoomToRecover, Boot, CountStore, SectorSound, Settled, Find, Every,
      Stable;
    NewKvLosesNothing(s.db, RecordSize(k, v));
    var c := AtSetLoss(s.db, k, v, loss);
    RecoversOldOrNew(c.db, c.sector, k, v, loss, s.entries);
    NotStrayIsStable();
    NewKvKeepsEvery(s.db, RecordSize(k, v), NotStray);
    StartsKeepStraysExactly(c.db, c.sector, k, v, loss);
  }

  lemma DeleteLossRefines(s: State, k: Bytes, writes: nat)
    requires Idle(s.db) && Represents(LiveOf(s.db.secs), s.entries) && NoStrays(s.db)
    ensures var s' := AfterEvent(s, DeleteLoss(k, writes));
            Idle(s'.db) && Represents(LiveOf(s'.db.secs), s'.entries) && NoStrays(s'.db)
  {
    hide LiveOf, Represents, Boot, Every, Stable, AfterDeleteWrites, SectorSound, Settled, CountStore;
    DeleteWritesRefine(s.db, k, writes, s.entries);
    var c := AfterDeleteWrites(s.db, k, writes);
    IdleStarts(c, MapAfterDeleteWrites(s.entries, k, writes));
    NotStrayIsStable();
    DeleteWritesKeepEvery(s.db, k, writes, NotStray);
    DeleteKeepsSectors(s.db, k, writes);
    BootKeepsEvery(c, NotStray);
    BootKeepsEvery(Boot(c), NotStray);
  }

  lemma EventRefines(s: State, e: Event)
    requires Idle(s.db) && Represents(LiveOf(s.db.secs), s.entries) && NoStrays(s.db) && Harmless(s, e)
    ensures var s' := AfterEvent(s, e);
            Idle(s'.db) && Represents(LiveOf(s'.db.secs), s'.entries) && NoStrays(s'.db)
  {
    hide LiveOf, Represents, Boot, Every, Stable, AfterDeleteWrites, AtSetLoss, Step;
    match e
    case Normal(op) =>
      StepRefines(s, op);
      NotStrayIsStable();
      SetsAreNoStrays(op);
      StepKeepsEvery(s, op, NotStray);
    case SetLoss(k, v, loss) => SetLossRefines(s, k, v, loss);
    case DeleteLoss(k, writes) => DeleteLossRefines(s, k, writes);
  }

  lemma SetsAreNoStrays(op: Operation)
    ensures AllowsStep(NotStray, op)
  {
  }

  /** A run of states, each reached from the one before by an operation or a harmless loss. */
  ghost predicate IsRun(states: seq<State>, events: seq<Event>) {
    && |states| == |events| + 1
    && forall i :: 0 <= i < |events| ==>
         && states[i].db.oldest < |states[i].db.secs|
         && Harmless(states[i], events[i])
         && states[i + 1] == AfterEvent(states[i], events[i])
  }

  /** Over any run of sets, deletes, lookups and harmless power losses from a formatted database, the flash
      stands for the map that the run describes, with no key twice; lookups read that map; and no stray bytes
      are left, so that every walk ends where the records end. */
  lemma {:induction false} RunWithPowerLosses(states: seq<State>, events: seq<Event>, secSize: nat, secNum: nat,
      key: Bytes)
    requires secSize >= SECTOR_HDR_SIZE && secNum >= 2
    requires IsRun(states, events) && states[0] == State(Formatted(secSize, secNum), map[])
    ensures var s := states[|events|];
            && Idle(s.db) && Represents(LiveOf(s.db.secs), s.entries) && NoStrays(s.db)
            && GetKv(s.db, key) == if key in s.entries then Some(s.entries[key]) else None
    decreases |events|
  {
    hide LiveOf, Represents, Idle, AfterEvent, Harmless, NoStrays;
    var n := |events|;
    if n == 0 {
      FormattedIsIdle(secSize, secNum);
      FormattedHasNoStrays(secSize, secNum);
    } else {
      RunWithPowerLosses(states[..n], events[..n - 1], secSize, secNum, key);
      EventRefines(states[n - 1], events[n - 1]);
    }
    GetAfterRun(states[n], key);
  }

  lemma FormattedHasNoStrays(secSize: nat, secNum: nat)
    ensures NoStrays(Formatted(secSize, secNum))
  {
  }
}
