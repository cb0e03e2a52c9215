/** The time series database: appending to a circle of sectors, visiting the log in both directions, asking
    for a span of time, and finding the place to go on after a restart. Addresses are relative to a sector,
    and sectors are numbered. */
module TsDbs {
  import opened TsLog
  import opened TsPacking
  import opened TslBytes
  import opened TsFlashes
  import opened StatusTable
  import opened Wrappers

  datatype Error = NoError | WriteError | SavedFull

  /** What is known about a sector while it is worked on. */
  datatype SectorInfo = SectorInfo(addr: nat, status: StoreStatus, startTime: Option<int>, endTime: int, endIdx: int,
                                   emptyIdx: int, emptyData: int, remain: int)

  /** The free space begins and ends where the entries and their data end. */
  ghost predicate SpaceAgrees(info: SectorInfo, secSize: nat, s: Sector) {
    && info.status == s.store
    && info.emptyIdx == IndexAt(|s.log|) && info.emptyData == secSize - DataBytes(s.log)
    && info.remain == info.emptyData - info.emptyIdx
  }

  ghost predicate InfoAgrees(info: SectorInfo, secSize: nat, s: Sector) {
    && SpaceAgrees(info, secSize, s)
    && (s.log != [] ==>
          && info.startTime == s.startTime
          && info.endTime == s.log[|s.log| - 1].time && info.endIdx == IndexAt(|s.log| - 1))
  }

  /** The log is the end of what was ever accepted, in time order, and its last time is known. */
  ghost predicate Recalls(log: seq<Tsl>, history: seq<Tsl>, lastTime: int) {
    && Increasing(log) && IsSuffix(log, history)
    && (log != [] ==> lastTime == log[|log| - 1].time)
  }

  /** A sector in use that has room for an entry, maybe its first. */
  ghost predicate ReadyFor(s: Sector, secSize: nat, time: int, len: nat) {
    && s.store == Using && s.end == None && Remain(secSize, s.log) >= LOG_IDX_SIZE + len
    && s.startTime == Some(if s.log == [] then time else s.log[0].time)
  }

  class TsDb {
    const secSize: nat
    const maxLen: nat
    const flash: TsFlash
    var rollover: bool
    var secs: seq<Sector>
    var oldest: nat
    var cur: SectorInfo
    var lastTime: int
    /** Every entry ever accepted. */
    ghost var history: seq<Tsl>

    ghost predicate Shaped()
      reads this, flash.sectors
    {
      && |secs| >= 1 && oldest < |secs| && cur.addr < |secs|
      && SECTOR_HDR_SIZE + LOG_IDX_SIZE + maxLen <= secSize < SECTOR_LIMIT && lastTime >= 0 && OnFlash()
    }

    /** The bytes of every sector are those of its header, its entries and erased flash. */
    ghost predicate OnFlash()
      reads this, flash.sectors
    {
      flash.secSize == secSize && |flash.sectors| == |secs| && flash.HoldsAll(secs)
    }

    /** The log, oldest entry first. */
    ghost function Log(): seq<Tsl>
      requires oldest < |secs|
      reads this
    {
      Contents(secs, oldest)
    }

    ghost predicate Remembers()
      requires oldest < |secs|
      reads this
    {
      Recalls(Log(), history, lastTime)
    }

    ghost predicate Sane()
      reads this, flash.sectors
    {
      && Shaped() && Ring(secSize, secs, oldest, cur.addr)
      && InfoAgrees(cur, secSize, secs[cur.addr]) && Remembers()
    }

    /** And each sector was left only when it had no room for the first entry of the next, so that nothing is missing
        from the log before all sectors are as full as that. */
    ghost predicate Valid()
      reads this, flash.sectors
    {
      Sane() && HoldsGroups(secSize, secs, oldest, cur.addr, history)
    }

    constructor (medium: Medium, secSize: nat, secNum: nat, maxLen: nat)
      requires secNum >= 1 && SECTOR_HDR_SIZE + LOG_IDX_SIZE + maxLen <= secSize < SECTOR_LIMIT
      ensures Valid() && Log() == [] && history == [] && fresh(flash.sectors)
      ensures this.secSize == secSize && this.maxLen == maxLen && |secs| == secNum && rollover && lastTime == 0
          && cur.status == Empty
    {
      this.secSize, this.maxLen, rollover := secSize, maxLen, true;
      flash := new TsFlash(medium, secSize, secNum);
      secs := seq(secNum, _ => EMPTY_SECTOR);
      oldest, lastTime, history := 0, 0, [];
      cur := SectorInfo(0, Empty, None, 0, 0, SECTOR_HDR_SIZE, secSize, secSize - SECTOR_HDR_SIZE);
      new;
      NothingInEmpty(Order(secs, 0));
    }

    // ---- Appending ----

    /** Is the current sector in use and without room for a blob of this size? */
    ghost predicate TooFull(len: nat)
      requires cur.addr < |secs|
      reads this
    {
      secs[cur.addr].store == Using && !HasRoomFor(secSize, secs[cur.addr].log, len)
    }

    /** Does moving on give up the oldest sector? */
    ghost predicate MustReclaim(len: nat)
      requires oldest < |secs| && cur.addr < |secs|
      reads this
    {
      TooFull(len) && Place(|secs|, oldest, cur.addr) + 1 == |secs|
    }

    /** Is there nowhere to go? */
    ghost predicate NowhereToGo(len: nat)
      requires cur.addr < |secs|
      reads this
    {
      secs[cur.addr].store == Full || (TooFull(len) && cur.addr + 1 >= |secs| && !rollover)
    }

    /** What remains of the log when room is made for a blob of this size: all of it, or all but the entries
        of the oldest sector. */
    ghost function Kept(len: nat): seq<Tsl>
      requires oldest < |secs| && cur.addr < |secs| && |secs[oldest].log| <= |Log()|
      reads this
    {
      if MustReclaim(len) then Log()[|secs[oldest].log|..] else Log()
    }

    /** Write the end of the current sector into its header and mark it full. */
    method CloseSector()
      requires Valid() && cur.status == Using
      modifies this`secs, this`cur, flash.sectors
      ensures Shaped() && Around(secSize, secs, oldest, cur.addr) && FullSector(secSize, secs[cur.addr])
      ensures |secs| == old(|secs|) && Log() == old(Log())
      ensures cur == old(cur).(status := Full) && InfoAgrees(cur, secSize, secs[cur.addr])
      ensures forall i :: 0 <= i < |secs| ==> secs[i].log == old(secs)[i].log
    {
      hide TsFlash.HoldsAll, Contents, Around;
      ghost var c, s := cur.addr, secs[cur.addr];
      var closed := secs[cur.addr].(store := Full, end := Some(EndInfo(lastTime, cur.emptyIdx - LOG_IDX_SIZE)));
      AroundContents(secSize, secs, oldest, c);
      LastOfLog(secs, oldest, c, secSize);
      AroundUpdate(secSize, secs, oldest, c, closed);
      flash.LastEntryStorable(secs, c);
      flash.Close(cur.addr, EndInfo(lastTime, cur.emptyIdx - LOG_IDX_SIZE), secs);
      secs := secs[cur.addr := closed];
      cur := cur.(status := Full);
    }

    /** Read a slot of the index of a sector: an entry, or nothing behind the last one. */
    method ReadSlot(i: nat, k: nat) returns (r: Option<Tsl>)
      requires OnFlash() && i < |secs| && k <= |secs[i].log|
      requires k == |secs[i].log| ==> Remain(secSize, secs[i].log) > 0
      ensures r == if k < |secs[i].log| then Some(secs[i].log[k]) else None
    {
      hide TsFlash.HoldsAll, DataBytes;
      r := flash.ReadSlot(i, k, maxLen, secs);
    }

    /** Walk the entries of a sector in use. The walk ends at the first erased slot, or when no space is left;
        it never takes data for an entry. */
    method WalkEntries(i: nat, info: SectorInfo) returns (r: SectorInfo)
      requires OnFlash() && i < |secs| && secSize > SECTOR_HDR_SIZE && Remain(secSize, secs[i].log) >= 0
      requires info.status == secs[i].store && info.startTime == secs[i].startTime
      requires SpaceAgrees(info, secSize, secs[i].(log := []))
      ensures r.addr == info.addr && r.startTime == info.startTime && InfoAgrees(r, secSize, secs[i])
    {
      hide OnFlash;
      ghost var s := secs[i];
      r := info;
      var k := 0;
      assert s.log[..0] == [];
      while true
        invariant 0 <= k <= |s.log| && r.remain > 0
        invariant r.addr == info.addr && r.status == info.status && r.startTime == info.startTime
        invariant SpaceAgrees(r, secSize, s.(log := s.log[..k]))
        invariant k > 0 ==> r.endTime == s.log[k - 1].time && r.endIdx == IndexAt(k - 1)
        decreases |s.log| - k
      {
        assert k == |s.log| ==> s.log[..k] == s.log;
        var slot := ReadSlot(i, k);
        if slot.None? {
          break;
        }
        var t := slot.value;
        RemainAfter(secSize, s.log, k);
        r := r.(endTime := t.time, endIdx := IndexAt(k), emptyIdx := r.emptyIdx + LOG_IDX_SIZE,
                emptyData := r.emptyData - |t.blob|);
        k := k + 1;
        if r.remain > LOG_IDX_SIZE + |t.blob| {
          r := r.(remain := r.remain - (LOG_IDX_SIZE + |t.blob|));
        } else {
          r := r.(remain := 0);
          break;
        }
      }
      assert s.log[..k] == s.log;
    }

    /** Read a sector's header; with `traversal`, also walk the entries of a sector in use. What the header
        does not say is left as it was in `info`. */
    method ReadSectorInfo(i: nat, traversal: bool, info: SectorInfo) returns (r: SectorInfo)
      requires OnFlash() && i < |secs|
      requires secSize > SECTOR_HDR_SIZE && (traversal && secs[i].store == Using ==> Remain(secSize, secs[i].log) >= 0)
      ensures r.addr == i && r.status == secs[i].store && r.startTime == secs[i].startTime
      ensures secs[i].store == Full && secs[i].end.Some? ==>
                r.endTime == secs[i].end.value.time && r.endIdx == secs[i].end.value.index
      ensures secs[i].log == [] ==> SpaceAgrees(r, secSize, secs[i])
      ensures traversal && secs[i].store == Using ==> InfoAgrees(r, secSize, secs[i])
    {
      hide TsFlash.HoldsAll;
      var checkOk, store, start, end := flash.ReadHeader(i, secs);
      r := info.(addr := i, status := store, startTime := start,
                 emptyIdx := SECTOR_HDR_SIZE, emptyData := secSize, remain := secSize - SECTOR_HDR_SIZE);
      if end.Some? {
        r := r.(endTime := end.value.time, endIdx := end.value.index);
      }
      if store == Using && traversal {
        r := WalkEntries(i, r);
      }
    }

    /** Make the next sector the current one; unless it is empty, it is the oldest and is erased first. */
    method OpenSector(i: nat)
      requires Shaped() && Around(secSize, secs, oldest, cur.addr) && FullSector(secSize, secs[cur.addr])
      requires i == Next(|secs|, cur.addr) && (i == 0 ==> Place(|secs|, oldest, cur.addr) + 1 == |secs|)
      modifies this`secs, this`oldest, this`cur, flash.sectors
      ensures Shaped() && |secs| == old(|secs|) && cur.addr == i
      ensures Around(secSize, secs, oldest, i) && secs[i] == EMPTY_SECTOR && SpaceAgrees(cur, secSize, EMPTY_SECTOR)
      ensures old(|secs[oldest].log| <= |Log()|)
      ensures Log() == if old(Place(|secs|, oldest, cur.addr) + 1 == |secs|) then old(Log()[|secs[oldest].log|..])
          else old(Log())
      ensures oldest == old(if Place(|secs|, oldest, cur.addr) + 1 == |secs| then Next(|secs|, oldest) else oldest)
      ensures SameLogsBut(old(secs), secs, i)
    {
      hide TsFlash.HoldsAll, Contents, Around;
      var c, n := cur.addr, |secs|;
      OldestIsInLog(secs, oldest);
      if Place(n, oldest, c) + 1 < n {
        AroundNext(secSize, secs, oldest, c);
      } else {
        AroundReclaims(secSize, secs, oldest, c);
      }
      cur := ReadSectorInfo(i, false, cur);
      if cur.status != Empty {
        oldest := if i + 1 < |secs| then i + 1 else 0;
        flash.Format(i, secs);
        secs := secs[i := EMPTY_SECTOR];
        cur := ReadSectorInfo(i, false, cur);
      }
    }

    /** Mark the current, empty sector as in use from `time` on. */
    method StartSector(time: int)
      requires Shaped() && Around(secSize, secs, oldest, cur.addr)
      requires secs[cur.addr] == EMPTY_SECTOR && SpaceAgrees(cur, secSize, EMPTY_SECTOR)
      requires 0 < time < TIME_LIMIT
      modifies this`secs, this`cur, flash.sectors
      ensures Shaped() && |secs| == old(|secs|) && cur.addr == old(cur.addr)
      ensures Around(secSize, secs, oldest, cur.addr) && SpaceAgrees(cur, secSize, secs[cur.addr])
      ensures secs[cur.addr] == Sector(Using, Some(time), None, []) && cur.startTime == Some(time)
      ensures Log() == old(Log()) && SameLogsBut(old(secs), secs, cur.addr)
    {
      hide TsFlash.HoldsAll, Contents, Around;
      AroundContents(secSize, secs, oldest, cur.addr);
      AroundUpdate(secSize, secs, oldest, cur.addr, Sector(Using, Some(time), None, []));
      flash.Start(cur.addr, time, secs);
      cur := cur.(status := Using, startTime := Some(time));
      secs := secs[cur.addr := Sector(Using, Some(time), None, [])];
    }

    /** Close the current sector and open the next one, if there is one to go to. */
    method MoveOn() returns (error: Error)
      requires Valid() && cur.status == Using
      modifies this`secs, this`oldest, this`cur, flash.sectors
      ensures Shaped() && |secs| == old(|secs|) && old(|secs[oldest].log| <= |Log()|)
      ensures error == if old(cur.addr + 1 >= |secs| && !rollover) then SavedFull else NoError
      ensures error == SavedFull ==> Valid() && Log() == old(Log())
      ensures error == NoError ==>
                && Around(secSize, secs, oldest, cur.addr) && secs[cur.addr] == EMPTY_SECTOR
                && SpaceAgrees(cur, secSize, EMPTY_SECTOR)
                && Opened(old(secs), old(oldest), old(cur.addr), secs, oldest, cur.addr)
                && Log() == if old(Place(|secs|, oldest, cur.addr) + 1 == |secs|) then old(Log()[|secs[oldest].log|..])
                            else old(Log())
    {
      hide TsFlash.HoldsAll, Contents, Around, HoldsGroups, UsingSector, DataBytes;
      OldestIsInLog(secs, oldest);
      ghost var was := cur.addr;
      CloseSector();
      var i;
      if cur.addr + 1 < |secs| {
        i := cur.addr + 1;
      } else if rollover {
        i := 0;
        LastPlace(secSize, secs, oldest, cur.addr);
      } else {
        LastPlace(secSize, secs, oldest, cur.addr);
        SameLogsHold(secSize, old(secs), oldest, was, history, secs);
        return SavedFull;
      }
      OpenSector(i);
      error := NoError;
    }

    /** Have a current sector that can take an entry with a blob of this size, or find the database full. */
    method UpdateSecStatus(len: nat, time: int) returns (error: Error)
      requires Valid() && len <= maxLen && 0 < time < TIME_LIMIT
      modifies this`secs, this`oldest, this`cur, flash.sectors
      ensures Shaped() && |secs| == old(|secs|) && old(|secs[oldest].log| <= |Log()|)
      ensures error == if old(NowhereToGo(len)) then SavedFull else NoError
      ensures error == SavedFull ==> Valid() && Log() == old(Log())
      ensures error == NoError ==>
                && Around(secSize, secs, oldest, cur.addr) && ReadyFor(secs[cur.addr], secSize, time, len)
                && SpaceAgrees(cur, secSize, secs[cur.addr]) && cur.startTime == secs[cur.addr].startTime
                && Log() == old(Kept(len))
      ensures error == NoError ==>
                MadeRoom(secSize, old(secs), old(oldest), old(cur.addr), len, secs, oldest, cur.addr)
    {
      hide TsFlash.HoldsAll, Contents, Around, FullSector, HoldsGroups, Place, DataBytes, Opened, SameLogsBut;
      OldestIsInLog(secs, oldest);
      NothingOpened(secs, cur.addr);
      RemainOfNone(secSize);
      if cur.status == Using && cur.remain < LOG_IDX_SIZE + len {
        error := MoveOn();
        if error == SavedFull {
          return;
        }
      } else if cur.status == Full {
        return SavedFull;
      }
      if cur.status == Empty {
        ghost var next, c := secs, cur.addr;
        StartSector(time);
        StartKeepsRoom(secSize, old(secs), old(oldest), old(cur.addr), len, next, oldest, c, secs);
      }
      error := NoError;
    }

    /** Lay an entry down in the current sector. */
    method WriteTsl(t: Tsl)
      requires Shaped() && Around(secSize, secs, oldest, cur.addr)
      requires ReadyFor(secs[cur.addr], secSize, t.time, |t.blob|) && SpaceAgrees(cur, secSize, secs[cur.addr])
      requires Storable(t)
      modifies this`secs, flash.sectors
      ensures Shaped() && |secs| == old(|secs|) && Around(secSize, secs, oldest, cur.addr)
      ensures secs[cur.addr] == old(secs[cur.addr]).(log := old(secs[cur.addr]).log + [t])
      ensures UsingSector(secSize, secs[cur.addr])
      ensures Log() == old(Log()) + [t] && SameLogsBut(old(secs), secs, cur.addr)
    {
      hide TsFlash.HoldsAll, Contents, Around;
      AroundContents(secSize, secs, oldest, cur.addr);
      DataBytesAppend(secs[cur.addr].log, t);
      var s := secs[cur.addr].(log := secs[cur.addr].log + [t]);
      AroundUpdate(secSize, secs, oldest, cur.addr, s);
      flash.WriteEntry(cur.addr, cur.emptyIdx, cur.emptyData, t, secs);
      secs := secs[cur.addr := s];
    }

    /** Append an entry. It is refused if it is too long or not later than the last one, or if the database
        is full. Otherwise it goes behind the others; and if the log has to move on to the oldest sector, the
        entries there are dropped, and no others. */
    method Append(time: int, blob: Bytes) returns (error: Error)
      requires Valid() && time < TIME_LIMIT
      modifies this, flash.sectors
      ensures Valid() && |secs| == old(|secs|) && rollover == old(rollover) && old(|secs[oldest].log| <= |Log()|)
      ensures error == if |blob| > maxLen || time <= old(lastTime) then WriteError
                       else if old(NowhereToGo(|blob|)) then SavedFull else NoError
      ensures error == NoError ==>
                Log() == old(Kept(|blob|)) + [Tsl(time, blob)] && history == old(history) + [Tsl(time, blob)]
      ensures error == NoError ==>
                Placed(secSize, old(secs), old(oldest), old(cur.addr), Tsl(time, blob), secs, oldest, cur.addr)
      ensures error == NoError && old(secs[cur.addr].store == Using
                                      && Remain(secSize, secs[cur.addr].log) >= LOG_IDX_SIZE + |blob|) ==>
                && cur.addr == old(cur.addr) && Log() == old(Log()) + [Tsl(time, blob)]
                && secs[cur.addr].log == old(secs[cur.addr].log) + [Tsl(time, blob)]
      ensures error == NoError ==> cur.status == Using
      ensures error != NoError ==> Log() == old(Log()) && history == old(history) && lastTime == old(lastTime)
      ensures error == WriteError ==> cur == old(cur)
    {
      hide TsFlash.HoldsAll, Ring, Around, InfoAgrees, SpaceAgrees, ReadyFor, Increasing, IsSuffix, Contents,
        NowhereToGo, HoldsGroups, DataBytes;
      OldestIsInLog(secs, oldest);
      if |blob| > maxLen {
        return WriteError;
      }
      if time <= lastTime {
        return WriteError;
      }
      error := Enter(Tsl(time, blob));
      if error == NoError {
        PlacedHolds(secSize, old(secs), old(oldest), old(cur.addr), old(history), Tsl(time, blob), secs, oldest,
                    cur.addr);
      }
    }

    /** Find room for an entry and lay it down there. */
    method Enter(t: Tsl) returns (error: Error)
      requires Valid() && |t.blob| <= maxLen && lastTime < t.time < TIME_LIMIT
      modifies this, flash.sectors
      ensures Sane() && |secs| == old(|secs|) && rollover == old(rollover) && old(|secs[oldest].log| <= |Log()|)
      ensures error == if old(NowhereToGo(|t.blob|)) then SavedFull else NoError
      ensures error == NoError ==>
                && Log() == old(Kept(|t.blob|)) + [t] && history == old(history) + [t] && cur.status == Using
                && old(secs[cur.addr].store) != Full
                && Placed(secSize, old(secs), old(oldest), old(cur.addr), t, secs, oldest, cur.addr)
      ensures error != NoError ==>
                Valid() && Log() == old(Log()) && history == old(history) && lastTime == old(lastTime)
    {
      hide TsFlash.HoldsAll, Ring, Around, InfoAgrees, SpaceAgrees, ReadyFor, Increasing, IsSuffix, Contents,
        HoldsGroups, MadeRoom, Placed, SameLogsBut, Remain, Recalls, TooFull, MustReclaim;
      OldestIsInLog(secs, oldest);
      KeptIsSuffix(Log(), history, lastTime, |secs[oldest].log|);
      assert Recalls(Kept(|t.blob|), history, lastTime);
      hide Kept;
      error := UpdateSecStatus(|t.blob|, t.time);
      if error == NoError {
        ghost var ready, from := secs, cur.addr;
        Store(t);
        RoomIsTaken(secSize, old(secs), old(oldest), old(cur.addr), t, ready, oldest, from, secs);
      }
    }

    /** Lay an entry down and move the cursor behind it. */
    method Store(t: Tsl)
      requires Shaped() && Around(secSize, secs, oldest, cur.addr) && Remembers() && lastTime < t.time
      requires ReadyFor(secs[cur.addr], secSize, t.time, |t.blob|) && Storable(t)
      requires SpaceAgrees(cur, secSize, secs[cur.addr]) && cur.startTime == secs[cur.addr].startTime
      modifies this`secs, this`cur, this`lastTime, this`history, flash.sectors
      ensures Sane() && |secs| == old(|secs|) && cur.status == Using && cur.addr == old(cur.addr)
      ensures Log() == old(Log()) + [t] && history == old(history) + [t]
      ensures SameLogsBut(old(secs), secs, cur.addr) && secs[cur.addr].store == Using
      ensures secs[cur.addr].log == old(secs[cur.addr].log) + [t]
    {
      hide TsFlash.HoldsAll, Ring, Around, UsingSector, ReadyFor, Increasing, IsSuffix, Contents, DataBytes,
        HoldsGroups, SpaceAgrees, InfoAgrees, Storable, SameLogsBut, Recalls;
      GrowsInOrder(Log(), history, lastTime, t);
      InfoAfterWrite(cur, secSize, secs[cur.addr], t);
      WriteTsl(t);
      UsingIsRing(secSize, secs, oldest, cur.addr);
      cur := cur.(endIdx := cur.emptyIdx, endTime := t.time, emptyIdx := cur.emptyIdx + LOG_IDX_SIZE,
                  emptyData := cur.emptyData - |t.blob|, remain := cur.remain - (LOG_IDX_SIZE + |t.blob|));
      lastTime := t.time;
      history := history + [t];
    }

    // ---- Starting again ----

    /** Is there an empty sector? */
    ghost predicate HasEmpty()
      requires oldest < |secs| && cur.addr < |secs|
      reads this
    {
      cur.status == Empty || Place(|secs|, oldest, cur.addr) + 1 < |secs|
    }

    /** Look at all sectors for the place to go on: the one in use, or else the first empty one; and for the last
        empty one. */
    method CheckSectors() returns (ok: bool, first: Option<SectorInfo>, empties: nat, emptyAddr: nat)
      requires Valid()
      ensures ok && if cur.status == Full then first == None else first.Some? && first.value.addr == cur.addr
      ensures empties > 0 <==> HasEmpty()
      ensures HasEmpty() ==> emptyAddr == |secs| - 1
    {
      hide TsFlash.HoldsAll, Contents, Around, Increasing, IsSuffix, FullSector;
      ghost var c, isFull, from := cur.addr, cur.status == Full, if cur.status == Empty then cur.addr else cur.addr + 1;
      ok, first, empties, emptyAddr := true, None, 0, 0;
      var info := cur;
      UsingHasRoom(secSize, secs, oldest, c);
      for i := 0 to |secs|
        invariant ok && (if i <= c || isFull then first == None else first.Some? && first.value.addr == c)
        invariant if i <= from || !HasEmpty() then empties == 0 else empties > 0 && emptyAddr == i - 1
      {
        KindByNumber(secSize, secs, oldest, c, i);
        info := ReadSectorInfo(i, true, info);
        if info.status == Using {
          if first.None? {
            first := Some(info);
          } else {
            ok := false;
          }
        } else if info.status == Empty {
          empties, emptyAddr := empties + 1, i;
          if empties == 1 && first.None? {
            first := Some(info);
          }
        }
      }
      if HasEmpty() {
        EmptyAtEnd(secSize, secs, oldest, c);
      }
    }

    /** Find the place to go on from what is on flash: the sector in use, or else the first empty one; and
        behind the last empty sector, or else behind the one in use, the oldest one. Exactly if the database is
        not full, this finds the cursor, the oldest sector and the last time there were; in a full one it finds
        no place at all. */
    method Reopen() returns (ok: bool, found: bool)
      requires Valid()
      modifies this`cur, this`oldest, this`lastTime, this`rollover
      ensures ok && rollover && (found <==> old(cur.status) != Full)
      ensures found ==> Valid() && cur.addr == old(cur.addr) && oldest == old(oldest) && lastTime == old(lastTime)
      ensures found && old(cur.status) == Using ==> cur == old(cur)
    {
      hide TsFlash.HoldsAll, Contents, Around, Increasing, IsSuffix, FullSector, HoldsGroups, DataBytes;
      ghost var c := cur.addr;
      UsingHasRoom(secSize, secs, oldest, c);
      if secs[c].store == Using {
        LastOfLog(secs, oldest, c, secSize);
      }
      var first, empties, emptyAddr;
      ok, first, empties, emptyAddr := CheckSectors();
      OldestByNumber(secSize, secs, oldest, c);
      rollover := true;
      found := first.Some?;
      if found {
        var latest: nat := if empties > 0 then emptyAddr else first.value.addr;
        oldest := if latest + 1 >= |secs| then 0 else latest + 1;
        cur := ReadSectorInfo(first.value.addr, true, first.value);
        if cur.status == Using {
          lastTime := cur.endTime;
        }
      }
    }
  }

  lemma InfoAfterWrite(info: SectorInfo, secSize: nat, s: Sector, t: Tsl)
    requires SpaceAgrees(info, secSize, s) && info.startTime == s.startTime
    ensures InfoAgrees(
              info.(endIdx := info.emptyIdx, endTime := t.time, emptyIdx := info.emptyIdx + LOG_IDX_SIZE,
                    emptyData := info.emptyData - |t.blob|, remain := info.remain - (LOG_IDX_SIZE + |t.blob|)),
              secSize, s.(log := s.log + [t]))
    ensures info.status == s.store
  {
    DataBytesAppend(s.log, t);
  }

  lemma RemainOfNone(secSize: nat)
    ensures Remain(secSize, []) == secSize - SECTOR_HDR_SIZE
  {
  }

  lemma EmptyAtEnd(secSize: nat, secs: seq<Sector>, oldest: nat, c: nat)
    requires Ring(secSize, secs, oldest, c) && (secs[c].store == Empty || Place(|secs|, oldest, c) + 1 < |secs|)
    ensures (if secs[c].store == Empty then c else c + 1) < |secs|
  {
  }

  /** Every entry behind the `k`-th takes space, too. */
  lemma {:induction false} RemainAfter(secSize: nat, log: seq<Tsl>, k: nat)
    requires k <= |log|
    ensures k < |log| ==> Remain(secSize, log[..k + 1]) == Remain(secSize, log[..k]) - LOG_IDX_SIZE - |log[k].blob|
    ensures k < |log| ==> Remain(secSize, log[..k + 1]) >= Remain(secSize, log) + LOG_IDX_SIZE * (|log| - k - 1)
  {
    if k < |log| {
      DataBytesNext(log, k);
      DataBytesPrefix(log, k + 1);
    }
  }

  lemma LastOfLog(secs: seq<Sector>, oldest: nat, c: nat, secSize: nat)
    requires Around(secSize, secs, oldest, c) && secs[c].log != []
    ensures var log := Contents(secs, oldest); log != [] && log[|log| - 1] == secs[c].log[|secs[c].log| - 1]
  {
    AroundContents(secSize, secs, oldest, c);
  }

  /** With the first sector next, the current one is the last in the order. */
  lemma LastPlace(secSize: nat, secs: seq<Sector>, oldest: nat, c: nat)
    requires Around(secSize, secs, oldest, c) && c + 1 == |secs|
    ensures Place(|secs|, oldest, c) + 1 == |secs| && oldest == 0
  {
  }

  lemma OldestIsInLog(secs: seq<Sector>, oldest: nat)
    requires oldest < |secs|
    ensures |secs[oldest].log| <= |Contents(secs, oldest)|
  {
    DropFirstLog(Order(secs, oldest));
  }

  lemma UsingIsRing(secSize: nat, secs: seq<Sector>, oldest: nat, c: nat)
    requires Around(secSize, secs, oldest, c) && UsingSector(secSize, secs[c])
    ensures Ring(secSize, secs, oldest, c)
    ensures secs[c].store == Using && secs[c].startTime == Some(secs[c].log[0].time) && secs[c].log != []
  {
  }

  lemma KeptIsSuffix(log: seq<Tsl>, history: seq<Tsl>, lastTime: int, k: nat)
    requires k <= |log| && Recalls(log, history, lastTime)
    ensures Recalls(log[k..], history, lastTime)
  {
    IncreasingPart(log, k, |log|);
  }

  lemma GrowsInOrder(log: seq<Tsl>, history: seq<Tsl>, lastTime: int, t: Tsl)
    requires Recalls(log, history, lastTime) && lastTime < t.time
    ensures Recalls(log + [t], history + [t], t.time)
  {
    IncreasingAppend(log, t);
  }

  lemma UsingHasRoom(secSize: nat, secs: seq<Sector>, oldest: nat, c: nat)
    requires Ring(secSize, secs, oldest, c)
    ensures forall i :: 0 <= i < |secs| && secs[i].store == Using ==> Remain(secSize, secs[i].log) >= 0
  {
    forall i | 0 <= i < |secs| && secs[i].store == Using ensures Remain(secSize, secs[i].log) >= 0 {
      KindOfSector(secSize, secs, oldest, c, i);
    }
  }

  /** The oldest sector is behind the one in use once the log has gone around, and else the first one. */
  lemma OldestByNumber(secSize: nat, secs: seq<Sector>, oldest: nat, c: nat)
    requires Around(secSize, secs, oldest, c)
    ensures Place(|secs|, oldest, c) + 1 == |secs| ==> oldest == if c + 1 >= |secs| then 0 else c + 1
    ensures Place(|secs|, oldest, c) + 1 < |secs| ==> oldest == 0 && c + 1 < |secs|
  {
  }
}
