/** Runs of appends to a time series database. */
module TsRuns {
  import opened TsLog
  import opened TsPacking
  import opened TsDbs
  import opened TsFlashes
  import opened StatusTable
  import opened Wrappers

  function LastTime(log: seq<Tsl>): int { if log == [] then 0 else log[|log| - 1].time }

  /** What a run of appends accepts: blobs that are not too long, each later than the last one accepted. */
  function Accepted(appends: seq<Tsl>, maxLen: nat): seq<Tsl> {
    if appends == [] then []
    else
      var before, t := Accepted(appends[..|appends| - 1], maxLen), appends[|appends| - 1];
      if |t.blob| <= maxLen && LastTime(before) < t.time then before + [t] else before
  }

  lemma AcceptedNext(appends: seq<Tsl>, maxLen: nat, i: nat)
    requires i < |appends|
    ensures var before, t := Accepted(appends[..i], maxLen), appends[i];
            Accepted(appends[..i + 1], maxLen) ==
            if |t.blob| <= maxLen && LastTime(before) < t.time then before + [t] else before
  {
    assert appends[..i + 1][..i] == appends[..i];
  }

  lemma SuffixLastTime(log: seq<Tsl>, all: seq<Tsl>)
    requires IsSuffix(log, all) && log != []
    ensures LastTime(log) == LastTime(all)
  {
  }

  /** A database with rollover that has not become full, and that has a log as soon as anything was accepted. */
  ghost predicate Running(db: TsDb)
    reads db, db.flash.sectors
  {
    && db.Valid() && db.rollover && db.cur.status != Full
    && if db.history == [] then db.Log() == [] && db.lastTime == 0 else db.Log() != []
  }

  method Take(db: TsDb, t: Tsl)
    requires Running(db) && t.time < TIME_LIMIT
    modifies db, db.flash.sectors
    ensures Running(db) && |db.secs| == old(|db.secs|)
    ensures db.history == if |t.blob| <= db.maxLen && LastTime(old(db.history)) < t.time then old(db.history) + [t]
                          else old(db.history)
  {
    hide Pack, HoldsGroups, Placed, Ring, Contents, TsDb.OnFlash, TsDb.TooFull, DataBytes, TsDb.Kept;
    if db.Log() != [] {
      SuffixLastTime(db.Log(), db.history);
    }
    var error := db.Append(t.time, t.blob);
  }

  /** After any run of appends, with rollover, the log is an end of everything accepted, in time order; and
      the entry accepted last is always in it. Entries share a sector as long as there is room, and the log is as
      many of the last such groups as there are sectors: nothing is given up before that. */
  method Replay(medium: Medium, secSize: nat, secNum: nat, maxLen: nat, appends: seq<Tsl>)
    returns (db: TsDb)
    requires secNum >= 1 && SECTOR_HDR_SIZE + LOG_IDX_SIZE + maxLen <= secSize < SECTOR_LIMIT
    requires forall i :: 0 <= i < |appends| ==> appends[i].time < TIME_LIMIT
    ensures fresh(db) && fresh(db.flash.sectors) && db.Valid()
    ensures |db.flash.sectors| == |db.secs| == secNum
    ensures forall i :: 0 <= i < secNum ==> HoldsSector(db.flash.sectors[i][..], db.secs[i])
    ensures var all := Accepted(appends, maxLen);
            && IsSuffix(db.Log(), all) && Increasing(db.Log())
            && (all != [] ==> db.Log() != [] && db.Log()[|db.Log()| - 1] == all[|all| - 1])
    ensures var groups := Pack(secSize, Accepted(appends, maxLen));
            && Tight(secSize, groups) && Flatten(groups) == Accepted(appends, maxLen)
            && db.Log() == Flatten(LastGroups(groups, secNum))
  {
    hide Pack, Tight, Flatten, LastGroups, HoldsGroups, Increasing, Ring, InfoAgrees, Contents, HoldsSector, LastTime;
    db := new TsDb(medium, secSize, secNum, maxLen);
    assert appends[..0] == [] && Accepted([], maxLen) == [];
    hide Accepted;
    for i := 0 to |appends|
      invariant fresh(db) && fresh(db.flash.sectors) && |db.secs| == secNum && Running(db)
      invariant db.history == Accepted(appends[..i], maxLen)
    {
      AcceptedNext(appends, maxLen, i);
      Take(db, appends[i]);
    }
    assert appends[..|appends|] == appends;
    GroupsOfRun(db);
    AcceptedFit(appends, maxLen);
    PackTight(secSize, Accepted(appends, maxLen));
    if db.Log() != [] {
      SuffixLastTime(db.Log(), db.history);
    }
  }

  lemma {:induction false} AcceptedFit(appends: seq<Tsl>, maxLen: nat)
    ensures forall i :: 0 <= i < |Accepted(appends, maxLen)| ==> |Accepted(appends, maxLen)[i].blob| <= maxLen
  {
    if appends != [] {
      AcceptedFit(appends[..|appends| - 1], maxLen);
    }
  }

  lemma GroupsOfRun(db: TsDb)
    requires db.Valid()
    ensures db.Log() == Flatten(LastGroups(Pack(db.secSize, db.history), |db.secs|))
  {
    hide HoldsGroups, InfoAgrees, Around, Contents, Pack, Flatten, LastGroups, Increasing;
    LogIsLastGroups(db.secSize, db.secs, db.oldest, db.cur.addr, db.history);
  }

  /** The length that is checked on an append is enough to keep index and data apart exactly when a sector
      can take the longest blob besides its header and one index entry; the room in an empty sector itself is
      never checked. */
  lemma FirstEntryFitsExactly(secSize: nat, maxLen: nat, time: int)
    ensures (forall b: Bytes :: |b| <= maxLen ==> Remain(secSize, [Tsl(time, b)]) >= 0)
            <==> SECTOR_HDR_SIZE + LOG_IDX_SIZE + maxLen <= secSize
  {
    forall b: Bytes ensures Remain(secSize, [Tsl(time, b)]) == secSize - |b| - IndexAt(1) {
      DataBytesAppend([], Tsl(time, b));
      assert [] + [Tsl(time, b)] == [Tsl(time, b)];
    }
    var longest: Bytes := seq(maxLen, _ => 0);
    assert |longest| == maxLen;
  }
}
