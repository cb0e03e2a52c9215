/** Iterating over the live records of a database, one call at a time. */
module KvIterators {
  import opened KvStore
  import opened KvCollect
  import opened Wrappers

  predicate IsLive(r: Record) { r.status == Written && r.crcOk }

  /** The live records of sector `i` from position `j` on. */
  function LiveInSector(db: Db, i: nat, j: nat): (s: seq<Address>)
    requires i < |db.secs|
    decreases |db.secs[i].recs| - j
  {
    if j >= |db.secs[i].recs| then []
    else (if IsLive(db.secs[i].recs[j]) then [Address(i, j)] else []) + LiveInSector(db, i, j + 1)
  }

  /** The live records of the sectors from the `k`-th in scan order on. */
  function LiveFrom(db: Db, k: nat): (s: seq<Address>)
    requires db.oldest < |db.secs| && k <= |db.secs|
    decreases |db.secs| - k
  {
    if k == |db.secs| then [] else LiveInSector(db, db.SectorAt(k), 0) + LiveFrom(db, k + 1)
  }

  /** A sector is empty exactly when it holds no records. */
  ghost predicate Filled(db: Db) {
    && db.oldest < |db.secs|
    && forall i :: 0 <= i < |db.secs| ==> (db.secs[i].store == Empty <==> db.secs[i].recs == [])
  }

  // ---- What an iteration over everything visits ----

  /** `a` comes before `b`: in an older sector, or earlier in the same one. */
  predicate Before(db: Db, a: Address, b: Address)
    requires db.oldest < |db.secs|
  {
    && a.sector < |db.secs| && b.sector < |db.secs|
    && (ScanIndex(db, a.sector) < ScanIndex(db, b.sector) || (a.sector == b.sector && a.pos < b.pos))
  }

  ghost predicate InOrder(db: Db, s: seq<Address>)
    requires db.oldest < |db.secs|
  {
    forall i, j :: 0 <= i < j < |s| ==> Before(db, s[i], s[j])
  }

  lemma {:induction false} LiveInSectorExactly(db: Db, i: nat, j: nat)
    requires db.oldest < |db.secs| && i < |db.secs|
    ensures forall a :: a in LiveInSector(db, i, j) <==>
                          a.sector == i && j <= a.pos < |db.secs[i].recs| && IsLive(db.secs[i].recs[a.pos])
    ensures InOrder(db, LiveInSector(db, i, j))
    decreases |db.secs[i].recs| - j
  {
    if j < |db.secs[i].recs| {
      LiveInSectorExactly(db, i, j + 1);
      var rest := LiveInSector(db, i, j + 1);
      forall l | 0 <= l < |rest| ensures Before(db, Address(i, j), rest[l]) {
        assert rest[l] in rest;
      }
    }
  }

  lemma InOrderConcat(db: Db, s: seq<Address>, t: seq<Address>)
    requires db.oldest < |db.secs| && InOrder(db, s) && InOrder(db, t)
    requires forall a, b :: a in s && b in t ==> Before(db, a, b)
    ensures InOrder(db, s + t)
  {
    hide Before;
    forall i, j | 0 <= i < j < |s + t| ensures Before(db, (s + t)[i], (s + t)[j]) {
      if i < |s| <= j {
        assert s[i] in s && t[j - |s|] in t;
      }
    }
  }

  /** The iteration visits the live records, all of them and nothing else, each once, in order. */
  lemma {:induction false} LiveFromExactly(db: Db, k: nat)
    requires db.oldest < |db.secs| && k <= |db.secs|
    ensures forall a :: a in LiveFrom(db, k) <==>
                          db.HasRecord(a) && IsLive(db.RecordAt(a)) && ScanIndex(db, a.sector) >= k
    ensures InOrder(db, LiveFrom(db, k))
    decreases |db.secs| - k
  {
    if k < |db.secs| {
      LiveInSectorExactly(db, db.SectorAt(k), 0);
      LiveFromExactly(db, k + 1);
      assert ScanIndex(db, db.SectorAt(k)) == k;
      InOrderConcat(db, LiveInSector(db, db.SectorAt(k), 0), LiveFrom(db, k + 1));
    }
  }

  // ---- The iterator ----

  class KvIterator {
    /** The record visited last; none when a sector is about to be entered. */
    var current: Option<Address>
    /** The sector under way; none after the last one. */
    var sector: Option<nat>
    var traversed: nat

    constructor (db: Db)
      requires Filled(db)
      ensures Valid(db) && Remaining(db) == LiveFrom(db, 0) && sector.Some?
    {
      current, sector, traversed := None, Some(db.oldest), 0;
    }

    ghost predicate Valid(db: Db)
      reads this
    {
      && Filled(db)
      && (sector.Some? ==> traversed < |db.secs| && sector.value == db.SectorAt(traversed))
      && (current.Some? ==> db.HasRecord(current.value) && sector == Some(current.value.sector))
    }

    /** The live records still to be visited. */
    ghost function Remaining(db: Db): seq<Address>
      requires Valid(db)
      reads this
    {
      if sector.None? then []
      else
        LiveInSector(db, sector.value, if current.Some? then current.value.pos + 1 else 0)
        + LiveFrom(db, traversed + 1)
    }

    /** Go to the next live record of the sector under way: true if there is one. */
    method NextInSector(db: Db) returns (found: bool)
      requires Valid(db) && sector.Some?
      modifies this`current
      ensures Valid(db) && sector.Some?
      ensures found ==>
                && old(Remaining(db)) != [] && current == Some(old(Remaining(db))[0])
                && Remaining(db) == old(Remaining(db))[1..]
      ensures !found ==> LiveFrom(db, traversed + 1) == old(Remaining(db))
    {
      hide LiveInSector, LiveFrom;
      var i := sector.value;
      ghost var later := LiveFrom(db, traversed + 1);
      var j: nat := if current.None? then 0 else current.value.pos + 1;
      while j < |db.secs[i].recs|
        invariant Valid(db) && LiveInSector(db, i, j) + later == old(Remaining(db))
      {
        LiveInSectorNext(db, i, j, later);
        current := Some(Address(i, j));
        if IsLive(db.secs[i].recs[j]) {
          return true;
        }
        j := j + 1;
      }
      LiveInSectorDone(db, i, j, later);
      return false;
    }

    /** Go to the next live record: true if there is one. */
    method Next(db: Db) returns (found: bool)
      requires Valid(db) && sector.Some?
      modifies this
      ensures Valid(db)
      ensures found == (old(Remaining(db)) != [])
      ensures found ==>
                && current == Some(old(Remaining(db))[0]) && sector.Some?
                && Remaining(db) == old(Remaining(db))[1..]
      ensures !found ==> sector.None?
    {
      hide LiveInSector, LiveFrom;
      while true
        invariant Valid(db) && sector.Some? && Remaining(db) == old(Remaining(db))
        decreases |db.secs| - traversed
      {
        var i := sector.value;
        if db.secs[i].store != Empty {
          found := NextInSector(db);
          if found {
            return;
          }
        } else {
          LiveInSectorDone(db, i, 0, LiveFrom(db, traversed + 1));
        }
        LiveFromNext(db, traversed + 1);
        current := None;
        traversed := traversed + 1;
        if traversed + 1 <= |db.secs| {
          sector := Some(db.NextSector(i));
        } else {
          sector := None;
          return false;
        }
      }
    }
  }

  lemma LiveInSectorNext(db: Db, i: nat, j: nat, later: seq<Address>)
    requires i < |db.secs| && j < |db.secs[i].recs|
    ensures var s, rest := LiveInSector(db, i, j) + later, LiveInSector(db, i, j + 1) + later;
            if IsLive(db.secs[i].recs[j]) then s != [] && s[0] == Address(i, j) && s[1..] == rest else s == rest
  {
  }

  lemma LiveInSectorDone(db: Db, i: nat, j: nat, later: seq<Address>)
    requires i < |db.secs| && j >= |db.secs[i].recs|
    ensures LiveInSector(db, i, j) + later == later
  {
  }

  lemma LiveFromNext(db: Db, k: nat)
    requires db.oldest < |db.secs| && k <= |db.secs|
    ensures LiveFrom(db, k) == if k == |db.secs| then [] else LiveInSector(db, db.SectorAt(k), 0) + LiveFrom(db, k + 1)
  {
  }

  /** All live records, by an iterator. */
  method Iterate(db: Db) returns (visited: seq<Address>)
    requires Filled(db)
    ensures forall a :: a in visited <==> db.HasRecord(a) && IsLive(db.RecordAt(a))
    ensures InOrder(db, visited)
  {
    hide InOrder, LiveFrom, LiveInSector, IsLive, KvIterator.Remaining;
    LiveFromExactly(db, 0);
    var it := new KvIterator(db);
    visited := [];
    var found := it.Next(db);
    while found
      invariant it.Valid(db) && (found ==> it.sector.Some? && it.current.Some?)
      invariant fresh(it)
      invariant found ==> visited + [it.current.value] + it.Remaining(db) == LiveFrom(db, 0)
      invariant !found ==> visited == LiveFrom(db, 0)
      decreases if found then 1 + |it.Remaining(db)| else 0
    {
      visited := visited + [it.current.value];
      found := it.Next(db);
    }
  }
}
