/** The hash index: buckets of hashes and element indices, updated in place by probe loops. */
module HashIndexes {
  import opened PowerOfTwo
  import opened Probing
  import opened Slots

  datatype Scan = Found(slot: nat) | Vacant(slot: nat) | KeepGoing

  class HashIndex<K(==), V> {
    const slotCount: nat
    const hash: array<nat>
    const index: array<int>
    var usedCount: nat
    var tombstoneCount: nat
    /** What building this table has cost: slots filled, slots of the table before it visited, pairs reinserted. */
    ghost var work: nat

    ghost predicate Shaped() {
      && ValidSlotCount(slotCount)
      && hash.Length == index.Length == slotCount
      && hash as object != index
    }

    ghost function View(): Table
      reads hash, index
    {
      Table(hash[..], index[..])
    }

    /** Both counts are exact, every slot in use can be reached, and some slot is empty. */
    ghost predicate Valid()
      reads this`usedCount, this`tombstoneCount, hash, index
    {
      && Shaped()
      && View().WellFormed()
      && View().Reachable()
      && usedCount == Count(hash[..], 2)
      && tombstoneCount == Count(hash[..], 1)
      && usedCount + tombstoneCount < slotCount
    }

    /** Scan slots `from .. to` of a bucket for `key`. */
    method ScanSlots(elems: seq<Entry<K, V>>, key: K, h: nat, from: nat, to: nat, ghost t: Table)
      returns (r: Scan)
      requires Shaped() && t == View()
      requires h >= 2 && from <= to <= slotCount
      requires forall p :: 0 <= p < slotCount && t.hash[p] == h ==> 0 <= t.index[p] < |elems|
      ensures r.Found? ==> r.slot < slotCount && t.hash[r.slot] == h && elems[t.index[r.slot]].key == key
      ensures r.Vacant? ==> from <= r.slot < to && t.hash[r.slot] == HASH_EMPTY
      ensures r.Vacant? ==> forall p :: from <= p < r.slot ==> t.Passes(elems, key, h, p)
      ensures r.KeepGoing? ==> forall p :: from <= p < to ==> t.Passes(elems, key, h, p)
    {
      for p := from to to
        invariant forall q :: from <= q < p ==> t.Passes(elems, key, h, q)
      {
        if hash[p] == h {
          if elems[index[p]].key == key {
            return Found(p);
          }
        } else if hash[p] == HASH_EMPTY {
          return Vacant(p);
        }
      }
      return KeepGoing;
    }

    /** Scan one bucket: from `pos` to its end, then from its beginning to `pos`. */
    method ScanBucket(elems: seq<Entry<K, V>>, key: K, h: nat, pos: nat, ghost t: Table) returns (r: Scan)
      requires Shaped() && t == View()
      requires h >= 2 && pos < slotCount
      requires forall p :: 0 <= p < slotCount && t.hash[p] == h ==> 0 <= t.index[p] < |elems|
      ensures r.Found? ==> r.slot < slotCount && t.hash[r.slot] == h && elems[t.index[r.slot]].key == key
      ensures r.Vacant? ==>
                && pos / 8 * 8 <= r.slot < pos / 8 * 8 + 8 && r.slot < slotCount && t.hash[r.slot] == HASH_EMPTY
                && PassesBefore(t, elems, key, h, pos / 8 * 8, pos % 8, StepOfLane(pos % 8, r.slot - pos / 8 * 8))
      ensures r.KeepGoing? ==> PassesBefore(t, elems, key, h, pos / 8 * 8, pos % 8, 8)
    {
      var base := pos / BUCKET_LENGTH * BUCKET_LENGTH;
      r := ScanSlots(elems, key, h, pos, base + BUCKET_LENGTH, t);
      if r.KeepGoing? {
        r := ScanSlots(elems, key, h, base, pos, t);
      }
    }

    /** The slot that holds `key`, or -1. */
    method FindSlot(elems: seq<Entry<K, V>>, hashOf: K -> nat, key: K) returns (slot: int)
      requires Valid() && View().Points(elems, hashOf)
      ensures -1 <= slot < slotCount
      ensures slot >= 0 ==> hash[slot] >= 2 && elems[index[slot]].key == key
      ensures slot == -1 ==> View().Lacks(elems, key)
    {
      ghost var t := View();
      var h := StoredHash(hashOf(key));
      var step := BUCKET_LENGTH;
      var pos := ProbePosition(h, slotCount);
      ghost var r: nat := 0;
      while true
        invariant pos == RoundStart(ProbePosition(h, slotCount), slotCount, r)
        invariant step == BUCKET_LENGTH * (r + 1)
        invariant t.PassesUpTo(elems, key, h, 8 * r)
        decreases slotCount - 8 * r
      {
        ProbeEnds(t, elems, key, h, 8 * r);
        var scan := ScanBucket(elems, key, h, pos, t);
        match scan {
          case Found(s) =>
            return s;
          case Vacant(s) =>
            StopMeansAbsent(t, elems, hashOf, key, h, r, pos, s - pos / 8 * 8);
            return -1;
          case KeepGoing =>
            PassesInRound(t, elems, key, h, r, pos, 8);
        }
        pos := Advance(pos, step, slotCount);
        step := step + BUCKET_LENGTH;
        r := r + 1;
      }
    }

    /** Scan slots `from .. to` of a bucket for `key`, remembering the first tombstone. */
    method ScanSlotsForPut(elems: seq<Entry<K, V>>, key: K, h: nat, from: nat, to: nat, seen: int, ghost t: Table)
      returns (r: Scan, tombstone: int)
      requires Shaped() && t == View() && t.WellFormed()
      requires h >= 2 && from <= to <= slotCount
      requires forall p :: 0 <= p < slotCount && t.hash[p] == h ==> 0 <= t.index[p] < |elems|
      ensures r.Found? ==> r.slot < slotCount && t.hash[r.slot] == h && elems[t.index[r.slot]].key == key
      ensures r.Vacant? ==> from <= r.slot < to && t.hash[r.slot] == HASH_EMPTY
      ensures r.Vacant? ==> forall p :: from <= p < r.slot ==> t.Passes(elems, key, h, p)
      ensures r.KeepGoing? ==> forall p :: from <= p < to ==> t.Passes(elems, key, h, p)
      requires seen >= -1
      ensures !r.Found? ==> FirstDeletedIn(t, from, if r.Vacant? then r.slot else to, seen, tombstone)
      ensures tombstone >= -1
    {
      tombstone := seen;
      for p := from to to
        invariant forall q :: from <= q < p ==> t.Passes(elems, key, h, q)
        invariant tombstone >= -1 && FirstDeletedIn(t, from, p, seen, tombstone)
      {
        if hash[p] == h {
          if elems[index[p]].key == key {
            return Found(p), tombstone;
          }
        } else if hash[p] == HASH_EMPTY {
          return Vacant(p), tombstone;
        } else if tombstone < 0 {
          if index[p] == INDEX_DELETED {
            tombstone := p;
          }
        }
      }
      return KeepGoing, tombstone;
    }

    /** A round of the probe of a put: one bucket, tombstones remembered. */
    method ScanBucketForPut(elems: seq<Entry<K, V>>, key: K, h: nat, pos: nat, seen: int, ghost t: Table, ghost r: nat)
      returns (scan: Scan, tombstone: int)
      requires Shaped() && t == View() && t.WellFormed()
      requires h >= 2 && pos == RoundStart(ProbePosition(h, slotCount), slotCount, r)
      requires forall p :: 0 <= p < slotCount && t.hash[p] == h ==> 0 <= t.index[p] < |elems|
      requires t.PassesUpTo(elems, key, h, 8 * r) && seen >= -1 && Remembers(t, h, seen, 8 * r)
      ensures tombstone >= -1
      ensures scan.Found? ==> scan.slot < slotCount && t.hash[scan.slot] == h && elems[t.index[scan.slot]].key == key
      ensures scan.Vacant? ==>
                && pos / 8 * 8 <= scan.slot < pos / 8 * 8 + 8 && scan.slot < slotCount
                && t.hash[scan.slot] == HASH_EMPTY
                && PassesBefore(t, elems, key, h, pos / 8 * 8, pos % 8, StepOfLane(pos % 8, scan.slot - pos / 8 * 8))
                && Remembers(t, h, tombstone, 8 * r + StepOfLane(pos % 8, scan.slot - pos / 8 * 8))
      ensures scan.KeepGoing? ==>
                && PassesBefore(t, elems, key, h, pos / 8 * 8, pos % 8, 8)
                && Remembers(t, h, tombstone, 8 * r + 8)
    {
      hide BitAnd, IsPowerOfTwo, RoundStart, ProbePosition, Remembers, FirstDeletedIn, FirstDeletedInRound;
      var base := pos / BUCKET_LENGTH * BUCKET_LENGTH;
      scan, tombstone := ScanSlotsForPut(elems, key, h, pos, base + BUCKET_LENGTH, seen, t);
      ghost var mid, second := tombstone, scan.KeepGoing?;
      if scan.KeepGoing? {
        scan, tombstone := ScanSlotsForPut(elems, key, h, base, pos, tombstone, t);
      }
      if !scan.Found? {
        InOrderOfSteps(t, pos, if scan.Vacant? then scan.slot else pos, seen, mid, tombstone, second);
        var d := if scan.Vacant? then StepOfLane(pos % 8, scan.slot - base) else 8;
        RemembersInRound(t, h, r, pos, d, seen, tombstone);
      }
    }

    /** The slot that holds `key`, or the slot to put it in: the first tombstone on the way of the probe to the first
        empty slot, or else that empty slot. */
    method ProbeForPut(elems: seq<Entry<K, V>>, hashOf: K -> nat, key: K) returns (r: Scan, reused: bool)
      requires Valid() && View().Points(elems, hashOf)
      ensures !r.KeepGoing? && r.slot < slotCount
      ensures r.Found? ==> hash[r.slot] >= 2 && elems[index[r.slot]].key == key
      ensures r.Vacant? ==>
                && View().Lacks(elems, key)
                && hash[r.slot] == (if reused then HASH_DELETED else HASH_EMPTY)
                && ProbeReaches(View(), StoredHash(hashOf(key)), r.slot)
                && PlaceForPut(View(), StoredHash(hashOf(key)), r.slot, reused)
    {
      ghost var t := View();
      var h := StoredHash(hashOf(key));
      var step := BUCKET_LENGTH;
      var pos := ProbePosition(h, slotCount);
      var tombstone := -1;
      ghost var round: nat := 0;
      assert Remembers(t, h, tombstone, 0);
      hide BitAnd, IsPowerOfTwo, PlaceForPut, Remembers, Table.Reachable, PassesBefore;
      while true
        invariant pos == RoundStart(ProbePosition(h, slotCount), slotCount, round)
        invariant step == BUCKET_LENGTH * (round + 1)
        invariant t.PassesUpTo(elems, key, h, 8 * round)
        invariant tombstone >= -1 && Remembers(t, h, tombstone, 8 * round)
        decreases slotCount - 8 * round
      {
        ProbeEnds(t, elems, key, h, 8 * round);
        var scan;
        scan, tombstone := ScanBucketForPut(elems, key, h, pos, tombstone, t, round);
        match scan {
          case Found(s) =>
            return Found(s), false;
          case Vacant(s) =>
            StopMeansAbsent(t, elems, hashOf, key, h, round, pos, s - pos / 8 * 8);
            PlaceToPut(t, elems, key, h, round, pos, s, tombstone);
            if tombstone >= 0 {
              return Vacant(tombstone), true;
            }
            return Vacant(s), false;
          case KeepGoing =>
            PassesInRound(t, elems, key, h, round, pos, 8);
        }
        pos := Advance(pos, step, slotCount);
        step := step + BUCKET_LENGTH;
        round := round + 1;
      }
    }

    /** Fill a slot found by a probe. */
    method Fill(p: nat, h: nat, i: nat, reused: bool)
      requires Valid() && h >= 2 && p < slotCount
      requires hash[p] == (if reused then HASH_DELETED else HASH_EMPTY)
      requires ProbeReaches(View(), h, p)
      requires usedCount + tombstoneCount + (if reused then 0 else 1) < slotCount
      modifies this, hash, index
      ensures Valid()
      ensures View() == old(View()).Set(p, h, i)
      ensures usedCount == old(usedCount) + 1 && work == old(work)
      ensures tombstoneCount == old(tombstoneCount) - (if reused then 1 else 0)
    {
      ghost var t := View();
      ghost var k :| 0 <= k < slotCount && SlotAt(h, slotCount, k) == p && t.PathClear(h, k);
      FillKeepsReachable(t, p, k, h, i);
      CountUpdate(t.hash, p, h, 1);
      CountUpdate(t.hash, p, h, 2);
      if reused {
        tombstoneCount := tombstoneCount - 1;
      }
      usedCount := usedCount + 1;
      hash[p] := h;
      index[p] := i;
      assert View() == t.Set(p, h, i);
    }

    /** Turn a slot in use into a tombstone. */
    method Bury(p: nat)
      requires Valid() && p < slotCount && hash[p] >= 2
      modifies this, hash, index
      ensures Valid()
      ensures View() == old(View()).Set(p, HASH_DELETED, INDEX_DELETED)
      ensures usedCount == old(usedCount) - 1 && tombstoneCount == old(tombstoneCount) + 1
    {
      ghost var t := View();
      TombstoneKeepsReachable(t, p);
      CountUpdate(t.hash, p, HASH_DELETED, 1);
      CountUpdate(t.hash, p, HASH_DELETED, 2);
      usedCount := usedCount - 1;
      tombstoneCount := tombstoneCount + 1;
      hash[p] := HASH_DELETED;
      index[p] := INDEX_DELETED;
      assert View() == t.Set(p, HASH_DELETED, INDEX_DELETED);
    }

    /** Point a slot in use at another element. */
    method Redirect(p: nat, i: nat)
      requires Valid() && p < slotCount && hash[p] >= 2
      modifies index
      ensures Valid()
      ensures View() == old(View()).Set(p, old(View()).hash[p], i)
    {
      ghost var t := View();
      RedirectKeepsReachable(t, p, i);
      index[p] := i;
      assert View() == t.Set(p, t.hash[p], i);
    }

    /** A table of empty slots. */
    constructor (slotCount: nat)
      requires ValidSlotCount(slotCount)
      ensures Valid() && fresh(hash) && fresh(index)
      ensures this.slotCount == slotCount && usedCount == 0 && tombstoneCount == 0
      ensures forall p :: 0 <= p < slotCount ==> hash[p] == HASH_EMPTY
      ensures work == slotCount
    {
      this.slotCount := slotCount;
      hash := new nat[slotCount];
      index := new int[slotCount];
      usedCount, tombstoneCount, work := 0, 0, 0;
      new;
      for p := 0 to slotCount
        invariant forall q :: 0 <= q < p ==> hash[q] == HASH_EMPTY && index[q] == INDEX_EMPTY
        invariant usedCount == tombstoneCount == 0 && work == p
      {
        hash[p] := HASH_EMPTY;
        index[p] := INDEX_EMPTY;
        work := work + 1;
      }
      CountEmptyTable(slotCount);
      assert hash[..] == seq(slotCount, _ => HASH_EMPTY);
      CountTotal(hash[..]);
    }

    /** The first empty slot of slots `from .. to`. */
    method ScanForEmpty(from: nat, to: nat) returns (r: Scan)
      requires Shaped() && from <= to <= slotCount
      ensures !r.Found?
      ensures r.Vacant? ==> from <= r.slot < to && hash[r.slot] == HASH_EMPTY
      ensures forall p :: from <= p < (if r.Vacant? then r.slot else to) ==> hash[p] != HASH_EMPTY
    {
      for p := from to to
        invariant forall q :: from <= q < p ==> hash[q] != HASH_EMPTY
      {
        if hash[p] == HASH_EMPTY {
          return Vacant(p);
        }
      }
      return KeepGoing;
    }

    /** The first empty slot of the bucket of a round, from `pos` to its end and then from its beginning. */
    method ScanBucketForEmpty(h: nat, pos: nat, ghost round: nat) returns (r: Scan)
      requires Shaped() && 8 * round < slotCount
      requires pos == RoundStart(ProbePosition(h, slotCount), slotCount, round)
      requires View().PathClear(h, 8 * round)
      ensures !r.Found?
      ensures r.Vacant? ==> r.slot < slotCount && hash[r.slot] == HASH_EMPTY && ProbeReaches(View(), h, r.slot)
      ensures r.KeepGoing? ==> View().PathClear(h, 8 * round + 8)
    {
      hide BitAnd, IsPowerOfTwo, RoundStart, ProbePosition;
      var base := pos / BUCKET_LENGTH * BUCKET_LENGTH;
      r := ScanForEmpty(pos, base + BUCKET_LENGTH);
      if r.KeepGoing? {
        r := ScanForEmpty(base, pos);
      }
      if r.Vacant? {
        EmptySlotReached(View(), h, round, pos, r.slot);
      } else {
        ClearInRound(View(), h, round, pos, 8);
      }
    }

    /** The first empty slot that a probe for `h` looks at. */
    method ProbeForEmpty(h: nat) returns (slot: nat)
      requires Valid()
      ensures slot < slotCount && hash[slot] == HASH_EMPTY && ProbeReaches(View(), h, slot)
    {
      var pos := ProbePosition(h, slotCount);
      var step := BUCKET_LENGTH;
      ghost var round: nat := 0;
      while true
        invariant pos == RoundStart(ProbePosition(h, slotCount), slotCount, round)
        invariant step == BUCKET_LENGTH * (round + 1)
        invariant View().PathClear(h, 8 * round)
        decreases slotCount - 8 * round
      {
        ClearPathEnds(View(), h, 8 * round);
        var scan := ScanBucketForEmpty(h, pos, round);
        if scan.Vacant? {
          return scan.slot;
        }
        pos := Advance(pos, step, slotCount);
        step := step + BUCKET_LENGTH;
        round := round + 1;
      }
    }

    /** Put a pair of hash and index into the first empty slot of its probe. */
    method Reinsert(h: nat, i: nat) returns (slot: nat)
      requires Valid() && h >= 2 && usedCount + tombstoneCount + 1 < slotCount
      modifies this, hash, index
      ensures Valid() && slot < slotCount
      ensures old(hash[slot]) == HASH_EMPTY && View() == old(View()).Set(slot, h, i)
      ensures usedCount == old(usedCount) + 1 && tombstoneCount == old(tombstoneCount)
      ensures work == old(work) + 1
    {
      slot := ProbeForEmpty(h);
      Fill(slot, h, i, false);
      work := work + 1;
    }

    /** Copy slot `p` of this table into `t`, if it is in use. */
    method CopySlot(t: HashIndex<K, V>, p: nat, ghost home: seq<nat>, ghost newHome: seq<nat>)
      returns (ghost newHome': seq<nat>)
      requires Valid() && t.Valid() && p < slotCount
      requires {hash as object, index, this} !! {t.hash as object, t.index, t}
      requires View().Bijective(home) && CopiedUpTo(View(), home, t.View(), newHome, p)
      requires t.tombstoneCount == 0 && t.usedCount == Count(hash[..p], 2) && usedCount < t.slotCount
      modifies t, t.hash, t.index
      ensures t.Valid() && t.tombstoneCount == 0 && t.usedCount == Count(hash[..p + 1], 2)
      ensures CopiedUpTo(View(), home, t.View(), newHome', p + 1)
      ensures t.work - old(t.work) == t.usedCount - old(t.usedCount)
    {
      hide BitAnd, IsPowerOfTwo, RoundStart, ProbePosition, Table.Reachable;
      newHome' := newHome;
      CountExtend(hash[..], p, 2);
      CountPrefix(hash[..], p + 1, 2);
      assert hash[..][..p] == hash[..p] && hash[..][..p + 1] == hash[..p + 1];
      if index[p] >= 0 {
        ghost var before := t.View();
        var slot := t.Reinsert(hash[p], index[p]);
        CopyOne(View(), home, before, newHome, p, slot);
        newHome' := newHome[index[p] := slot];
      }
    }

    /** A table of `newCount` slots holding every pair of hash and index of this one, and no tombstones. */
    method Rehash(newCount: nat, ghost home: seq<nat>) returns (t: HashIndex<K, V>, ghost newHome: seq<nat>)
      requires Valid() && View().Bijective(home)
      requires ValidSlotCount(newCount) && usedCount < newCount
      ensures fresh(t) && fresh(t.hash) && fresh(t.index)
      ensures t.Valid() && t.slotCount == newCount && t.usedCount == usedCount && t.tombstoneCount == 0
      ensures t.work == newCount + slotCount + usedCount
      ensures t.View().Bijective(newHome) && |newHome| == |home|
      ensures forall i :: 0 <= i < |home| ==> t.hash[newHome[i]] == hash[home[i]]
    {
      hide Count, BitAnd, IsPowerOfTwo, RoundStart, ProbePosition;
      t := new HashIndex<K, V>(newCount);
      newHome := home;
      assert hash[..0] == [];
      for p := 0 to slotCount
        invariant t.Valid() && t.tombstoneCount == 0 && t.usedCount == Count(hash[..p], 2)
        invariant CopiedUpTo(View(), home, t.View(), newHome, p)
        invariant Valid() && t.work == newCount + p + t.usedCount
      {
        newHome := CopySlot(t, p, home, newHome);
        t.work := t.work + 1;
      }
      assert hash[..slotCount] == hash[..];
      CopyDone(View(), home, t.View(), newHome);
    }
  }

  lemma EmptySlotReached(t: Table, h: nat, round: nat, pos: nat, slot: nat)
    requires ValidSlotCount(|t.hash|) && 8 * round < |t.hash|
    requires pos == RoundStart(ProbePosition(h, |t.hash|), |t.hash|, round)
    requires t.PathClear(h, 8 * round)
    requires pos / 8 * 8 <= slot < pos / 8 * 8 + 8 && slot < |t.hash|
    requires forall p :: pos / 8 * 8 <= p < pos / 8 * 8 + 8
               && StepOfLane(pos % 8, p - pos / 8 * 8) < StepOfLane(pos % 8, slot - pos / 8 * 8)
               ==> p < |t.hash| && t.hash[p] != HASH_EMPTY
    ensures ProbeReaches(t, h, slot)
  {
    hide BitAnd, IsPowerOfTwo, RoundStart, ProbePosition;
    ClearInRound(t, h, round, pos, StepOfLane(pos % 8, slot - pos / 8 * 8));
    SlotOfLane(h, |t.hash|, round, slot - pos / 8 * 8);
    SlotInRange(|t.hash|, round, StepOfLane(pos % 8, slot - pos / 8 * 8));
  }

  lemma SlotInRange(n: nat, round: nat, d: nat)
    requires ValidSlotCount(n) && 8 * round < n && d < 8
    ensures 8 * round + d < n
  {
  }

  lemma PassedPathIsClear<K, V>(t: Table, elems: seq<Entry<K, V>>, key: K, h: nat, k: nat)
    requires ValidSlotCount(|t.hash|) && t.PassesUpTo(elems, key, h, k)
    ensures t.PathClear(h, k)
  {
    forall i | 0 <= i < k ensures t.hash[SlotAt(h, |t.hash|, i)] != HASH_EMPTY {
      assert t.Passes(elems, key, h, SlotAt(h, |t.hash|, i));
    }
  }

  lemma PlaceToPut<K, V>(t: Table, elems: seq<Entry<K, V>>, key: K, h: nat, r: nat, pos: nat, s: nat, tombstone: int)
    requires ValidSlotCount(|t.hash|) && 8 * r < |t.hash|
    requires pos == RoundStart(ProbePosition(h, |t.hash|), |t.hash|, r)
    requires pos / 8 * 8 <= s < pos / 8 * 8 + 8 && s < |t.hash| && t.hash[s] == HASH_EMPTY
    requires t.PassesUpTo(elems, key, h, 8 * r)
    requires PassesBefore(t, elems, key, h, pos / 8 * 8, pos % 8, StepOfLane(pos % 8, s - pos / 8 * 8))
    requires Remembers(t, h, tombstone, 8 * r + StepOfLane(pos % 8, s - pos / 8 * 8))
    ensures tombstone < |t.hash|
    ensures ProbeReaches(t, h, if tombstone >= 0 then tombstone else s)
    ensures PlaceForPut(t, h, if tombstone >= 0 then tombstone else s, tombstone >= 0)
  {
    hide BitAnd, IsPowerOfTwo, RoundStart, ProbePosition, NoneDeleted;
    var d := StepOfLane(pos % 8, s - pos / 8 * 8);
    SlotInRange(|t.hash|, r, d);
    PassesInRound(t, elems, key, h, r, pos, d);
    SlotOfLane(h, |t.hash|, r, s - pos / 8 * 8);
    PassedPathIsClear(t, elems, key, h, 8 * r + d);
    assert FirstEmpty(t, h, 8 * r + d);
    if tombstone >= 0 {
      var j :| 0 <= j < 8 * r + d && FirstDeleted(t, h, j) && SlotAt(h, |t.hash|, j) == tombstone;
      assert t.PathClear(h, j);
    }
  }

  /** What is remembered before step `k` of the probe: the first deleted slot on the way, if there is one. */
  ghost predicate Remembers(t: Table, h: nat, tombstone: int, k: nat)
    requires ValidSlotCount(|t.hash|)
  {
    if tombstone < 0 then tombstone == -1 && NoneDeleted(t, h, k)
    else exists j :: 0 <= j < k && FirstDeleted(t, h, j) && SlotAt(h, |t.hash|, j) == tombstone
  }

  ghost predicate NoneDeleted(t: Table, h: nat, k: nat)
    requires ValidSlotCount(|t.hash|)
  {
    forall j :: 0 <= j < k ==> t.hash[SlotAt(h, |t.hash|, j)] != HASH_DELETED
  }

  /** Step `j` of the probe is the first that looks at a deleted slot. */
  ghost predicate FirstDeleted(t: Table, h: nat, j: nat)
    requires ValidSlotCount(|t.hash|)
  {
    t.hash[SlotAt(h, |t.hash|, j)] == HASH_DELETED && NoneDeleted(t, h, j)
  }

  /** Step `k` of the probe is the first that looks at an empty slot. */
  ghost predicate FirstEmpty(t: Table, h: nat, k: nat)
    requires ValidSlotCount(|t.hash|)
  {
    k < |t.hash| && t.hash[SlotAt(h, |t.hash|, k)] == HASH_EMPTY && t.PathClear(h, k)
  }

  /** Where a put of a new key belongs: in the first deleted slot before the first empty one, if there is any, and
      else in that. */
  ghost predicate PlaceForPut(t: Table, h: nat, slot: nat, reused: bool)
    requires ValidSlotCount(|t.hash|)
  {
    exists k :: 0 <= k < |t.hash| && FirstEmpty(t, h, k)
                && if reused then exists j :: 0 <= j < k && FirstDeleted(t, h, j) && slot == SlotAt(h, |t.hash|, j)
                   else NoneDeleted(t, h, k) && slot == SlotAt(h, |t.hash|, k)
  }

  /** Among slots `from .. to`: `seen`, or else the first deleted one, or else none. */
  ghost predicate FirstDeletedIn(t: Table, from: nat, to: nat, seen: int, tombstone: int) {
    if seen >= 0 then tombstone == seen
    else if tombstone < 0 then
      tombstone == -1 && forall p :: from <= p < to && p < |t.hash| ==> t.hash[p] != HASH_DELETED
    else
      && from <= tombstone < to && tombstone < |t.hash| && t.hash[tombstone] == HASH_DELETED
      && forall p :: from <= p < tombstone ==> t.hash[p] != HASH_DELETED
  }

  /** The same for the first `d` steps through a bucket. */
  ghost predicate FirstDeletedInRound(t: Table, base: nat, first: nat, d: nat, seen: int, tombstone: int)
    requires first < 8
  {
    if seen >= 0 then tombstone == seen
    else if tombstone < 0 then
      && tombstone == -1
      && forall p :: base <= p < base + 8 && StepOfLane(first, p - base) < d && p < |t.hash| ==>
           t.hash[p] != HASH_DELETED
    else
      && base <= tombstone < base + 8 && StepOfLane(first, tombstone - base) < d
      && tombstone < |t.hash| && t.hash[tombstone] == HASH_DELETED
      && forall p :: base <= p < base + 8 && p < |t.hash|
                     && StepOfLane(first, p - base) < StepOfLane(first, tombstone - base) ==>
           t.hash[p] != HASH_DELETED
  }

  /** No slot of a round is deleted before step `d`. */
  lemma NoneInRound(t: Table, h: nat, r: nat, pos: nat, d: nat)
    requires ValidSlotCount(|t.hash|) && d <= 8 && NoneDeleted(t, h, 8 * r)
    requires pos == RoundStart(ProbePosition(h, |t.hash|), |t.hash|, r)
    requires forall p :: pos / 8 * 8 <= p < pos / 8 * 8 + 8 && StepOfLane(pos % 8, p - pos / 8 * 8) < d && p < |t.hash|
               ==> t.hash[p] != HASH_DELETED
    ensures NoneDeleted(t, h, 8 * r + d)
  {
    hide BitAnd, IsPowerOfTwo, RoundStart, ProbePosition;
    var n := |t.hash|;
    forall j | 8 * r <= j < 8 * r + d ensures t.hash[SlotAt(h, n, j)] != HASH_DELETED {
      var i := LaneOfStep(pos % 8, j - 8 * r);
      SlotOfLane(h, n, r, i);
      assert StepOfLane(pos % 8, pos / 8 * 8 + i - pos / 8 * 8) < d;
    }
  }

  /** What is remembered after some steps of a round. */
  lemma RemembersInRound(t: Table, h: nat, r: nat, pos: nat, d: nat, seen: int, tombstone: int)
    requires ValidSlotCount(|t.hash|) && d <= 8 && Remembers(t, h, seen, 8 * r)
    requires pos == RoundStart(ProbePosition(h, |t.hash|), |t.hash|, r)
    requires FirstDeletedInRound(t, pos / 8 * 8, pos % 8, d, seen, tombstone)
    ensures Remembers(t, h, tombstone, 8 * r + d)
  {
    hide BitAnd, IsPowerOfTwo, RoundStart, ProbePosition, NoneDeleted;
    if seen >= 0 {
    } else if tombstone < 0 {
      NoneInRound(t, h, r, pos, d);
    } else {
      var i := tombstone - pos / 8 * 8;
      NoneInRound(t, h, r, pos, StepOfLane(pos % 8, i));
      SlotOfLane(h, |t.hash|, r, i);
      assert FirstDeleted(t, h, 8 * r + StepOfLane(pos % 8, i));
    }
  }

  /** Two parts of a bucket, from `pos` to its end and then from its beginning, in the order of the steps. */
  lemma InOrderOfSteps(t: Table, pos: nat, stop: nat, seen: int, mid: int, tombstone: int, second: bool)
    requires var base := pos / 8 * 8;
             if second then base <= stop <= pos && FirstDeletedIn(t, pos, base + 8, seen, mid)
                            && FirstDeletedIn(t, base, stop, mid, tombstone)
             else pos <= stop <= base + 8 && FirstDeletedIn(t, pos, stop, seen, tombstone)
    requires seen >= -1
    ensures var base := pos / 8 * 8;
            var d := if second && stop == pos then 8 else if stop == base + 8 then 8 - pos % 8
                     else StepOfLane(pos % 8, stop - base);
            FirstDeletedInRound(t, base, pos % 8, d, seen, tombstone)
  {
  }
}
