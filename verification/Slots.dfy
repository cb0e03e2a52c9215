/** The slots of an open-addressed index as values, and what a probe can conclude from them. */
module Slots {
  import opened PowerOfTwo
  import opened Probing

  const HASH_EMPTY: nat := 0
  const HASH_DELETED: nat := 1
  const INDEX_EMPTY: int := -1
  const INDEX_DELETED: int := -2

  datatype Entry<K, V> = Entry(key: K, value: V)

  /** Hashes 0 and 1 mark empty and deleted slots, so they are moved out of the way. */
  function StoredHash(h: nat): (s: nat)
    ensures s >= 2
  {
    if h < 2 then h + 2 else h
  }

  /** The contents of all buckets, slot by slot. */
  datatype Table = Table(hash: seq<nat>, index: seq<int>) {

    predicate InUse(p: nat) {
      p < |hash| && hash[p] >= 2
    }

    /** Hashes and indices mark empty and deleted slots together. */
    ghost predicate WellFormed() {
      && |hash| == |index|
      && ValidSlotCount(|hash|)
      && (forall p :: 0 <= p < |hash| ==>
            && (hash[p] == HASH_EMPTY <==> index[p] == INDEX_EMPTY)
            && (hash[p] == HASH_DELETED <==> index[p] == INDEX_DELETED)
            && (hash[p] >= 2 <==> index[p] >= 0))
    }

    /** No probe for `h` stops before its `k`-th step. */
    ghost predicate PathClear(h: nat, k: nat)
      requires ValidSlotCount(|hash|)
    {
      forall j :: 0 <= j < k ==> hash[SlotAt(h, |hash|, j)] != HASH_EMPTY
    }

    ghost predicate Reachable()
      requires ValidSlotCount(|hash|)
    {
      forall p :: 0 <= p < |hash| && hash[p] >= 2 ==> PathClear(hash[p], Rank(hash[p], |hash|, p))
    }

    /** Every slot in use points at an element and carries the hash of its key. */
    ghost predicate Points<K, V>(elems: seq<Entry<K, V>>, hashOf: K -> nat)
      requires |hash| == |index|
    {
      forall p :: 0 <= p < |hash| && hash[p] >= 2 ==>
        && 0 <= index[p] < |elems|
        && hash[p] == StoredHash(hashOf(elems[index[p]].key))
    }

    /** Slots in use and elements are in bijection; `home` is the inverse direction. */
    ghost predicate Bijective(home: seq<nat>)
      requires |hash| == |index|
    {
      && (forall i :: 0 <= i < |home| ==> home[i] < |hash| && hash[home[i]] >= 2 && index[home[i]] == i)
      && (forall p :: 0 <= p < |hash| && hash[p] >= 2 ==> 0 <= index[p] < |home| && home[index[p]] == p)
    }

    function Set(p: nat, h: nat, i: int): Table
      requires p < |hash| == |index|
    {
      Table(hash[p := h], index[p := i])
    }

    /** A probe for `key` passes over slot `p` without stopping. */
    predicate Passes<K(==), V>(elems: seq<Entry<K, V>>, key: K, h: nat, p: nat)
    {
      && p < |hash| && p < |index|
      && hash[p] != HASH_EMPTY
      && (hash[p] == h && 0 <= index[p] < |elems| ==> elems[index[p]].key != key)
    }

    ghost predicate PassesUpTo<K, V>(elems: seq<Entry<K, V>>, key: K, h: nat, k: nat)
      requires ValidSlotCount(|hash|)
    {
      forall j :: 0 <= j < k ==> Passes(elems, key, h, SlotAt(h, |hash|, j))
    }

    /** No slot in use belongs to `key`. */
    ghost predicate Lacks<K, V>(elems: seq<Entry<K, V>>, key: K)
      requires |hash| == |index|
    {
      forall p :: 0 <= p < |hash| && hash[p] >= 2 && 0 <= index[p] < |elems| ==> elems[index[p]].key != key
    }
  }

  /** 0 for an empty slot, 1 for a deleted one, 2 for one in use. */
  function Kind(h: nat): nat {
    if h < 2 then h else 2
  }

  function Count(hs: seq<nat>, kind: nat): (c: nat)
    ensures c <= |hs|
  {
    if hs == [] then 0
    else Count(hs[..|hs| - 1], kind) + (if Kind(hs[|hs| - 1]) == kind then 1 else 0)
  }

  lemma {:induction false} CountUpdate(hs: seq<nat>, p: nat, h: nat, kind: nat)
    requires p < |hs|
    ensures Count(hs[p := h], kind)
         == Count(hs, kind) - (if Kind(hs[p]) == kind then 1 else 0) + (if Kind(h) == kind then 1 else 0)
  {
    var last := |hs| - 1;
    if p == last {
      assert hs[p := h][..last] == hs[..last];
    } else {
      assert hs[p := h][..last] == hs[..last][p := h];
      CountUpdate(hs[..last], p, h, kind);
    }
  }

  lemma {:induction false} CountTotal(hs: seq<nat>)
    ensures Count(hs, 0) + Count(hs, 1) + Count(hs, 2) == |hs|
  {
    if hs != [] {
      CountTotal(hs[..|hs| - 1]);
    }
  }

  lemma {:induction false} CountPositive(hs: seq<nat>, kind: nat) returns (p: nat)
    requires Count(hs, kind) > 0
    ensures p < |hs| && Kind(hs[p]) == kind
  {
    var last := |hs| - 1;
    if Kind(hs[last]) == kind {
      p := last;
    } else {
      p := CountPositive(hs[..last], kind);
    }
  }

  lemma {:induction false} CountPrefix(hs: seq<nat>, k: nat, kind: nat)
    requires k <= |hs|
    ensures Count(hs[..k], kind) <= Count(hs, kind)
  {
    if k == |hs| {
      assert hs[..k] == hs;
    } else {
      assert hs[..|hs| - 1][..k] == hs[..k];
      CountPrefix(hs[..|hs| - 1], k, kind);
    }
  }

  lemma CountExtend(hs: seq<nat>, k: nat, kind: nat)
    requires k < |hs|
    ensures Count(hs[..k + 1], kind) == Count(hs[..k], kind) + (if Kind(hs[k]) == kind then 1 else 0)
  {
    assert hs[..k + 1][..k] == hs[..k];
  }

  lemma {:induction false} CountEmptyTable(n: nat)
    ensures Count(seq(n, _ => HASH_EMPTY), 0) == n
  {
    if n > 0 {
      CountEmptyTable(n - 1);
      assert seq(n, _ => HASH_EMPTY)[..n - 1] == seq(n - 1, _ => HASH_EMPTY);
    }
  }

  /** As long as slots in use and tombstones leave room, some slot is empty. */
  lemma SomeSlotEmpty(hs: seq<nat>) returns (p: nat)
    requires Count(hs, 2) + Count(hs, 1) < |hs|
    ensures p < |hs| && hs[p] == HASH_EMPTY
  {
    CountTotal(hs);
    p := CountPositive(hs, 0);
  }

  /** A probe that has passed every slot cannot exist while a slot is empty: this ends every probe loop. */
  lemma ProbeEnds<K, V>(t: Table, elems: seq<Entry<K, V>>, key: K, h: nat, k: nat)
    requires ValidSlotCount(|t.hash|) && t.PassesUpTo(elems, key, h, k)
    requires Count(t.hash, 2) + Count(t.hash, 1) < |t.hash|
    ensures k < |t.hash|
  {
    var p := SomeSlotEmpty(t.hash);
    var j := Rank(h, |t.hash|, p);
    assert SlotAt(h, |t.hash|, j) == p;
    assert j < k ==> t.Passes(elems, key, h, p);
  }

  /** Stopping at an empty slot is right: the key's own slot would have come earlier. */
  lemma MissMeansAbsent<K, V>(t: Table, elems: seq<Entry<K, V>>, hashOf: K -> nat, key: K, k: nat)
    requires t.WellFormed() && t.Reachable() && t.Points(elems, hashOf)
    requires k < |t.hash|
    requires t.PassesUpTo(elems, key, StoredHash(hashOf(key)), k)
    requires t.hash[SlotAt(StoredHash(hashOf(key)), |t.hash|, k)] == HASH_EMPTY
    ensures t.Lacks(elems, key)
  {
    var h := StoredHash(hashOf(key));
    forall p | 0 <= p < |t.hash| && t.hash[p] >= 2 && 0 <= t.index[p] < |elems|
      ensures elems[t.index[p]].key != key
    {
      var j := Rank(h, |t.hash|, p);
      assert t.hash[p] == h ==> t.PathClear(h, j);
      assert j < k ==> t.Passes(elems, key, h, SlotAt(h, |t.hash|, j));
    }
  }

  /** Filling a slot whose path is clear keeps every slot reachable. */
  lemma FillKeepsReachable(t: Table, p: nat, k: nat, h: nat, i: int)
    requires t.WellFormed() && t.Reachable()
    requires h >= 2 && i >= 0
    requires k < |t.hash| && p == SlotAt(h, |t.hash|, k) && t.PathClear(h, k)
    ensures t.Set(p, h, i).WellFormed() && t.Set(p, h, i).Reachable()
  {
    var t' := t.Set(p, h, i);
    RankUnique(h, |t.hash|, k);
    forall q | 0 <= q < |t'.hash| && t'.hash[q] >= 2
      ensures t'.PathClear(t'.hash[q], Rank(t'.hash[q], |t'.hash|, q))
    {
      assert t.PathClear(t'.hash[q], Rank(t'.hash[q], |t'.hash|, q));
    }
  }

  /** Turning a slot into a tombstone keeps every other slot reachable. */
  lemma TombstoneKeepsReachable(t: Table, p: nat)
    requires t.WellFormed() && t.Reachable() && t.InUse(p)
    ensures t.Set(p, HASH_DELETED, INDEX_DELETED).WellFormed()
    ensures t.Set(p, HASH_DELETED, INDEX_DELETED).Reachable()
  {
    var t' := t.Set(p, HASH_DELETED, INDEX_DELETED);
    forall q | 0 <= q < |t'.hash| && t'.hash[q] >= 2
      ensures t'.PathClear(t'.hash[q], Rank(t'.hash[q], |t'.hash|, q))
    {
      assert t.PathClear(t.hash[q], Rank(t.hash[q], |t.hash|, q));
    }
  }

  /** Redirecting a slot in use to another element does not touch any path. */
  lemma RedirectKeepsReachable(t: Table, p: nat, i: int)
    requires t.WellFormed() && t.Reachable() && t.InUse(p) && i >= 0
    ensures t.Set(p, t.hash[p], i).WellFormed() && t.Set(p, t.hash[p], i).Reachable()
  {
    assert t.hash[p := t.hash[p]] == t.hash;
  }

  /** Having passed the slots of the bucket at `base` that are looked at before step `d` of a round
      that starts at lane `first`. */
  ghost predicate PassesBefore<K, V>(t: Table, elems: seq<Entry<K, V>>, key: K, h: nat, base: nat, first: nat, d: nat)
    requires first < 8
  {
    forall p :: base <= p < base + 8 && StepOfLane(first, p - base) < d ==> t.Passes(elems, key, h, p)
  }

  lemma PassesInRound<K, V>(t: Table, elems: seq<Entry<K, V>>, key: K, h: nat, r: nat, pos: nat, d: nat)
    requires ValidSlotCount(|t.hash|) && d <= 8
    requires pos == RoundStart(ProbePosition(h, |t.hash|), |t.hash|, r)
    requires t.PassesUpTo(elems, key, h, 8 * r)
    requires PassesBefore(t, elems, key, h, pos / 8 * 8, pos % 8, d)
    ensures t.PassesUpTo(elems, key, h, 8 * r + d)
  {
    hide BitAnd, IsPowerOfTwo, RoundStart, ProbePosition;
    var n := |t.hash|;
    forall j | 8 * r <= j < 8 * r + d ensures t.Passes(elems, key, h, SlotAt(h, n, j)) {
      var i := LaneOfStep(pos % 8, j - 8 * r);
      SlotOfLane(h, n, r, i);
      assert StepOfLane(pos % 8, pos / 8 * 8 + i - pos / 8 * 8) < d;
    }
  }

  /** Stopping in round `r` at an empty slot, having passed everything before it, is right. */
  lemma StopMeansAbsent<K, V>(t: Table, elems: seq<Entry<K, V>>, hashOf: K -> nat, key: K,
                              h: nat, r: nat, pos: nat, i: nat)
    requires t.WellFormed() && t.Reachable() && t.Points(elems, hashOf)
    requires h == StoredHash(hashOf(key)) && pos == RoundStart(ProbePosition(h, |t.hash|), |t.hash|, r)
    requires 8 * r < |t.hash| && i < 8
    requires t.PassesUpTo(elems, key, h, 8 * r)
    requires PassesBefore(t, elems, key, h, pos / 8 * 8, pos % 8, StepOfLane(pos % 8, i))
    requires pos / 8 * 8 + i < |t.hash| && t.hash[pos / 8 * 8 + i] == HASH_EMPTY
    ensures t.Lacks(elems, key)
  {
    hide BitAnd, IsPowerOfTwo, RoundStart, ProbePosition;
    var d := StepOfLane(pos % 8, i);
    PassesInRound(t, elems, key, h, r, pos, d);
    SlotOfLane(h, |t.hash|, r, i);
    MissMeansAbsent(t, elems, hashOf, key, 8 * r + d);
  }

  /** A slot that a probe for `h` reaches without meeting an empty slot on the way. */
  ghost predicate ProbeReaches(t: Table, h: nat, p: nat)
    requires ValidSlotCount(|t.hash|)
  {
    exists k :: 0 <= k < |t.hash| && SlotAt(h, |t.hash|, k) == p && t.PathClear(h, k)
  }

  lemma ClearInRound(t: Table, h: nat, r: nat, pos: nat, d: nat)
    requires ValidSlotCount(|t.hash|) && d <= 8
    requires pos == RoundStart(ProbePosition(h, |t.hash|), |t.hash|, r)
    requires t.PathClear(h, 8 * r)
    requires forall p :: pos / 8 * 8 <= p < pos / 8 * 8 + 8 && StepOfLane(pos % 8, p - pos / 8 * 8) < d
               ==> p < |t.hash| && t.hash[p] != HASH_EMPTY
    ensures t.PathClear(h, 8 * r + d)
  {
    var n := |t.hash|;
    forall j | 8 * r <= j < 8 * r + d ensures t.hash[SlotAt(h, n, j)] != HASH_EMPTY {
      var i := LaneOfStep(pos % 8, j - 8 * r);
      SlotOfLane(h, n, r, i);
      assert StepOfLane(pos % 8, pos / 8 * 8 + i - pos / 8 * 8) < d;
    }
  }

  /** A path cannot be clear over the whole table while a slot is empty. */
  lemma ClearPathEnds(t: Table, h: nat, k: nat)
    requires ValidSlotCount(|t.hash|) && t.PathClear(h, k)
    requires Count(t.hash, 2) + Count(t.hash, 1) < |t.hash|
    ensures k < |t.hash|
  {
    var p := SomeSlotEmpty(t.hash);
    var j := Rank(h, |t.hash|, p);
    assert SlotAt(h, |t.hash|, j) == p;
  }

  /** How far a copy into a new table has come when the old slots below `p` are done: exactly the
      elements whose old slots were below `p` have a new slot, with the same hash. */
  ghost predicate CopiedUpTo(old_: Table, home: seq<nat>, t: Table, newHome: seq<nat>, p: nat)
    requires |old_.hash| == |old_.index| && |t.hash| == |t.index|
    requires old_.Bijective(home)
  {
    && |newHome| == |home|
    && (forall i :: 0 <= i < |home| && home[i] < p ==>
          && newHome[i] < |t.hash|
          && t.hash[newHome[i]] == old_.hash[home[i]]
          && t.index[newHome[i]] == i)
    && (forall q :: 0 <= q < |t.hash| && t.hash[q] >= 2 ==>
          && 0 <= t.index[q] < |home|
          && home[t.index[q]] < p
          && newHome[t.index[q]] == q)
  }

  lemma CopyOne(old_: Table, home: seq<nat>, t: Table, newHome: seq<nat>, p: nat, q: nat)
    requires old_.WellFormed() && t.WellFormed() && old_.Bijective(home)
    requires CopiedUpTo(old_, home, t, newHome, p)
    requires old_.InUse(p) && q < |t.hash| && t.hash[q] == HASH_EMPTY
    ensures CopiedUpTo(old_, home, t.Set(q, old_.hash[p], old_.index[p]), newHome[old_.index[p] := q], p + 1)
  {
  }

  lemma CopyDone(old_: Table, home: seq<nat>, t: Table, newHome: seq<nat>)
    requires old_.WellFormed() && t.WellFormed() && old_.Bijective(home)
    requires CopiedUpTo(old_, home, t, newHome, |old_.hash|)
    ensures t.Bijective(newHome)
    ensures forall i :: 0 <= i < |home| ==> t.hash[newHome[i]] == old_.hash[home[i]]
  {
  }
}
