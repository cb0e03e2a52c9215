/** The hash map: a dense array of elements, a hash index over it, and the finite map both stand for. */
module HashMaps {
  import opened Probing
  import opened Slots
  import opened HashCost
  import opened HashIndexes

  type Entries<K, V> = seq<Entry<K, V>>

  /** The array index of a key, or -1. */
  function IndexOf<K(==), V>(s: Entries<K, V>, key: K): (i: int)
    ensures -1 <= i < |s|
    ensures i >= 0 ==> s[i].key == key
    ensures i == -1 <==> forall j :: 0 <= j < |s| ==> s[j].key != key
  {
    if s == [] then -1
    else if s[|s| - 1].key == key then |s| - 1
    else IndexOf(s[..|s| - 1], key)
  }

  ghost predicate Distinct<K, V>(s: Entries<K, V>) {
    forall i, j :: 0 <= i < j < |s| ==> s[i].key != s[j].key
  }

  /** A put changes the element of its key in place, or appends a new one. */
  function AfterPut<K(==), V>(s: Entries<K, V>, key: K, value: V): Entries<K, V> {
    var i := IndexOf(s, key);
    if i >= 0 then s[i := Entry(key, value)] else s + [Entry(key, value)]
  }

  /** A delete moves the last element into the hole. */
  function AfterDelete<K(==), V>(s: Entries<K, V>, key: K): Entries<K, V> {
    var i := IndexOf(s, key);
    if i >= 0 then s[i := s[|s| - 1]][..|s| - 1] else s
  }

  /** The index and the array agree: slots in use and elements are in bijection, hashes are right. */
  ghost predicate Linked<K, V>(t: Table, home: seq<nat>, elems: Entries<K, V>, hashOf: K -> nat)
    requires |t.hash| == |t.index|
  {
    |home| == |elems| && t.Bijective(home) && t.Points(elems, hashOf)
  }

  lemma IndexIsUnique<K, V>(s: Entries<K, V>, key: K, i: nat)
    requires Distinct(s) && i < |s| && s[i].key == key
    ensures IndexOf(s, key) == i
  {
  }

  /** A table without a slot for a key has no element for it. */
  lemma LacksMeansAbsent<K, V>(t: Table, home: seq<nat>, elems: Entries<K, V>, hashOf: K -> nat, key: K)
    requires |t.hash| == |t.index| && Linked(t, home, elems, hashOf) && t.Lacks(elems, key)
    ensures IndexOf(elems, key) == -1
  {
    forall j | 0 <= j < |elems| ensures elems[j].key != key {
      assert t.hash[home[j]] >= 2;
    }
  }

  lemma AppendLinked<K, V>(t: Table, home: seq<nat>, elems: Entries<K, V>, hashOf: K -> nat, key: K, value: V, p: nat)
    requires |t.hash| == |t.index| && Linked(t, home, elems, hashOf)
    requires p < |t.hash| && t.hash[p] < 2
    ensures Linked(t.Set(p, StoredHash(hashOf(key)), |elems|), home + [p], elems + [Entry(key, value)], hashOf)
  {
  }

  lemma RehashLinked<K, V>(t: Table, home: seq<nat>, t': Table, home': seq<nat>, elems: Entries<K, V>, hashOf: K -> nat)
    requires |t.hash| == |t.index| && |t'.hash| == |t'.index| && Linked(t, home, elems, hashOf)
    requires t'.Bijective(home') && |home'| == |home|
    requires forall i :: 0 <= i < |home| ==> t'.hash[home'[i]] == t.hash[home[i]]
    ensures Linked(t', home', elems, hashOf)
  {
    forall p | 0 <= p < |t'.hash| && t'.hash[p] >= 2
      ensures 0 <= t'.index[p] < |elems| && t'.hash[p] == StoredHash(hashOf(elems[t'.index[p]].key))
    {
      var i := t'.index[p];
      assert t.hash[home[i]] >= 2;
    }
  }

  /** Burying the slot of the last element. */
  lemma DeleteLastLinked<K, V>(t: Table, home: seq<nat>, elems: Entries<K, V>, hashOf: K -> nat, p: nat)
    requires |t.hash| == |t.index| && Linked(t, home, elems, hashOf)
    requires t.InUse(p) && t.index[p] == |elems| - 1
    ensures var f := |elems| - 1;
            Linked(t.Set(p, HASH_DELETED, INDEX_DELETED), home[..f], elems[..f], hashOf)
  {
  }

  /** After the slot of a deleted element is buried and the last element is copied over it, two array
      cells hold the same key. The pointers are still right, and the only slot with that key is the one
      that held the last index. */
  lemma SecondLookup<K, V>(t: Table, home: seq<nat>, elems: Entries<K, V>, hashOf: K -> nat, p: nat)
    requires |t.hash| == |t.index| && Linked(t, home, elems, hashOf) && Distinct(elems)
    requires t.InUse(p) && t.index[p] < |elems| - 1
    ensures var f := |elems| - 1;
            var t1 := t.Set(p, HASH_DELETED, INDEX_DELETED);
            var moved := elems[t.index[p] := elems[f]];
            && moved[t.index[p]] == moved[f]
            && t1.Points(moved, hashOf)
            && !t1.Lacks(moved, moved[f].key)
            && forall q :: 0 <= q < |t1.hash| && t1.hash[q] >= 2 && moved[t1.index[q]].key == moved[f].key
                 ==> q == home[f] && t1.index[q] == f
  {
    var f := |elems| - 1;
    var t1 := t.Set(p, HASH_DELETED, INDEX_DELETED);
    var moved := elems[t.index[p] := elems[f]];
    assert t1.hash[home[f]] >= 2 && t1.index[home[f]] == f;
    forall q | 0 <= q < |t1.hash| && t1.hash[q] >= 2 && moved[t1.index[q]].key == moved[f].key
      ensures q == home[f] && t1.index[q] == f
    {
      assert home[t.index[q]] == q && home[t.index[p]] == p;
    }
  }

  lemma SwapDeleteLinked<K, V>(t: Table, home: seq<nat>, elems: Entries<K, V>, hashOf: K -> nat, p: nat, q: nat)
    requires |t.hash| == |t.index| && Linked(t, home, elems, hashOf)
    requires t.InUse(p) && t.index[p] < |elems| - 1
    requires q == home[|elems| - 1]
    ensures var f, o := |elems| - 1, t.index[p];
            var t1 := t.Set(p, HASH_DELETED, INDEX_DELETED);
            q < |t.hash| && Linked(t1.Set(q, t1.hash[q], o), home[o := q][..f], elems[o := elems[f]][..f], hashOf)
  {
    var f, o := |elems| - 1, t.index[p];
    assert home[o] == p;
  }

  lemma AppendDistinct<K, V>(elems: Entries<K, V>, key: K, value: V)
    requires Distinct(elems) && IndexOf(elems, key) == -1
    ensures Distinct(elems + [Entry(key, value)])
  {
    hide IndexOf;
  }

  lemma DeleteDistinct<K, V>(elems: Entries<K, V>, o: nat)
    requires Distinct(elems) && o < |elems|
    ensures Distinct(elems[o := elems[|elems| - 1]][..|elems| - 1])
  {
  }

  class HashMap<K(==), V> {
    const hashOf: K -> nat
    var elems: Entries<K, V>
    var capacity: nat
    var table: HashIndex?<K, V>
    ghost var home: seq<nat>
    ghost var work: nat

    ghost function Repr(): set<object>
      reads this
    {
      if table == null then {this} else {this, table, table.hash, table.index}
    }

    ghost predicate TableValid(t: HashIndex<K, V>)
      reads this, t, t.hash, t.index
    {
      && t.Valid()
      && t.usedCount == |elems|
      && ShrinkThreshold(t.slotCount) <= t.usedCount <= UsedThreshold(t.slotCount)
      && t.tombstoneCount <= TombstoneThreshold(t.slotCount)
      && Linked(t.View(), home, elems, hashOf)
    }

    ghost predicate Valid()
      reads this, Repr()
    {
      && Distinct(elems)
      && (capacity == 0 ==> table == null)
      && (capacity > 0 ==> capacity >= 4 && |elems| + 1 <= capacity)
      && (table == null ==> elems == [])
      && (table != null ==> TableValid(table))
    }

    /** The sizes that decide resizing. */
    ghost function CurrentSizes(): Sizes
      reads this, table
    {
      if table == null then Sizes(0, |elems|, 0, capacity)
      else Sizes(table.slotCount, table.usedCount, table.tombstoneCount, capacity)
    }

    constructor (hashOf: K -> nat)
      ensures Valid() && fresh(Repr())
      ensures this.hashOf == hashOf && elems == [] && work == 0
      ensures CurrentSizes() == Sizes(0, 0, 0, 0)
    {
      this.hashOf := hashOf;
      elems, capacity, table, home, work := [], 0, null, [], 0;
    }

    /** Lookup: the array index of a key, or -1. */
    method Get(key: K) returns (i: int)
      requires Valid()
      ensures i == IndexOf(elems, key)
    {
      if table == null {
        return -1;
      }
      var slot := table.FindSlot(elems, hashOf, key);
      if slot < 0 {
        LacksMeansAbsent(table.View(), home, elems, hashOf, key);
        return -1;
      }
      i := table.index[slot];
      IndexIsUnique(elems, key, i);
    }

    /** Replace the table by one of `slots` slots without tombstones. */
    method Resize(slots: nat)
      requires Distinct(elems) && capacity > 0
      requires (capacity >= 4 && |elems| + 1 <= capacity)
      requires table != null && table.Valid() && table.usedCount == |elems|
      requires Linked(table.View(), home, elems, hashOf)
      requires ValidSlotCount(slots) && table.usedCount < slots
      requires ShrinkThreshold(slots) <= table.usedCount <= UsedThreshold(slots)
      modifies this
      ensures Valid() && table != null && fresh(Repr() - {this})
      ensures elems == old(elems) && capacity == old(capacity)
      ensures CurrentSizes() == Resized(old(CurrentSizes()), slots).sizes
      ensures work == old(work) + Resized(old(CurrentSizes()), slots).work
    {
      var t, newHome := table.Rehash(slots, home);
      RehashLinked(table.View(), home, t.View(), newHome, elems, hashOf);
      table, home := t, newHome;
      work := work + t.work;
    }

    /** Before a put: a table that is not over its threshold. */
    method EnsureRoom()
      requires Valid() && capacity > 0
      modifies this
      ensures Valid() && table != null
      ensures fresh(Repr() - old(Repr()))
      ensures elems == old(elems) && table.usedCount < UsedThreshold(table.slotCount)
      ensures CurrentSizes() == EnsureRoomEffect(old(CurrentSizes())).sizes
      ensures work == old(work) + EnsureRoomEffect(old(CurrentSizes())).work
    {
      if table == null {
        SmallestTable();
        table := new HashIndex<K, V>(BUCKET_LENGTH);
        home := [];
        work := work + table.work;
      } else if table.usedCount >= UsedThreshold(table.slotCount) {
        DoubledTable(table.slotCount);
        Resize(table.slotCount * 2);
      }
    }

    /** Put an element for a new key into a table that has room. */
    method Append(slot: nat, key: K, value: V, reused: bool)
      requires Valid() && table != null && capacity > 0
      requires table.usedCount < UsedThreshold(table.slotCount)
      requires slot < table.slotCount && table.hash[slot] == (if reused then HASH_DELETED else HASH_EMPTY)
      requires ProbeReaches(table.View(), StoredHash(hashOf(key)), slot)
      requires IndexOf(elems, key) == -1
      modifies Repr()
      ensures Valid() && Repr() == old(Repr())
      ensures elems == old(elems) + [Entry(key, value)]
      ensures table.View() == old(table.View()).Set(slot, StoredHash(hashOf(key)), |old(elems)|)
      ensures CurrentSizes() == AppendEffect(old(CurrentSizes()), reused).sizes
      ensures work == old(work) + AppendEffect(old(CurrentSizes()), reused).work
    {
      hide Count, IndexOf, Distinct, Linked, ProbeReaches, Table.Set;
      AppendDistinct(elems, key, value);
      ThresholdsLeaveRoom(table.slotCount);
      AppendLinked(table.View(), home, elems, hashOf, key, value, slot);
      table.Fill(slot, StoredHash(hashOf(key)), |elems|, reused);
      if |elems| + 2 > capacity {
        work := work + |elems| + 1;
        capacity := GrownCapacity(|elems| + 1, capacity, 1, 0);
      }
      home := home + [slot];
      elems := elems + [Entry(key, value)];
    }

    /** Give the element of an existing key a new value. */
    method Update(i: nat, key: K, value: V)
      requires Valid() && i < |elems| && elems[i].key == key
      modifies this`elems
      ensures Valid() && Repr() == old(Repr())
      ensures elems == old(elems)[i := Entry(key, value)]
      ensures CurrentSizes() == old(CurrentSizes())
    {
      elems := elems[i := Entry(key, value)];
    }

    /** Table `t'` is `t` with a new key at the place where its probe puts it. */
    ghost predicate PutAt(t: Table, t': Table, key: K, i: nat, reused: bool) {
      var h := StoredHash(hashOf(key));
      && t.WellFormed()
      && exists slot :: 0 <= slot < |t.hash| && PlaceForPut(t, h, slot, reused) && t' == t.Set(slot, h, i)
    }

    /** A put into a table that has room. */
    method PutWithRoom(key: K, value: V) returns (i: nat, ghost reused: bool)
      requires Valid() && table != null && capacity > 0
      requires table.usedCount < UsedThreshold(table.slotCount)
      modifies Repr()
      ensures Valid() && Repr() == old(Repr())
      ensures elems == AfterPut(old(elems), key, value)
      ensures i < |elems| && elems[i] == Entry(key, value)
      ensures IndexOf(old(elems), key) == -1 ==> PutAt(old(table.View()), table.View(), key, |old(elems)|, reused)
      ensures var e := if IndexOf(old(elems), key) == -1 then AppendEffect(old(CurrentSizes()), reused)
                       else Effect(old(CurrentSizes()), 0);
              CurrentSizes() == e.sizes && work == old(work) + e.work
    {
      var scan, tombstone := table.ProbeForPut(elems, hashOf, key);
      reused := tombstone;
      if scan.Found? {
        i := table.index[scan.slot];
        IndexIsUnique(elems, key, i);
        Update(i, key, value);
      } else {
        LacksMeansAbsent(table.View(), home, elems, hashOf, key);
        i := |elems|;
        Append(scan.slot, key, value, tombstone);
      }
    }

    /** Insert or update: grow first if the table is over its threshold, even when the key is present. */
    method Put(key: K, value: V) returns (i: nat, ghost reused: bool)
      requires Valid()
      modifies Repr()
      ensures Valid() && fresh(Repr() - old(Repr()))
      ensures elems == AfterPut(old(elems), key, value)
      ensures i < |elems| && elems[i] == Entry(key, value)
      ensures CurrentSizes() == PutEffect(old(CurrentSizes()), IndexOf(old(elems), key) == -1, reused).sizes
      ensures work == old(work) + PutEffect(old(CurrentSizes()), IndexOf(old(elems), key) == -1, reused).work
    {
      if capacity == 0 {
        capacity := GrownCapacity(0, 0, 0, 1);
      }
      EnsureRoom();
      i, reused := PutWithRoom(key, value);
    }

    /** What removal leaves, before the table is resized. */
    ghost predicate Removed(t: HashIndex<K, V>)
      reads this, t, t.hash, t.index
    {
      && t.Valid() && Distinct(elems) && t.usedCount == |elems|
      && Linked(t.View(), home, elems, hashOf)
    }

    /** Bury the slot of the last element. */
    method RemoveLast(t: HashIndex<K, V>, slot: nat)
      requires Removed(t) && slot < t.slotCount && t.hash[slot] >= 2
      requires t.index[slot] == |elems| - 1
      modifies this`elems, this`home, t, t.hash, t.index
      ensures Removed(t) && elems == old(elems)[..|old(elems)| - 1]
      ensures t.usedCount == old(t.usedCount) - 1 && t.tombstoneCount == old(t.tombstoneCount) + 1
    {
      DeleteLastLinked(t.View(), home, elems, hashOf, slot);
      t.Bury(slot);
      home := home[..|elems| - 1];
      elems := elems[..|elems| - 1];
    }

    /** Bury a slot, move the last element into the hole, and redirect the last element's slot. */
    method RemoveBySwap(t: HashIndex<K, V>, slot: nat)
      requires Removed(t) && slot < t.slotCount && t.hash[slot] >= 2
      requires t.index[slot] < |elems| - 1
      modifies this`elems, this`home, t, t.hash, t.index
      ensures Removed(t)
      ensures var o, f := old(t.index[slot]), |old(elems)| - 1; elems == old(elems)[o := old(elems)[f]][..f]
      ensures t.usedCount == old(t.usedCount) - 1 && t.tombstoneCount == old(t.tombstoneCount) + 1
    {
      hide Count;
      ghost var before := t.View();
      var o := t.index[slot];
      var f := |elems| - 1;
      SecondLookup(before, home, elems, hashOf, slot);
      SwapDeleteLinked(before, home, elems, hashOf, slot, home[f]);
      DeleteDistinct(elems, o);
      t.Bury(slot);
      elems := elems[o := elems[f]];
      var last := t.FindSlot(elems, hashOf, elems[o].key);
      assert last == home[f] && t.index[last] == f;
      t.Redirect(last, o);
      home := home[o := last][..f];
      elems := elems[..f];
    }

    /** After a removal: a table with few elements shrinks, one with many tombstones is rebuilt. */
    method ShrinkOrRebuild()
      requires Distinct(elems) && capacity >= 4 && |elems| + 1 <= capacity
      requires table != null && Removed(table)
      requires ShrinkThreshold(table.slotCount) <= table.usedCount + 1
      requires table.usedCount <= UsedThreshold(table.slotCount)
      modifies this
      ensures Valid() && table != null && fresh(Repr() - old(Repr()))
      ensures elems == old(elems) && capacity == old(capacity)
      ensures var n, u, d := old(table.slotCount), old(table.usedCount), old(table.tombstoneCount);
              var e := if u < ShrinkThreshold(n) && n > BUCKET_LENGTH then Resized(old(CurrentSizes()), n / 2)
                       else if d > TombstoneThreshold(n) then Resized(old(CurrentSizes()), n)
                       else Effect(old(CurrentSizes()), 0);
              CurrentSizes() == e.sizes && work == old(work) + e.work
    {
      if table.usedCount < ShrinkThreshold(table.slotCount) && table.slotCount > BUCKET_LENGTH {
        HalvedTable(table.slotCount);
        Resize(table.slotCount / 2);
      } else if table.tombstoneCount > TombstoneThreshold(table.slotCount) {
        Resize(table.slotCount);
      }
    }

    /** Delete; tells whether the key was present. */
    method Delete(key: K) returns (deleted: bool)
      requires Valid()
      modifies Repr()
      ensures Valid() && fresh(Repr() - old(Repr()))
      ensures deleted == (IndexOf(old(elems), key) >= 0)
      ensures elems == AfterDelete(old(elems), key)
      ensures CurrentSizes() == DeleteEffect(old(CurrentSizes()), deleted).sizes
      ensures work == old(work) + DeleteEffect(old(CurrentSizes()), deleted).work
    {
      hide Count, IndexOf, Distinct, Table.Reachable, Table.Bijective;
      if table == null {
        return false;
      }
      var slot := table.FindSlot(elems, hashOf, key);
      if slot < 0 {
        LacksMeansAbsent(table.View(), home, elems, hashOf, key);
        return false;
      }
      IndexIsUnique(elems, key, table.index[slot]);
      DeleteAt(slot);
      return true;
    }

    method RemoveAt(t: HashIndex<K, V>, slot: nat)
      requires Removed(t) && slot < t.slotCount && t.hash[slot] >= 2
      modifies this`elems, this`home, t, t.hash, t.index
      ensures Removed(t)
      ensures var o, f := old(t.index[slot]), |old(elems)| - 1;
              0 <= o <= f && elems == old(elems)[o := old(elems)[f]][..f]
      ensures t.usedCount == old(t.usedCount) - 1 && t.tombstoneCount == old(t.tombstoneCount) + 1
    {
      if t.index[slot] == |elems| - 1 {
        assert elems[|elems| - 1 := elems[|elems| - 1]] == elems;
        RemoveLast(t, slot);
      } else {
        RemoveBySwap(t, slot);
      }
    }

    method DeleteAt(slot: nat)
      requires Valid() && table != null && slot < table.slotCount && table.hash[slot] >= 2
      modifies Repr()
      ensures Valid() && fresh(Repr() - old(Repr()))
      ensures var o, f := old(table.index[slot]), |old(elems)| - 1;
              0 <= o <= f && elems == old(elems)[o := old(elems)[f]][..f]
      ensures CurrentSizes() == DeleteEffect(old(CurrentSizes()), true).sizes
      ensures work == old(work) + DeleteEffect(old(CurrentSizes()), true).work
    {
      hide Linked, Distinct, HashIndex.Valid, HashIndex.View;
      RemoveAt(table, slot);
      ShrinkOrRebuild();
    }
  }
}
