/** When the table grows, shrinks or is rebuilt, what that costs, and why the cost is amortised. */
module HashCost {
  import opened PowerOfTwo
  import opened Probing

  function UsedThreshold(slotCount: nat): nat { slotCount - slotCount / 4 }
  function TombstoneThreshold(slotCount: nat): nat { slotCount / 8 + slotCount / 16 }
  function ShrinkThreshold(slotCount: nat): nat { if slotCount <= BUCKET_LENGTH then 0 else slotCount / 4 }

  /** The sizes that decide all resizing. No table yet is `slots == 0`, no element array `capacity == 0`. */
  datatype Sizes = Sizes(slots: nat, used: nat, tombstones: nat, capacity: nat) {
    /** The thresholds hold between calls; the array always holds the default element as well. */
    ghost predicate Valid() {
      && (slots == 0 ==> used == tombstones == 0)
      && (slots > 0 ==>
            && ValidSlotCount(slots) && capacity > 0
            && ShrinkThreshold(slots) <= used <= UsedThreshold(slots) && tombstones <= TombstoneThreshold(slots))
      && (capacity > 0 ==> capacity >= 4 && used + 1 <= capacity)
      && (capacity == 0 ==> used == 0)
    }
  }

  /** The thresholds leave an empty slot in every table, so that probe loops end. */
  lemma ThresholdsLeaveRoom(n: nat)
    requires ValidSlotCount(n)
    ensures UsedThreshold(n) + TombstoneThreshold(n) < n
    ensures 0 < UsedThreshold(n)
  {
    if n > 8 {
      HalvedTable(n);
    }
  }

  /** The capacity after making room for `extra` more elements and at least `minimum` in all. */
  function GrownCapacity(length: nat, capacity: nat, extra: nat, minimum: nat): (c: nat)
    ensures c >= capacity && c >= length + extra && c >= minimum
  {
    var needed := if length + extra > minimum then length + extra else minimum;
    if needed <= capacity then capacity
    else if needed < 2 * capacity then 2 * capacity
    else if needed < 4 then 4
    else needed
  }

  /** Sizes after an operation, and the work done: slots filled, slots visited and reinserted, elements copied. */
  datatype Effect = Effect(sizes: Sizes, work: nat)

  function Resized(s: Sizes, slots: nat): Effect {
    Effect(s.(slots := slots, tombstones := 0), slots + s.slots + s.used)
  }

  /** A put first makes sure that the table exists and is not over its threshold. */
  function EnsureRoomEffect(s: Sizes): Effect {
    if s.slots == 0 then Resized(s, BUCKET_LENGTH)
    else if s.used >= UsedThreshold(s.slots) then Resized(s, s.slots * 2)
    else Effect(s, 0)
  }

  function EnsureArrayEffect(s: Sizes): Sizes {
    if s.capacity == 0 then s.(capacity := GrownCapacity(0, 0, 0, 1)) else s
  }

  /** A new element: one more slot in use, perhaps a tombstone less, perhaps a longer array. */
  function AppendEffect(s: Sizes, reused: bool): Effect {
    var grow := s.used + 2 > s.capacity;
    Effect(
      s.(used := s.used + 1,
         tombstones := if reused && s.tombstones > 0 then s.tombstones - 1 else s.tombstones,
         capacity := if grow then GrownCapacity(s.used + 1, s.capacity, 1, 0) else s.capacity),
      if grow then s.used + 1 else 0)
  }

  function PutEffect(s: Sizes, isNew: bool, reused: bool): Effect {
    var room := EnsureRoomEffect(EnsureArrayEffect(s));
    if isNew then
      var appended := AppendEffect(room.sizes, reused);
      Effect(appended.sizes, room.work + appended.work)
    else room
  }

  /** A delete leaves a tombstone, and then shrinks the table, or rebuilds it, or neither. */
  function DeleteEffect(s: Sizes, isPresent: bool): Effect {
    if !isPresent || s.used == 0 then Effect(s, 0)
    else
      var d := s.(used := s.used - 1, tombstones := s.tombstones + 1);
      if d.used < ShrinkThreshold(d.slots) && d.slots > BUCKET_LENGTH then Resized(d, d.slots / 2)
      else if d.tombstones > TombstoneThreshold(d.slots) then Resized(d, d.slots)
      else Effect(d, 0)
  }

  datatype Operation = Put(isNew: bool, reused: bool) | Delete(isPresent: bool)

  function OperationEffect(s: Sizes, op: Operation): Effect {
    match op
    case Put(isNew, reused) => PutEffect(s, isNew, reused)
    case Delete(isPresent) => DeleteEffect(s, isPresent)
  }

  function Excess(a: int): nat { if a > 0 then a else 0 }

  /** Work saved up for the next growth, shrink, rebuild and array growth. */
  ghost function Potential(s: Sizes): nat {
    11 * Excess(2 * s.used - s.slots) + 7 * Excess(s.slots / 2 - s.used) + 15 * s.tombstones
    + (if s.capacity == 0 then 0 else Excess(2 * (s.used + 1) - s.capacity))
  }

  lemma EnsureRoomPays(s: Sizes)
    requires s.Valid() && s.capacity > 0
    ensures var e := EnsureRoomEffect(s);
            && e.sizes.Valid() && e.sizes.slots > 0 && e.sizes.used < UsedThreshold(e.sizes.slots)
            && e.sizes.used == s.used && e.sizes.capacity == s.capacity
            && e.work + Potential(e.sizes) <= Potential(s) + (if s.slots == 0 then 36 else 0)
  {
    if s.slots == 0 {
      SmallestTable();
    } else {
      ThresholdsLeaveRoom(s.slots);
      DoubledTable(s.slots);
    }
  }

  lemma AppendPays(s: Sizes, reused: bool)
    requires s.Valid() && s.slots > 0 && s.used < UsedThreshold(s.slots)
    ensures var e := AppendEffect(s, reused);
            && e.sizes.Valid() && e.sizes.slots > 0
            && e.work + Potential(e.sizes) <= Potential(s) + 25
  {
  }

  lemma PutPays(s: Sizes, isNew: bool, reused: bool)
    requires s.Valid()
    ensures var e := PutEffect(s, isNew, reused);
            && e.sizes.Valid() && e.sizes.slots > 0
            && e.work + Potential(e.sizes) <= Potential(s) + 25 + (if s.slots == 0 then 36 else 0)
  {
    var a := EnsureArrayEffect(s);
    EnsureRoomPays(a);
    if isNew {
      AppendPays(EnsureRoomEffect(a).sizes, reused);
    }
  }

  lemma ShrinkPays(s: Sizes)
    requires s.slots > BUCKET_LENGTH && s.used < ShrinkThreshold(s.slots)
    requires ValidSlotCount(s.slots) && s.capacity >= 4 && s.used + 1 <= s.capacity
    requires ShrinkThreshold(s.slots) <= s.used + 1
    ensures var e := Resized(s, s.slots / 2);
            && e.sizes.Valid() && e.sizes.slots > 0
            && e.work + Potential(e.sizes) <= Potential(s) + 3
  {
    HalvedTable(s.slots);
  }

  lemma RebuildPays(s: Sizes)
    requires s.slots >= BUCKET_LENGTH && s.tombstones > TombstoneThreshold(s.slots)
    requires ShrinkThreshold(s.slots) <= s.used
    requires ValidSlotCount(s.slots) && s.capacity >= 4 && s.used + 1 <= s.capacity
    requires s.used <= UsedThreshold(s.slots)
    ensures var e := Resized(s, s.slots);
            && e.sizes.Valid() && e.sizes.slots > 0
            && e.work + Potential(e.sizes) <= Potential(s)
  {
  }

  lemma BuryPays(s: Sizes)
    requires s.used > 0
    ensures Potential(s.(used := s.used - 1, tombstones := s.tombstones + 1)) <= Potential(s) + 22
  {
  }

  lemma DeletePays(s: Sizes, isPresent: bool)
    requires s.Valid()
    ensures var e := DeleteEffect(s, isPresent);
            && e.sizes.Valid() && (e.sizes.slots > 0 <==> s.slots > 0)
            && e.work + Potential(e.sizes) <= Potential(s) + 25
  {
    hide Potential, IsPowerOfTwo;
    if isPresent && s.used > 0 {
      var d := s.(used := s.used - 1, tombstones := s.tombstones + 1);
      BuryPays(s);
      if d.used < ShrinkThreshold(d.slots) && d.slots > BUCKET_LENGTH {
        ShrinkPays(d);
      } else if d.tombstones > TombstoneThreshold(d.slots) {
        RebuildPays(d);
      }
    }
  }

  /** The work of a run of operations from `s`. */
  function RunEffect(s: Sizes, ops: seq<Operation>): Effect
    decreases |ops|
  {
    if ops == [] then Effect(s, 0)
    else
      var e := OperationEffect(s, ops[0]);
      var rest := RunEffect(e.sizes, ops[1..]);
      Effect(rest.sizes, e.work + rest.work)
  }

  lemma {:induction false} RunPays(s: Sizes, ops: seq<Operation>)
    requires s.Valid()
    ensures RunEffect(s, ops).sizes.Valid()
    ensures RunEffect(s, ops).work <= Potential(s) + 25 * |ops| + (if s.slots == 0 then 36 else 0)
    decreases |ops|
  {
    if ops != [] {
      var op := ops[0];
      match op {
        case Put(isNew, reused) => PutPays(s, isNew, reused);
        case Delete(isPresent) => DeletePays(s, isPresent);
      }
      RunPays(OperationEffect(s, op).sizes, ops[1..]);
    }
  }

  /** All operations are O(1) amortised: any run of `k` puts and deletes on a new map fills,
      visits, reinserts and copies no more than 36 (k + 1) slots and elements in all. */
  lemma AmortisedConstant(ops: seq<Operation>)
    ensures RunEffect(Sizes(0, 0, 0, 0), ops).work <= 36 * (|ops| + 1)
  {
    RunPays(Sizes(0, 0, 0, 0), ops);
  }

  /** The table stays within four slots for each element, beyond the smallest table, however many were deleted. */
  lemma LinearSpace(ops: seq<Operation>)
    ensures var s := RunEffect(Sizes(0, 0, 0, 0), ops).sizes;
            s.slots <= BUCKET_LENGTH || (s.slots <= 4 * s.used + 3 && s.used <= s.slots - s.slots / 4)
  {
    RunPays(Sizes(0, 0, 0, 0), ops);
  }
}
