/** The string arena: strings are carved from the end of the newest block downwards. */
module StringArenas {
  const BLOCKSIZE_MIN: nat := 512
  const BLOCKSIZE_MAX: nat := 0x10_0000
  const TERMINATOR: char := '\0'

  function ShiftLeft(x: nat, k: nat): nat {
    if k == 0 then x else 2 * ShiftLeft(x, k - 1)
  }

  /** The size of a regular block: 512, 512, 1024, 1024, 2048, ... */
  function BlockSize(step: nat): nat { ShiftLeft(BLOCKSIZE_MIN, step / 2) }

  /** The step stops advancing at one megabyte, so it fits its byte and sizes stay bounded. */
  lemma BlockSizeBounded(step: nat)
    requires step <= 22
    ensures BLOCKSIZE_MIN <= BlockSize(step) <= BLOCKSIZE_MAX
    ensures step == 22 <==> BlockSize(step) >= BLOCKSIZE_MAX
  {
    ShiftMonotone(step / 2, 11);
    ShiftMonotone(0, step / 2);
    if step < 22 {
      ShiftMonotone(step / 2, 10);
    }
    assert ShiftLeft(512, 1) == 1024;
    assert ShiftLeft(512, 2) == 2048;
    assert ShiftLeft(512, 4) == 8192;
    assert ShiftLeft(512, 6) == 32768;
    assert ShiftLeft(512, 8) == 131072;
    assert ShiftLeft(512, 10) == 524288;
  }

  lemma {:induction false} ShiftMonotone(j: nat, k: nat)
    requires j <= k
    ensures ShiftLeft(512, j) <= ShiftLeft(512, k)
  {
    if j < k {
      ShiftMonotone(j, k - 1);
    }
  }

  /** Each size is used for two blocks, the first at 512 bytes. */
  lemma BlockSizesDouble(step: nat)
    ensures BlockSize(0) == BlockSize(1) == BLOCKSIZE_MIN && BlockSize(step + 2) == 2 * BlockSize(step)
  {
  }

  /** The blocks with one more behind the newest. */
  function BehindNewest<T>(blocks: seq<T>, b: T): seq<T> {
    if blocks == [] then [b] else [blocks[0], b] + blocks[1..]
  }

  /** Where an allocated string lies. */
  datatype Region = Region(block: array<char>, offset: nat, length: nat)

  ghost predicate Apart(a: Region, b: Region) {
    a.block != b.block || a.offset + a.length <= b.offset || b.offset + b.length <= a.offset
  }

  /** The region holds a string and its terminator. */
  ghost predicate Contains(r: Region, text: string)
    reads r.block
  {
    && r.length == |text| + 1 && r.offset + r.length <= r.block.Length
    && (forall k :: 0 <= k < |text| ==> r.block[r.offset + k] == text[k])
    && r.block[r.offset + |text|] == TERMINATOR
  }

  class StringArena {
    var storage: seq<array<char>>
    var remaining: nat
    var step: nat
    ghost var regions: seq<Region>
    ghost var texts: seq<string>

    /** Every region lies inside its block, holds its string and terminator, and does not touch the free
        part of the newest block; no two regions overlap. */
    ghost predicate Valid()
      reads this, set b | b in storage
    {
      && |regions| == |texts|
      && step <= 22
      && (storage == [] ==> remaining == 0)
      && (storage != [] ==> remaining <= storage[0].Length)
      && (forall i :: 0 <= i < |regions| ==>
            && regions[i].block in storage
            && regions[i].length == |texts[i]| + 1
            && regions[i].offset + regions[i].length <= regions[i].block.Length
            && (regions[i].block == storage[0] ==> remaining <= regions[i].offset))
      && (forall i :: 0 <= i < |regions| ==> Contains(regions[i], texts[i]))
      && (forall i, j :: 0 <= i < j < |regions| ==> Apart(regions[i], regions[j]))
    }

    constructor ()
      ensures Valid() && regions == [] && texts == [] && storage == []
    {
      storage, remaining, step, regions, texts := [], 0, 0, [], [];
    }

    /** Write a string and its terminator. */
    static method Store(block: array<char>, offset: nat, text: string)
      requires offset + |text| + 1 <= block.Length
      modifies block
      ensures Contains(Region(block, offset, |text| + 1), text)
      ensures forall k :: 0 <= k < block.Length && !(offset <= k < offset + |text| + 1) ==> block[k] == old(block[k])
    {
      for k := 0 to |text|
        invariant forall l :: 0 <= l < k ==> block[offset + l] == text[l]
        invariant forall l :: 0 <= l < block.Length && !(offset <= l < offset + k) ==> block[l] == old(block[l])
      {
        block[offset + k] := text[k];
      }
      block[offset + |text|] := TERMINATOR;
    }

    /** A string larger than a regular block gets a block of its own, behind the newest one. */
    method AllocateOwnBlock(text: string) returns (r: Region)
      requires Valid()
      modifies this
      ensures Valid() && fresh(r.block) && r.block.Length == |text| + 1
      ensures regions == old(regions) + [r] && texts == old(texts) + [text]
      ensures step == old(step)
      ensures storage == BehindNewest(old(storage), r.block) && remaining == old(remaining) && r.offset == 0
      ensures forall b :: b in storage ==> b in old(storage) || (b == r.block && fresh(b))
    {
      var sb := new char[|text| + 1](_ => TERMINATOR);
      Store(sb, 0, text);
      if storage != [] {
        storage := [storage[0], sb] + storage[1..];
      } else {
        storage := [sb];
        remaining := 0;
      }
      r := Region(sb, 0, |text| + 1);
      regions, texts := regions + [r], texts + [text];
    }

    /** A fresh newest block. */
    method AddBlock(size: nat)
      requires Valid()
      modifies this
      ensures Valid() && storage != [] && remaining == size && fresh(storage[0])
      ensures storage[0].Length == size && storage == [storage[0]] + old(storage)
      ensures forall b :: b in storage ==> b in old(storage) || fresh(b)
      ensures regions == old(regions) && texts == old(texts) && step == old(step)
    {
      var sb := new char[size](_ => TERMINATOR);
      storage := [sb] + storage;
      remaining := size;
    }

    /** Carve from the end of the free part of the newest block. */
    method Carve(text: string) returns (r: Region)
      requires Valid() && storage != [] && |text| + 1 <= remaining
      modifies this, storage[0]
      ensures Valid()
      ensures regions == old(regions) + [r] && texts == old(texts) + [text]
      ensures step == old(step) && storage == old(storage)
      ensures r.block == storage[0] && r.offset == remaining == old(remaining) - (|text| + 1)
    {
      var offset := remaining - (|text| + 1);
      var block := storage[0];
      Store(block, offset, text);
      remaining := offset;
      r := Region(storage[0], offset, |text| + 1);
      regions, texts := regions + [r], texts + [text];
    }

    /** Allocate a string: directly below the last one if it fits the free part of the newest block, else at the
        end of one new block of the next size, or in a block of its own if it does not fit that. All earlier
        strings keep their place and their contents. */
    method Alloc(text: string) returns (r: Region)
      requires Valid()
      modifies this, storage
      ensures Valid()
      ensures |text| + 1 <= old(remaining) ==>
                && storage == old(storage) && step == old(step)
                && r.block == storage[0] && r.offset == remaining == old(remaining) - (|text| + 1)
      ensures |text| + 1 > old(remaining) ==>
                step == old(step) + (if BlockSize(old(step)) < BLOCKSIZE_MAX then 1 else 0)
      ensures old(remaining) < |text| + 1 <= BlockSize(old(step)) ==>
                && storage == [r.block] + old(storage) && r.block.Length == BlockSize(old(step))
                && r.offset == remaining == r.block.Length - (|text| + 1)
      ensures |text| + 1 > old(remaining) && |text| + 1 > BlockSize(old(step)) ==>
                && storage == BehindNewest(old(storage), r.block) && r.block.Length == |text| + 1
                && r.offset == 0 && remaining == old(remaining)
      ensures regions == old(regions) + [r] && texts == old(texts) + [text]
      ensures forall b :: b in storage ==> b in old(storage) || fresh(b)
      ensures forall b :: b in storage && b !in old(storage) ==> b.Length <= BLOCKSIZE_MAX || b.Length == |text| + 1
    {
      if |text| + 1 > remaining {
        var size := BlockSize(step);
        BlockSizeBounded(step);
        if size < BLOCKSIZE_MAX {
          step := step + 1;
        }
        if |text| + 1 > size {
          r := AllocateOwnBlock(text);
          return;
        }
        AddBlock(size);
      }
      r := Carve(text);
    }
  }

  /** A block of regular size, or of its own for one string. */
  ghost predicate Bounded(b: array<char>, texts: seq<string>) {
    b.Length <= BLOCKSIZE_MAX || exists i :: 0 <= i < |texts| && b.Length == |texts[i]| + 1
  }

  /** Allocate any strings one after the other: each stays whole where it was put, no two overlap, and no block
      is larger than a megabyte or its only string. */
  method Replay(texts: seq<string>) returns (arena: StringArena, regions: seq<Region>)
    ensures fresh(arena) && arena.Valid() && |regions| == |texts|
    ensures forall i :: 0 <= i < |texts| ==> Contains(regions[i], texts[i])
    ensures forall i, j :: 0 <= i < j < |texts| ==> Apart(regions[i], regions[j])
    ensures forall b :: b in arena.storage ==> Bounded(b, texts)
  {
    arena := new StringArena();
    regions := [];
    for i := 0 to |texts|
      invariant fresh(arena) && arena.Valid() && forall k :: 0 <= k < |arena.storage| ==> fresh(arena.storage[k])
      invariant arena.regions == regions && arena.texts == texts[..i]
      invariant forall b :: b in arena.storage ==> Bounded(b, texts)
    {
      ghost var was := arena.storage;
      var r := arena.Alloc(texts[i]);
      forall k | 0 <= k < |arena.storage| ensures fresh(arena.storage[k]) {
        assert arena.storage[k] in arena.storage;
        if arena.storage[k] in was {
          var j :| 0 <= j < |was| && was[j] == arena.storage[k];
        }
      }
      regions := regions + [r];
    }
  }
}
