/** The order in which a hash table visits its slots: whole buckets of eight, each scanned
    from the lane of the hash round to the lane before it, the bucket moving by triangular steps. */
module Probing {
  import opened PowerOfTwo

  const BUCKET_LENGTH: nat := 8

  predicate ValidSlotCount(n: nat) {
    n >= BUCKET_LENGTH && n % BUCKET_LENGTH == 0 && IsPowerOfTwo(n) && IsPowerOfTwo(n / BUCKET_LENGTH)
  }

  lemma SmallestTable()
    ensures ValidSlotCount(BUCKET_LENGTH)
  {
    assert IsPowerOfTwo(1) && IsPowerOfTwo(2) && IsPowerOfTwo(4);
  }

  lemma DoubledTable(n: nat)
    requires ValidSlotCount(n)
    ensures ValidSlotCount(2 * n)
  {
    assert 2 * n / 8 == 2 * (n / 8);
  }

  lemma HalvedTable(n: nat)
    requires ValidSlotCount(n) && n > 8
    ensures n % 16 == 0 && ValidSlotCount(n / 2)
  {
    assert n / 2 / 8 == n / 8 / 2;
  }

  /** The slot at which a stored hash starts probing. */
  function ProbePosition(hash: nat, slotCount: nat): (pos: nat)
    requires ValidSlotCount(slotCount)
    ensures pos < slotCount
  {
    MaskIsRemainder(hash, slotCount);
    BitAnd(hash, slotCount - 1)
  }

  /** The probe position of the next round. */
  function Advance(pos: nat, step: nat, slotCount: nat): (pos': nat)
    requires ValidSlotCount(slotCount)
    ensures pos' < slotCount
  {
    MaskIsRemainder(pos + step, slotCount);
    BitAnd(pos + step, slotCount - 1)
  }

  /** The probe position in round `r`: each round steps eight slots further than the one before. */
  function RoundStart(start: nat, n: nat, r: nat): (pos: nat)
    requires ValidSlotCount(n) && start < n
    ensures pos < n
  {
    if r == 0 then start else Advance(RoundStart(start, n, r - 1), BUCKET_LENGTH * r, n)
  }

  /** The `j`-th slot that a probe for `hash` looks at: a round scans one bucket, from the lane of
      the hash round to the lane before it. */
  function SlotAt(hash: nat, n: nat, j: nat): (slot: nat)
    requires ValidSlotCount(n)
    ensures slot < n
  {
    var start := ProbePosition(hash, n);
    RoundStart(start, n, j / BUCKET_LENGTH) / BUCKET_LENGTH * BUCKET_LENGTH + (start + j) % BUCKET_LENGTH
  }

  /** The bucket of round `r`. */
  function BucketAt(b: nat, m: nat, r: nat): (bucket: nat)
    requires b < m
    ensures bucket < m
  {
    if r == 0 then b else (BucketAt(b, m, r - 1) + r) % m
  }

  lemma EightfoldRemainder(b: nat, l: nat, m: nat)
    requires m > 0 && l < 8
    ensures (8 * b + l) % (8 * m) == 8 * (b % m) + l
  {
    var q := b / m;
    assert 8 * b + l == (8 * m) * q + (8 * (b % m) + l) by {
      assert b == m * q + b % m;
    }
    RemainderUnique(8 * b + l, 8 * m, q, 8 * (b % m) + l);
  }

  /** Adding a step of whole buckets keeps the lane and moves the bucket. */
  lemma AdvanceMovesBucket(pos: nat, n: nat, r: nat)
    requires ValidSlotCount(n) && pos < n
    ensures Advance(pos, 8 * r, n) == 8 * ((pos / 8 + r) % (n / 8)) + pos % 8
  {
    MaskIsRemainder(pos + 8 * r, n);
    EightfoldRemainder(pos / 8 + r, pos % 8, n / 8);
  }

  lemma RoundStep(start: nat, n: nat, r: nat, pos: nat)
    requires ValidSlotCount(n) && start < n && r > 0 && pos < n
    requires pos == 8 * BucketAt(start / 8, n / 8, r - 1) + start % 8
    ensures Advance(pos, 8 * r, n) == 8 * BucketAt(start / 8, n / 8, r) + start % 8
  {
    hide BitAnd, IsPowerOfTwo, Advance;
    assert pos / 8 == BucketAt(start / 8, n / 8, r - 1) && pos % 8 == start % 8;
    AdvanceMovesBucket(pos, n, r);
  }

  lemma {:induction false} RoundStartBucket(start: nat, n: nat, r: nat)
    requires ValidSlotCount(n) && start < n
    ensures RoundStart(start, n, r) == 8 * BucketAt(start / 8, n / 8, r) + start % 8
  {
    if r > 0 {
      RoundStartBucket(start, n, r - 1);
      RoundStep(start, n, r, RoundStart(start, n, r - 1));
    }
  }

  function Triangle(r: nat): nat {
    if r == 0 then 0 else Triangle(r - 1) + r
  }

  lemma {:induction false} TriangleClosedForm(r: nat)
    ensures 2 * Triangle(r) == r * (r + 1)
  {
    if r > 0 {
      TriangleClosedForm(r - 1);
      assert r * (r + 1) == (r - 1) * r + 2 * r;
    }
  }

  lemma {:induction false} BucketByTriangle(b: nat, m: nat, r: nat)
    requires b < m
    ensures BucketAt(b, m, r) == (b + Triangle(r)) % m
  {
    if r == 0 {
      SmallRemainder(b, m);
    } else {
      BucketByTriangle(b, m, r - 1);
      BucketStep(b, m, r);
    }
  }

  lemma BucketStep(b: nat, m: nat, r: nat)
    requires b < m && r > 0
    requires BucketAt(b, m, r - 1) == (b + Triangle(r - 1)) % m
    ensures BucketAt(b, m, r) == (b + Triangle(r)) % m
  {
    AddRemainder(b + Triangle(r - 1), r, m);
  }

  lemma TriangleGap(r: nat, r': nat)
    requires r < r'
    ensures 2 * (Triangle(r') - Triangle(r)) == (r' - r) * (r' + r + 1)
    ensures Triangle(r') > Triangle(r)
  {
    TriangleClosedForm(r);
    TriangleClosedForm(r');
    assert (r' - r) * (r' + r + 1) == r' * (r' + 1) - r * (r + 1);
    assert (r' - r) * (r' + r + 1) > 0;
  }

  lemma DoubledProduct(m: nat, k: nat)
    ensures 2 * (m * k) == (2 * m) * k
  {
  }

  lemma TriangleGapIsNoMultiple(m: nat, r: nat, r': nat, k: nat)
    requires IsPowerOfTwo(m) && r < r' < m
    ensures Triangle(r') - Triangle(r) != m * k
  {
    hide Triangle;
    TriangleGap(r, r');
    DoubledProduct(m, k);
    NoSmallMultiple(2 * m, r' - r, r' + r + 1, k);
  }

  /** Two rounds of one sweep never scan the same bucket. */
  lemma RoundsDiffer(b: nat, m: nat, r: nat, r': nat)
    requires IsPowerOfTwo(m) && b < m && r < r' < m
    ensures BucketAt(b, m, r) != BucketAt(b, m, r')
  {
    BucketByTriangle(b, m, r);
    BucketByTriangle(b, m, r');
    if BucketAt(b, m, r) == BucketAt(b, m, r') {
      TriangleGap(r, r');
      var k := CommonMultiple(b + Triangle(r), b + Triangle(r'), m);
      TriangleGapIsNoMultiple(m, r, r', k);
    }
  }

  lemma CommonMultiple(a: nat, b: nat, m: nat) returns (k: nat)
    requires m > 0 && a < b && a % m == b % m
    ensures b - a == m * k
  {
    SameRemainder(a, b, m);
    var q := b / m - a / m;
    if q < 0 {
      ScaledOrder(m, q, 0);
    }
    k := q;
  }

  lemma NoSmallMultiple(n: nat, x: nat, y: nat, k: nat)
    requires IsPowerOfTwo(n) && 0 < x < n && 0 < y < n
    requires (x + y) % 2 == 1
    ensures x * y != n * k
  {
    hide IsPowerOfTwo;
    SmallRemainder(x, n);
    SmallRemainder(y, n);
    assert y * x == x * y;
    if x * y == n * k {
      if x % 2 == 1 {
        OddFactor(n, x, y, k);
      } else {
        OddFactor(n, y, x, k);
      }
    }
  }

  lemma BucketsLookApart(start: nat, n: nat, r: nat, r': nat)
    requires ValidSlotCount(n) && start < n && r < r' < n / 8
    ensures RoundStart(start, n, r) / 8 != RoundStart(start, n, r') / 8
  {
    RoundsDiffer(start / 8, n / 8, r, r');
    RoundStartBucket(start, n, r);
    RoundStartBucket(start, n, r');
  }

  /** Probe coverage, first half: the first `n` probes look at `n` different slots. */
  lemma ProbesDiffer(hash: nat, n: nat, i: nat, j: nat)
    requires ValidSlotCount(n) && i < j < n
    ensures SlotAt(hash, n, i) != SlotAt(hash, n, j)
  {
    var start := ProbePosition(hash, n);
    if i / 8 < j / 8 {
      BucketsLookApart(start, n, i / 8, j / 8);
    } else {
      LanesDiffer(start, i, j);
    }
  }

  /** Within a bucket, the eight steps look at eight lanes. */
  lemma LanesDiffer(start: nat, i: nat, j: nat)
    requires i < j < i + 8
    ensures (start + i) % 8 != (start + j) % 8
  {
  }

  /** Probe coverage, second half: the first `n` probes leave out no slot. */
  lemma ProbesCover(hash: nat, n: nat, slot: nat)
    requires ValidSlotCount(n) && slot < n
    ensures exists j :: 0 <= j < n && SlotAt(hash, n, j) == slot
  {
    var visited := seq(n, j requires 0 <= j < n => SlotAt(hash, n, j));
    forall i, j | 0 <= i < j < n ensures visited[i] != visited[j] {
      ProbesDiffer(hash, n, i, j);
    }
    InjectionIsOnto(visited, slot);
  }

  /** The probe that looks at `slot`. */
  ghost function Rank(hash: nat, n: nat, slot: nat): (j: nat)
    requires ValidSlotCount(n) && slot < n
    ensures j < n && SlotAt(hash, n, j) == slot
  {
    ProbesCover(hash, n, slot);
    var j: nat :| j < n && SlotAt(hash, n, j) == slot;
    j
  }

  lemma RankUnique(hash: nat, n: nat, j: nat)
    requires ValidSlotCount(n) && j < n
    ensures Rank(hash, n, SlotAt(hash, n, j)) == j
  {
    var k := Rank(hash, n, SlotAt(hash, n, j));
    if k < j {
      ProbesDiffer(hash, n, k, j);
    } else if j < k {
      ProbesDiffer(hash, n, j, k);
    }
  }

  /** The step of a round that looks at lane `i` when the scan starts at lane `first`. */
  function StepOfLane(first: nat, i: nat): (t: nat)
    requires first < 8 && i < 8
    ensures t < 8
  {
    if i >= first then i - first else 8 - first + i
  }

  lemma LaneOfStep(first: nat, t: nat) returns (i: nat)
    requires first < 8 && t < 8
    ensures i < 8 && StepOfLane(first, i) == t
  {
    i := if first + t < 8 then first + t else first + t - 8;
  }

  /** The slot that step `StepOfLane` of a round looks at. */
  lemma SlotOfLane(hash: nat, n: nat, r: nat, i: nat)
    requires ValidSlotCount(n) && i < 8
    ensures var pos := RoundStart(ProbePosition(hash, n), n, r);
            SlotAt(hash, n, 8 * r + StepOfLane(pos % 8, i)) == pos / 8 * 8 + i
  {
    hide BitAnd, IsPowerOfTwo, RoundStart;
    var start := ProbePosition(hash, n);
    RoundKeepsLane(start, n, r);
    LaneArithmetic(start, RoundStart(start, n, r), r, i);
  }

  lemma RoundKeepsLane(start: nat, n: nat, r: nat)
    requires ValidSlotCount(n) && start < n
    ensures RoundStart(start, n, r) % 8 == start % 8
  {
    hide BitAnd, IsPowerOfTwo, RoundStart, BucketAt;
    RoundStartBucket(start, n, r);
  }

  lemma LaneArithmetic(start: nat, pos: nat, r: nat, i: nat)
    requires pos % 8 == start % 8 && i < 8
    ensures var j := 8 * r + StepOfLane(pos % 8, i); j / 8 == r && (start + j) % 8 == i
  {
  }
}
