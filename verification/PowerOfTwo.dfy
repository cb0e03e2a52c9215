/** Arithmetic of table sizes: powers of two, residues, and the pigeonhole principle. */
module PowerOfTwo {

  /** Table sizes are made by doubling and halving, so the predicate follows that. */
  predicate IsPowerOfTwo(n: nat) {
    n == 1 || (n != 0 && n % 2 == 0 && IsPowerOfTwo(n / 2))
  }

  /** The bitwise conjunction of two unsigned words. */
  function BitAnd(a: nat, b: nat): nat {
    if a == 0 || b == 0 then 0
    else 2 * BitAnd(a / 2, b / 2) + (if a % 2 == 1 && b % 2 == 1 then 1 else 0)
  }

  lemma BitAndStep(a: nat, b: nat)
    ensures BitAnd(a, b) == 2 * BitAnd(a / 2, b / 2) + (if a % 2 == 1 && b % 2 == 1 then 1 else 0)
  {
  }

  lemma HalfMask(h: nat, n: nat)
    requires n > 0 && n % 2 == 0
    ensures BitAnd(h, n - 1) == 2 * BitAnd(h / 2, n / 2 - 1) + h % 2
  {
    hide BitAnd;
    BitAndStep(h, n - 1);
    assert (n - 1) / 2 == n / 2 - 1 && (n - 1) % 2 == 1;
  }

  lemma HalfRemainder(h: nat, m: nat)
    requires m > 0
    ensures h % (2 * m) == 2 * (h / 2 % m) + h % 2
  {
    var q, r := h / 2 / m, h / 2 % m;
    TwiceQuotient(h / 2, m, q, r);
    RemainderUnique(h, 2 * m, q, 2 * r + h % 2);
  }

  lemma TwiceQuotient(x: nat, m: nat, q: nat, r: nat)
    requires m > 0 && q == x / m && r == x % m
    ensures 2 * x == 2 * m * q + 2 * r
  {
    assert x == m * q + r;
  }

  /** Masking with `n - 1` is the remainder by `n` when `n` is a power of two. */
  lemma {:induction false} MaskIsRemainder(h: nat, n: nat)
    requires IsPowerOfTwo(n)
    ensures BitAnd(h, n - 1) == h % n
    decreases n
  {
    if n != 1 {
      hide BitAnd;
      HalfMask(h, n);
      MaskIsRemainder(h / 2, n / 2);
      HalfRemainder(h, n / 2);
    }
  }

  lemma RemainderUnique(x: int, m: nat, q: int, r: int)
    requires 0 <= r < m
    requires x == m * q + r
    ensures x / m == q && x % m == r
  {
    var q', r' := x / m, x % m;
    QuotientOrder(m, q, r, q', r');
    QuotientOrder(m, q', r', q, r);
  }

  lemma QuotientOrder(m: nat, q: int, r: int, q': int, r': int)
    requires 0 <= r < m && 0 <= r' < m
    requires m * q + r == m * q' + r'
    ensures q <= q'
  {
    if q > q' {
      ScaledOrder(m, q' + 1, q);
    }
  }

  lemma ScaledOrder(m: nat, a: int, b: int)
    requires a <= b
    ensures m * a <= m * b
    ensures m * (a - 1) == m * a - m
  {
    assert m * (b - a) >= 0;
  }

  lemma SmallRemainder(x: nat, m: nat)
    requires x < m
    ensures x % m == x
  {
  }

  /** Reducing before adding does not change the remainder. */
  lemma AddRemainder(a: int, b: int, m: nat)
    requires m > 0
    ensures (a % m + b) % m == (a + b) % m
  {
    var q, r := (a % m + b) / m, (a % m + b) % m;
    assert a + b == m * (a / m + q) + r;
    RemainderUnique(a + b, m, a / m + q, r);
  }

  /** Equal remainders make the difference a multiple. */
  lemma SameRemainder(a: int, b: int, m: nat)
    requires m > 0 && a % m == b % m
    ensures (b - a) == m * (b / m - a / m)
  {
  }

  lemma OddTimesOdd(a: nat, b: nat)
    requires a % 2 == 1 && b % 2 == 1
    ensures a * b % 2 == 1
  {
    var x, y := a / 2, b / 2;
    assert a * b == (2 * x + 1) * (2 * y + 1) == 2 * (2 * x * y + x + y) + 1;
  }

  /** An odd factor cannot supply a power of two. */
  lemma {:induction false} OddFactor(n: nat, a: nat, b: nat, c: nat)
    requires IsPowerOfTwo(n) && a % 2 == 1
    requires a * b == n * c
    ensures b % n == 0
  {
    if n != 1 {
      var m := n / 2;
      HalveProduct(n, a, b, c);
      OddFactor(m, a, b / 2, c);
      DoubleDivides(m, b / 2);
    }
  }

  lemma HalveProduct(n: nat, a: nat, b: nat, c: nat)
    requires n % 2 == 0 && a % 2 == 1
    requires a * b == n * c
    ensures b % 2 == 0 && a * (b / 2) == n / 2 * c
  {
    var m := n / 2;
    assert n * c == 2 * (m * c);
    if b % 2 == 1 {
      OddTimesOdd(a, b);
    }
    assert b == 2 * (b / 2);
    assert a * b == 2 * (a * (b / 2));
  }

  lemma DoubleDivides(m: nat, b: nat)
    requires m > 0 && b % m == 0
    ensures (2 * b) % (2 * m) == 0
  {
    var q := b / m;
    assert 2 * b == 2 * m * q;
    RemainderUnique(2 * b, 2 * m, q, 0);
  }

  /** The initial segment of the natural numbers. */
  function Below(n: nat): (s: set<nat>)
    ensures |s| == n
    ensures forall x: nat :: x in s <==> x < n
  {
    if n == 0 then {} else Below(n - 1) + {n - 1}
  }

  /** Pigeonhole: an injection of the numbers below `n` into themselves reaches all. */
  lemma InjectionIsOnto(f: seq<nat>, p: nat)
    requires forall i :: 0 <= i < |f| ==> f[i] < |f|
    requires forall i, j :: 0 <= i < j < |f| ==> f[i] != f[j]
    requires p < |f|
    ensures exists i :: 0 <= i < |f| && f[i] == p
  {
    var image := Image(f, |f|);
    if p !in image {
      assert image <= Below(|f|) - {p};
      SubsetSize(image, Below(|f|) - {p});
    }
  }

  ghost function Image(f: seq<nat>, n: nat): (s: set<nat>)
    requires n <= |f|
    requires forall i, j :: 0 <= i < j < |f| ==> f[i] != f[j]
    ensures |s| == n
    ensures forall x :: x in s <==> exists i :: 0 <= i < n && f[i] == x
  {
    if n == 0 then {} else Image(f, n - 1) + {f[n - 1]}
  }

  lemma {:induction false} SubsetSize<T>(a: set<T>, b: set<T>)
    requires a <= b
    ensures |a| <= |b|
  {
    if a != {} {
      var x :| x in a;
      SubsetSize(a - {x}, b - {x});
    }
  }
}
