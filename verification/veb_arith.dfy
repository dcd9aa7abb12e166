/**
 * Universe sizes and key arithmetic of the van Emde Boas tree
 * (JavaScript/van_emde_boas.js). Universe sizes are 2, 4, 16, 256, 65536, ...,
 * each the square of the previous one, so every size above 2 has an exact
 * integer square root; the program's floating-point Math.sqrt is replaced by
 * that exact root.
 */
module VebArith {
  import opened Powers

  /** The k-th universe size, 2^(2^k): 2, 4, 16, 256, 65536, ... */
  function Universe(k: nat): (u: nat)
    ensures u >= 2
  {
    Pow2IsPow2(0);
    Pow2Monotone(0, Pow2(k));
    Pow2(Pow2(k))
  }

  /** Each universe size is the square of the one before it, and the sizes strictly increase. */
  lemma UniverseSquares(k: nat)
    requires k > 0
    ensures Universe(k) == Universe(k - 1) * Universe(k - 1)
    ensures Universe(k - 1) < Universe(k)
  {
    Pow2Add(Pow2(k - 1), Pow2(k - 1));
    Pow2Monotone(Pow2(k - 1), Pow2(k));
  }

  lemma UniverseMonotone(j: nat, k: nat)
    requires j < k
    ensures Universe(j) < Universe(k)
  {
    Pow2Monotone(j, k);
    Pow2Monotone(Pow2(j), Pow2(k));
  }

  lemma UniverseLeaf(k: nat)
    ensures k == 0 <==> Universe(k) == 2
    ensures k > 0 ==> Universe(k) >= 4
  {
    if k > 0 {
      UniverseMonotone(0, k);
      UniverseSquares(k);
    }
  }

  /** The exact integer square root (the largest r with r * r <= n, see ISqrtBounds). */
  function ISqrt(n: nat): nat
  {
    RootDigits(n)
  }

  /** The root of n from the root of n / 4, two bits of n at a time. */
  function RootDigits(n: nat): nat
  {
    if n < 4 then (if n == 0 then 0 else 1)
    else
      var s := 2 * RootDigits(n / 4);
      if (s + 1) * (s + 1) <= n then s + 1 else s
  }

  /** ISqrt(n) is the largest r with r * r <= n. */
  lemma {:induction false} ISqrtBounds(n: nat)
    ensures ISqrt(n) * ISqrt(n) <= n < (ISqrt(n) + 1) * (ISqrt(n) + 1)
  {
    if n >= 4 {
      var t := RootDigits(n / 4);
      ISqrtBounds(n / 4);
      RootStep(n, t);
    }
  }

  lemma RootStep(n: nat, t: nat)
    requires t * t <= n / 4 < (t + 1) * (t + 1)
    ensures (2 * t) * (2 * t) <= n < (2 * t + 2) * (2 * t + 2)
  {
    assert (2 * t) * (2 * t) == 4 * (t * t);
    assert (2 * t + 2) * (2 * t + 2) == 4 * ((t + 1) * (t + 1));
  }

  lemma ISqrtPositive(n: nat)
    requires n > 0
    ensures ISqrt(n) > 0
  {
    ISqrtBounds(n);
  }

  /** The root of a perfect square is exact. */
  lemma ISqrtOfSquare(s: nat)
    ensures ISqrt(s * s) == s
  {
    ISqrtBounds(s * s);
    RootUnique(s * s, ISqrt(s * s), s);
  }

  lemma RootUnique(n: nat, r: nat, s: nat)
    requires r * r <= n < (r + 1) * (r + 1) && n == s * s
    ensures r == s
  {
    if r < s {
      MulMonotone(r + 1, s);
    } else if r > s {
      MulMonotone(s + 1, r);
    }
  }

  lemma MulMonotone(a: nat, b: nat)
    requires a <= b
    ensures a * a <= b * b
  {
    MulLeft(a, b, a);
    MulLeft(a, b, b);
  }

  /** a <= b implies a * c <= b * c. */
  lemma {:induction false} MulLeft(a: nat, b: nat, c: nat)
    requires a <= b
    ensures a * c <= b * c
  {
    if a < b {
      MulLeft(a, b - 1, c);
      assert b * c == (b - 1) * c + c;
    }
  }

  /** The root of universe k > 0 is universe k - 1. */
  lemma UniverseRoot(k: nat)
    requires k > 0
    ensures ISqrt(Universe(k)) == Universe(k - 1)
  {
    UniverseSquares(k);
    ISqrtOfSquare(Universe(k - 1));
  }

  /** high(x): the cluster that x falls in. */
  function High(u: nat, x: nat): nat
    requires u > 0
  {
    var r := ISqrt(u);
    assert r > 0 by { ISqrtPositive(u); }
    DivNonNegative(x, r);
    x / r
  }

  /** low(x): the offset of x inside its cluster. */
  function Low(u: nat, x: nat): (r: nat)
    requires u > 0
    ensures r < ISqrt(u)
  {
    assert ISqrt(u) > 0 by { ISqrtPositive(u); }
    x % ISqrt(u)
  }

  lemma DivNonNegative(x: nat, r: nat)
    requires r > 0
    ensures x / r >= 0
  {
  }

  /** index(h, l): the key at offset l of cluster h. */
  function Index(u: nat, h: nat, l: nat): nat
  {
    h * ISqrt(u) + l
  }

  /** Division by r is unique: q * r + m with m < r has quotient q and remainder m. */
  lemma DivModUnique(x: nat, r: nat, q: nat, m: nat)
    requires r > 0 && m < r && x == q * r + m
    ensures x / r == q && x % r == m
  {
    var q' := x / r;
    if q' < q {
      MulSucc(q', r);
      MulLeft(q' + 1, q, r);
      assert false;
    } else if q < q' {
      MulSucc(q, r);
      MulLeft(q + 1, q', r);
      assert false;
    }
  }

  lemma MulSucc(a: nat, r: nat)
    ensures (a + 1) * r == a * r + r
  {
  }

  /**
   * For a universe of the family above 2, high and low of an in-range key are
   * below the root, and index puts them back together.
   */
  lemma SplitRoundTrip(k: nat, x: nat)
    requires k > 0 && x < Universe(k)
    ensures High(Universe(k), x) < Universe(k - 1)
    ensures Low(Universe(k), x) < Universe(k - 1)
    ensures Index(Universe(k), High(Universe(k), x), Low(Universe(k), x)) == x
  {
    UniverseRoot(k);
    UniverseSquares(k);
    SplitBelowSquare(x, Universe(k - 1));
  }

  /** Below r * r, the quotient by r is below r. */
  lemma SplitBelowSquare(x: nat, r: nat)
    requires r > 0 && x < r * r
    ensures x / r < r && x % r < r && (x / r) * r + x % r == x
  {
    var q := x / r;
    if q >= r {
      MulLeft(r, q, r);
    }
  }

  /** Conversely, splitting index(h, l) gives back h and l. */
  lemma IndexRoundTrip(k: nat, h: nat, l: nat)
    requires k > 0 && h < Universe(k - 1) && l < Universe(k - 1)
    ensures Index(Universe(k), h, l) < Universe(k)
    ensures High(Universe(k), Index(Universe(k), h, l)) == h
    ensures Low(Universe(k), Index(Universe(k), h, l)) == l
  {
    UniverseRoot(k);
    UniverseSquares(k);
    JoinBelowSquare(h, l, Universe(k - 1));
  }

  /** Below r, the pair (h, l) joined as h * r + l stays below r * r and splits back. */
  lemma JoinBelowSquare(h: nat, l: nat, r: nat)
    requires h < r && l < r
    ensures h * r + l < r * r
    ensures (h * r + l) / r == h && (h * r + l) % r == l
  {
    DivModUnique(h * r + l, r, h, l);
    MulLeft(h + 1, r, r);
    MulSucc(h, r);
  }

  /**
   * Keys compare as (cluster, offset) pairs: every key of a lower cluster lies
   * below every key of a higher one.
   */
  lemma IndexOrder(u: nat, h1: nat, l1: nat, h2: nat, l2: nat)
    requires l1 < ISqrt(u) && l2 < ISqrt(u)
    ensures Index(u, h1, l1) < Index(u, h2, l2) <==> h1 < h2 || (h1 == h2 && l1 < l2)
  {
    var r := ISqrt(u);
    if h1 < h2 {
      MulLeft(h1 + 1, h2, r);
      assert (h1 + 1) * r == h1 * r + r;
    } else if h2 < h1 {
      MulLeft(h2 + 1, h1, r);
      assert (h2 + 1) * r == h2 * r + r;
    }
  }

  /** Splitting any key and putting the halves back gives the key again. */
  lemma SplitJoin(u: nat, x: nat)
    requires u > 0
    ensures Index(u, High(u, x), Low(u, x)) == x
  {
    ISqrtPositive(u);
  }

  /** high(u) is the root: a level of universe Universe(k) has Universe(k - 1) clusters. */
  lemma HighOfUniverse(k: nat)
    requires k > 0
    ensures High(Universe(k), Universe(k)) == Universe(k - 1)
  {
    var r := Universe(k - 1);
    UniverseRoot(k);
    UniverseSquares(k);
    DivModUnique(r * r, r, r, 0);
  }

  /** A universe is pinned down by being at least n while its predecessor in the family is below n. */
  lemma UniverseLeast(j: nat, k: nat)
    requires k > 0 ==> Universe(k - 1) < Universe(j)
    requires j > 0 ==> Universe(j - 1) < Universe(k)
    ensures j == k
  {
    if j < k {
      if j < k - 1 {
        UniverseMonotone(j, k - 1);
      }
    } else if k < j {
      if k < j - 1 {
        UniverseMonotone(k, j - 1);
      }
    }
  }

  /** Below the square, the root is strictly smaller than its argument. */
  lemma ISqrtBelow(n: nat)
    requires n > 2
    ensures ISqrt(n) < n
  {
    ISqrtBounds(n);
    var r := ISqrt(n);
    if r >= n {
      MulLeft(n, r, r);
      MulLeft(2, r, n);
    }
  }

  /** The level of a universe size: the number of square roots taken to reach 2. */
  ghost function LevelOf(u: nat): nat
    decreases u
  {
    if u <= 2 then 0
    else
      ISqrtBelow(u);
      1 + LevelOf(ISqrt(u))
  }

  lemma {:induction false} LevelOfUniverse(k: nat)
    ensures LevelOf(Universe(k)) == k
  {
    UniverseLeaf(k);
    if k > 0 {
      UniverseRoot(k);
      LevelOfUniverse(k - 1);
    }
  }

  /**
   * The constructor's loop as a function: square w until it reaches the
   * requested size.
   */
  function Grow(w: nat, requested: nat): (r: nat)
    requires w >= 2
    ensures r >= w && r >= requested
    decreases requested - w
  {
    if w >= requested then w
    else
      MulLeft(2, w, w);
      Grow(w * w, requested)
  }

  /** The universe size chosen for a requested size. */
  function RoundUp(requested: nat): nat
  {
    Grow(2, requested)
  }

  /**
   * Growing from universe j gives the least universe of the family, from j on,
   * that holds the requested size.
   */
  lemma {:induction false} GrowLevel(j: nat, requested: nat) returns (k: nat)
    requires j > 0 ==> Universe(j - 1) < requested
    ensures j <= k && Grow(Universe(j), requested) == Universe(k)
    ensures requested <= Universe(k) && (k > 0 ==> Universe(k - 1) < requested)
    decreases requested - Universe(j)
  {
    if Universe(j) >= requested {
      k := j;
    } else {
      UniverseSquares(j + 1);
      MulLeft(2, Universe(j), Universe(j));
      k := GrowLevel(j + 1, requested);
    }
  }

  /**
   * RoundUp(n) is the least universe of the family 2, 4, 16, 256, ... that is at
   * least n.
   */
  lemma RoundUpLevel(requested: nat) returns (k: nat)
    ensures RoundUp(requested) == Universe(k) && requested <= Universe(k)
    ensures k > 0 ==> Universe(k - 1) < requested
    ensures k == 0 <==> requested <= 2
  {
    Pow2IsPow2(0);
    assert Universe(0) == 2;
    k := GrowLevel(0, requested);
    UniverseLeaf(k);
  }
}
