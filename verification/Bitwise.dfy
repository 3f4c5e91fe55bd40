/** Machine words as natural numbers: shifts, truncation, and bitwise and. */
module Bitwise {
  function Pow2(n: nat): (p: nat)
    ensures p > 0
  {
    if n == 0 then 1 else 2 * Pow2(n - 1)
  }

  /** `x >> n`. */
  function Shr(x: nat, n: nat): nat
    decreases n, x
  {
    if n == 0 then x else Shr(x / 2, n - 1)
  }

  /** `x << n`, without truncation. */
  function Shl(x: nat, n: nat): nat
    decreases n, x
  {
    if n == 0 then x else 2 * Shl(x, n - 1)
  }

  /** The low `n` bits of `x` as a number: what a u64 keeps of `x` is `Low(x, 64)`. */
  function Low(x: nat, n: nat): nat
    decreases n, x
  {
    if n == 0 then 0 else 2 * Low(x / 2, n - 1) + x % 2
  }

  lemma {:induction false} LowBound(x: nat, n: nat)
    ensures Low(x, n) < Pow2(n)
  {
    if n > 0 {
      LowBound(x / 2, n - 1);
    }
  }

  /** `x & y` on words of `n` bits. */
  function And(x: nat, y: nat, n: nat): nat
    decreases n, x
  {
    if n == 0 then 0 else 2 * And(x / 2, y / 2, n - 1) + (if x % 2 == 1 && y % 2 == 1 then 1 else 0)
  }

  /** `!0` on words of `n` bits. */
  function Ones(n: nat): nat {
    Pow2(n) - 1
  }

  /** The `n` low bits of `x` are all set. */
  predicate LowOnes(x: nat, n: nat)
    decreases n, x
  {
    n == 0 || (x % 2 == 1 && LowOnes(x / 2, n - 1))
  }

  lemma {:induction false} OnesAreOnes(n: nat)
    ensures LowOnes(Ones(n), n)
  {
    if n > 0 {
      OnesAreOnes(n - 1);
      assert Ones(n) / 2 == Ones(n - 1);
    }
  }

  lemma {:induction false} FewerOnes(x: nat, n: nat)
    requires n > 0 && LowOnes(x, n)
    ensures LowOnes(x, n - 1)
  {
    if n > 1 {
      FewerOnes(x / 2, n - 1);
    }
  }

  lemma {:induction false} AndOnes(x: nat, o: nat, n: nat)
    requires LowOnes(o, n) && x < Pow2(n)
    ensures And(x, Low(o, n), n) == x
  {
    if n > 0 {
      AndOnes(x / 2, o / 2, n - 1);
    }
  }

  /** Masking with ones shifted left by `k` clears the `k` low bits. */
  lemma {:induction false} AndMask(x: nat, o: nat, n: nat, k: nat)
    requires LowOnes(o, n) && x < Pow2(n) && k <= n
    ensures And(x, Low(Shl(o, k), n), n) == Shl(Shr(x, k), k)
  {
    if k == 0 {
      AndOnes(x, o, n);
    } else {
      FewerOnes(o, n);
      AndMask(x / 2, o, n - 1, k - 1);
    }
  }

  lemma {:induction false} LowOfOnes(o: nat, n: nat)
    requires LowOnes(o, n)
    ensures Low(o, n) == Pow2(n) - 1
  {
    if n > 0 {
      LowOfOnes(o / 2, n - 1);
    }
  }

  /** The mask as the other matcher computes it: everything minus the `k` low bits. */
  lemma {:induction false} MaskValue(o: nat, n: nat, k: nat)
    requires LowOnes(o, n) && k <= n
    ensures Low(Shl(o, k), n) == Pow2(n) - Pow2(k)
  {
    if k == 0 {
      LowOfOnes(o, n);
    } else {
      FewerOnes(o, n);
      MaskValue(o, n - 1, k - 1);
    }
  }

  lemma {:induction false} ShlInjective(x: nat, y: nat, k: nat)
    ensures Shl(x, k) == Shl(y, k) <==> x == y
  {
    if k > 0 {
      ShlInjective(x, y, k - 1);
    }
  }

  /** Shifting right is dividing by a power of two. */
  lemma {:induction false} ShrIsQuotient(x: nat, k: nat)
    ensures Shr(x, k) == x / Pow2(k)
    decreases k, x
  {
    if k > 0 {
      ShrIsQuotient(x / 2, k - 1);
      HalvedQuotient(x, Pow2(k - 1));
    }
  }

  lemma {:induction false} HalvedQuotient(x: nat, p: nat)
    requires p > 0
    ensures x / 2 / p == x / (2 * p)
  {
    var q := x / (2 * p);
    var m := q * p;
    assert 2 * m <= x < 2 * m + 2 * p by {
      assert x == 2 * p * q + x % (2 * p);
      assert 2 * p * q == 2 * m;
    }
    assert m <= x / 2 < m + p;
    QuotientIs(x / 2, p, q);
  }

  lemma QuotientIs(y: nat, p: nat, q: nat)
    requires p > 0 && q * p <= y < q * p + p
    ensures y / p == q
  {
    var d := y / p;
    assert d * p <= y < d * p + p by {
      assert y == p * d + y % p;
    }
    if d < q {
      ProductGrows(d + 1, q, p);
    }
    if d > q {
      ProductGrows(q + 1, d, p);
    }
  }

  lemma {:induction false} ProductGrows(a: nat, b: nat, p: nat)
    requires a <= b
    ensures a * p <= b * p
  {
    assert b * p == a * p + (b - a) * p;
  }

  lemma {:induction false} Pow2Grows(a: nat, b: nat)
    requires a <= b
    ensures Pow2(a) <= Pow2(b)
  {
    if a < b {
      Pow2Grows(a, b - 1);
    }
  }
}
