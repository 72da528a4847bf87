/** Facts about Euclidean division and powers of two shared by the modules
    that model fixed-width integer arithmetic. */
module Arithmetic {

  function Pow2(n: nat): (r: nat)
    ensures r >= 1
  {
    if n == 0 then 1 else 2 * Pow2(n - 1)
  }

  lemma {:induction false} Pow2Monotone(a: nat, b: nat)
    requires a <= b
    ensures Pow2(a) <= Pow2(b)
    decreases b
  {
    if a < b { Pow2Monotone(a, b - 1); }
  }

  lemma {:induction false} Pow2Add(a: nat, b: nat)
    ensures Pow2(a + b) == Pow2(a) * Pow2(b)
    decreases a
  {
    if a > 0 {
      Pow2Add(a - 1, b);
      assert Pow2(a + b) == 2 * Pow2(a - 1 + b);
    }
  }

  /** The widths of size_t: 2^63 and 2^64. */
  lemma Pow2Of64()
    ensures Pow2(63) == 0x8000_0000_0000_0000
    ensures Pow2(64) == 0x1_0000_0000_0000_0000
  {
    assert Pow2(2) == 4;
    assert Pow2(4) == 16;
    assert Pow2(6) == 64;
    assert Pow2(8) == 2 * Pow2(7) == 256;
    Pow2Add(8, 8);
    Pow2Add(16, 16);
    Pow2Add(32, 32);
    Pow2Add(32, 31);
    Pow2Add(16, 15);
    Pow2Add(8, 7);
  }

  lemma {:induction false} MulAtLeast(c: nat, m: nat)
    requires c >= 1
    ensures c * m >= m
    decreases c
  {
    if c > 1 {
      MulAtLeast(c - 1, m);
      assert c * m == (c - 1) * m + m;
    }
  }

  /** Euclidean remainders are unique. */
  lemma ModUnique(z: int, q: int, r: int, m: int)
    requires m > 0 && 0 <= r < m && z == q * m + r
    ensures z % m == r
  {
    var q', r' := z / m, z % m;
    assert z == q' * m + r';
    if q' > q {
      assert q' * m - q * m == (q' - q) * m;
      MulAtLeast(q' - q, m);
    } else if q' < q {
      assert q * m - q' * m == (q - q') * m;
      MulAtLeast(q - q', m);
    }
  }
}
