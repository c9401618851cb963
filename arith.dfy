/** Facts about Euclidean division that the solver does not find unaided. */
module ModArith {

  lemma MulAtLeast(a: int, m: int)
    requires a >= 1 && m > 0
    ensures a * m >= m
  {
    assert a * m == (a - 1) * m + m;
    assert (a - 1) * m >= 0;
  }

  /** x % m is the one remainder r in [0, m) with x == q * m + r. */
  lemma ModUnique(x: int, m: int, q: int, r: int)
    requires m > 0 && 0 <= r < m && x == q * m + r
    ensures x % m == r
  {
    var q0, r0 := x / m, x % m;
    assert x == q0 * m + r0;
    if q0 > q {
      assert (q0 - q) * m == q0 * m - q * m;
      MulAtLeast(q0 - q, m);
    } else if q0 < q {
      assert (q - q0) * m == q * m - q0 * m;
      MulAtLeast(q - q0, m);
    }
  }

  /** Adding whole multiples of m does not change the remainder. */
  lemma ModAddMultiple(x: int, k: int, m: int)
    requires m > 0
    ensures (x + k * m) % m == x % m
  {
    assert x == (x / m) * m + x % m;
    assert x + k * m == (x / m + k) * m + x % m;
    ModUnique(x + k * m, m, x / m + k, x % m);
  }

  /** Taking away the remainder leaves a multiple of m. */
  lemma RoundDownMultiple(x: int, m: int)
    requires m > 0
    ensures (x - x % m) % m == 0 && 0 <= x % m < m
  {
    assert x - x % m == (x / m) * m;
    ModUnique(x - x % m, m, x / m, 0);
  }

  /** An o in [0, 2m) is o or o - m modulo m, depending on its half. */
  lemma ModTwoHalves(o: int, m: int)
    requires m > 0 && 0 <= o < 2 * m
    ensures o % m == if o < m then o else o - m
  {
    if o < m {
      ModUnique(o, m, 0, o);
    } else {
      ModUnique(o, m, 1, o - m);
    }
  }
}
