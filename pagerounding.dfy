/**
 * The constructor's page rounding: a capacity of 0 counts as 1, and the
 * result is rounded up with `(c + pageSize - 1) - ((c + pageSize - 1) & (pageSize - 1))`,
 * which is a multiple of the page size only because page sizes are powers of two.
 */
module PageRounding {
  import opened ModArith

  predicate IsPowerOfTwo(n: nat)
    decreases n
  {
    n == 1 || (n >= 2 && n % 2 == 0 && IsPowerOfTwo(n / 2))
  }

  /** Bitwise AND of two naturals, taken bit by bit from the least significant. */
  function BitAnd(a: nat, b: nat): (r: nat)
    ensures r <= a && r <= b
    decreases a
  {
    if a == 0 || b == 0 then 0
    else 2 * BitAnd(a / 2, b / 2) + (if a % 2 == 1 && b % 2 == 1 then 1 else 0)
  }

  lemma ModOfDouble(x: nat, h: nat)
    requires h > 0
    ensures x % (2 * h) == 2 * ((x / 2) % h) + x % 2
  {
    var q, r := (x / 2) / h, (x / 2) % h;
    assert x / 2 == q * h + r;
    assert x == q * (2 * h) + (2 * r + x % 2);
    ModUnique(x, 2 * h, q, 2 * r + x % 2);
  }

  /** Masking with pageSize - 1 keeps exactly the remainder modulo the page size. */
  lemma {:induction false} BitAndLowMask(x: nat, p: nat)
    requires IsPowerOfTwo(p)
    ensures BitAnd(x, p - 1) == x % p
    decreases p
  {
    if p == 1 {
    } else if x == 0 {
    } else {
      var h := p / 2;
      assert p - 1 > 0 && (p - 1) / 2 == h - 1 && (p - 1) % 2 == 1;
      BitAndLowMask(x / 2, h);
      ModOfDouble(x, h);
    }
  }

  /** The buffer size the constructor settles on for a requested capacity. */
  function RoundUpToPage(capacity: nat, pageSize: nat): (size: nat)
    requires IsPowerOfTwo(pageSize)
    ensures size % pageSize == 0
    ensures 1 <= size && capacity <= size
    ensures size < (if capacity == 0 then 1 else capacity) + pageSize
  {
    var requested := if capacity == 0 then 1 else capacity;
    var padded := requested + (pageSize - 1);
    BitAndLowMask(padded, pageSize);
    RoundDownMultiple(padded, pageSize);
    padded - BitAnd(padded, pageSize - 1)
  }

  /** With 4096-byte pages a request for 8000 bytes gets 8192. */
  lemma RoundUpExample()
    ensures RoundUpToPage(8000, 4096) == 8192
  {
    var size := RoundUpToPage(8000, 4096);
    assert size % 4096 == 0 && 8000 <= size < 12096;
  }
}
