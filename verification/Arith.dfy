/** The few facts about remainders that the round-robin proofs rest on. */
module Arith {
  /** The range of `std::size_t` on a 64-bit target: `fetch_add` wraps here. */
  const WORD: nat := 0x1_0000_0000_0000_0000

  lemma DivModUnique(x: int, q: int, r: int, m: int)
    requires 0 <= r < m && x == q * m + r
    ensures x / m == q && x % m == r
  {
    var d := q - x / m;
    assert d * m == x % m - r by {
      assert x == (x / m) * m + x % m;
      assert d * m == q * m - (x / m) * m;
    }
    if d >= 1 {
      MulMono(1, d, m);
    } else if d <= -1 {
      MulMono(d, -1, m);
    }
  }

  lemma MulMono(a: int, b: int, m: int)
    requires a <= b && 0 <= m
    ensures a * m <= b * m
  {
    assert (b - a) * m >= 0;
  }

  lemma MulSucc(a: int, m: int)
    ensures (a + 1) * m == a * m + m
  {
  }

  lemma ModAddMultiple(x: int, k: int, m: int)
    requires 0 < m
    ensures (x + k * m) % m == x % m
  {
    assert x + k * m == (x / m + k) * m + x % m by {
      assert x == (x / m) * m + x % m;
      assert (x / m + k) * m == (x / m) * m + k * m;
    }
    DivModUnique(x + k * m, x / m + k, x % m, m);
  }

  /** Two numbers with one remainder differ by a multiple, and conversely. */
  lemma ModEqual(x: int, y: int, m: int)
    requires 0 < m
    ensures x % m == y % m <==> (x - y) % m == 0
  {
    var k := x / m - y / m;
    assert k * m == (x / m) * m - (y / m) * m;
    if x % m == y % m {
      ModAddMultiple(0, k, m);
      assert x - y == k * m;
    }
    if (x - y) % m == 0 {
      var j := (x - y) / m;
      assert x == y + j * m;
      ModAddMultiple(y, j, m);
    }
  }

  lemma ModCongruent(x: int, y: int, d: int, m: int)
    requires 0 < m && x % m == y % m
    ensures (x + d) % m == (y + d) % m
  {
    ModEqual(x, y, m);
    ModEqual(x + d, y + d, m);
    assert (x + d) - (y + d) == x - y;
  }

  /** Replacing a summand by its remainder keeps the sum's remainder. */
  lemma ModReduce(x: int, d: int, m: int)
    requires 0 < m
    ensures (x % m + d) % m == (x + d) % m
  {
    DivModUnique(x % m, 0, x % m, m);
    ModCongruent(x % m, x, d, m);
  }

  lemma ModSmall(x: int, m: int)
    requires 0 <= x < m
    ensures x % m == x && x / m == 0
  {
    DivModUnique(x, 0, x, m);
  }

  lemma Divide(x: nat, m: nat) returns (q: nat, r: nat)
    requires 0 < m
    ensures x == q * m + r && r == x % m && r < m
  {
    q, r := x / m, x % m;
  }

  lemma ModAtMost(x: nat, m: int)
    requires 0 < m
    ensures x % m <= x
  {
    if x < m { ModSmall(x, m); }
  }

  /** Two numbers less than `m` apart, up to a multiple, differ in their remainders. */
  lemma Incongruent(x: int, y: int, k: int, m: int)
    requires 0 < x - y - k * m < m
    ensures x % m != y % m
  {
    ModEqual(x, y, m);
    ModAddMultiple(x - y - k * m, k, m);
    ModSmall(x - y - k * m, m);
  }

  /** Every window of `m` consecutive numbers meets every residue, once. */
  lemma WindowMeets(start: nat, i: nat, m: nat) returns (n: nat)
    requires i < m
    ensures start <= n < start + m && n % m == i
    ensures forall k :: start <= k < start + m && k % m == i ==> k == n
  {
    var off := (i - start) % m;
    n := start + off;
    ModReduce(i - start, start, m);
    ModSmall(i, m);
    forall k | start <= k < start + m && k % m == i
      ensures k == n
    {
      ModEqual(k, n, m);
      if k >= n { ModSmall(k - n, m); } else { ModEqual(n, k, m); ModSmall(n - k, m); }
    }
  }

  /** Whole words on top of `x` leave its remainder alone when `m` divides the word. */
  lemma ModWholeWords(x: int, k: int, word: int, m: int)
    requires 0 < m && word % m == 0
    ensures (x + k * word) % m == x % m
  {
    var w := word / m;
    assert k * word == (k * w) * m by {
      assert word == w * m;
    }
    ModAddMultiple(x, k * w, m);
  }

  /** Counting one further. */
  lemma NextDivMod(n: int, m: int)
    requires 0 < m
    ensures n % m + 1 < m ==> (n + 1) / m == n / m && (n + 1) % m == n % m + 1
    ensures n % m + 1 == m ==> (n + 1) / m == n / m + 1 && (n + 1) % m == 0
  {
    var q, r := n / m, n % m;
    assert n == q * m + r;
    if r + 1 < m {
      DivModUnique(n + 1, q, r + 1, m);
    } else {
      assert (q + 1) * m == q * m + m;
      DivModUnique(n + 1, q + 1, 0, m);
    }
  }
}
