/** Shifting and masking an index, as division and remainder by powers of B. */
module Radix {
  import opened RrbTree

  lemma DivModUnique(x: nat, d: nat, q: nat, r: nat)
    requires x == q * d + r && r < d
    ensures x / d == q && x % d == r
  {
    var q', r' := x / d, x % d;
    assert x == q' * d + r';
    if q' < q {
      assert q * d == (q - q') * d + q' * d;
      assert (q - q') * d >= d by { MulMono(1, q - q', d); }
    } else if q < q' {
      assert q' * d == (q' - q) * d + q * d;
      assert (q' - q) * d >= d by { MulMono(1, q' - q, d); }
    }
  }

  /** A shifted index is below `n` when the index is below `n` whole subtrees. */
  lemma DivBelow(x: nat, d: nat, n: nat)
    requires d > 0 && x < n * d
    ensures x / d < n
  {
    if x / d >= n {
      MulMono(n, x / d, d);
    }
  }

  lemma DivAtLeast(x: nat, d: nat, n: nat)
    requires d > 0 && n * d <= x
    ensures n <= x / d
  {
    var q, r := DivSplit(x, d);
    assert (q + 1) * d == q * d + d;
    if q + 1 <= n {
      MulMono(q + 1, n, d);
    }
  }

  lemma DivSplit(x: nat, d: nat) returns (q: nat, r: nat)
    requires d > 0
    ensures q == x / d && r == x % d
    ensures x == q * d + r && r < d
  {
    q, r := x / d, x % d;
  }

  lemma DigitOf(i: nat, p: nat, b: nat)
    requires p > 0 && b > 0
    ensures b * p > 0
    ensures (i / p) % b == (i % (b * p)) / p < b
    ensures (i % (b * p)) % p == i % p
  {
    MulMono(1, b, p);
    var q, r := DivSplit(i, b * p);
    var d, e := DivSplit(r, p);
    DivBelow(r, p, b);
    calc {
      i;
      q * (b * p) + (d * p + e);
      { MulAssoc(q, b, p); }
      (q * b) * p + d * p + e;
      (q * b + d) * p + e;
    }
    DivModUnique(i, p, q * b + d, e);
    DivModUnique(q * b + d, b, q, d);
  }

  lemma MulAssoc(a: nat, b: nat, c: nat)
    ensures a * (b * c) == (a * b) * c
  {
  }

  /** `x >> shift` for a node at height `h`. */
  function Shift(x: nat, h: nat): nat {
    DivNat(x, Pow(h));
    x / Pow(h)
  }

  /** `x & RRB_MASK`. */
  function Mask(x: nat): (r: nat)
    ensures r < B
  {
    x % B
  }

  lemma DivNat(x: nat, d: nat)
    requires d > 0
    ensures x / d >= 0
  {
  }

  /** `(i >> shift) & RRB_MASK` sees only what is left of `i` below height `h + 1`. */
  lemma Digit(i: nat, h: nat)
    ensures Mask(Shift(i, h)) == (i % Pow(h + 1)) / Pow(h) < B
    ensures (i % Pow(h + 1)) % Pow(h) == i % Pow(h)
  {
    DigitOf(i, Pow(h), B);
  }
}
