/** The code by arithmetic: which components are ON in the i-th vector. */
module GrayBits {
  import opened GrayCode

  lemma Apart(d: int, p: int)
    requires p > 0
    ensures d == 0 || d * p >= p || d * p <= -p
  {
    if d >= 1 {
      assert d * p >= p;
    } else if d <= -1 {
      assert d * p <= -p;
    }
  }

  lemma QuotientIs(n: int, p: nat, q: int, r: nat)
    requires p > 0 && r < p && n == q * p + r
    ensures n / p == q
  {
    var d := n / p - q;
    assert n == (n / p) * p + n % p;
    assert d * p == r - n % p;
    Apart(d, p);
  }

  /** Counting from the other end. */
  lemma Mirrored(t: nat, p: nat, i: nat)
    requires p > 0 && i < t * p
    ensures (t * p - 1 - i) / p == t - 1 - i / p
  {
    var q, r := i / p, i % p;
    assert i == q * p + r;
    assert t * p - 1 - i == (t - 1 - q) * p + (p - 1 - r) by { Spread(t, p, q, r); }
    QuotientIs(t * p - 1 - i, p, t - 1 - q, p - 1 - r);
  }

  lemma Spread(t: nat, p: nat, q: nat, r: nat)
    ensures t * p - 1 - (q * p + r) == (t - 1 - q) * p + (p - 1 - r)
  {
    assert (t - 1 - q) * p == t * p - p - q * p;
  }

  lemma {:induction false} PowersMultiply(a: nat, b: nat)
    ensures Pow2(a + b) == Pow2(a) * Pow2(b)
    decreases a
  {
    if a > 0 { PowersMultiply(a - 1, b); }
  }

  /** Half, rounded up, is odd. */
  predicate OddHalf(q: int) { (q + 1) / 2 % 2 == 1 }

  lemma OddHalfMirrored(t: nat, q: nat)
    requires t % 4 == 0 && q < t
    ensures OddHalf(t - 1 - q) <==> OddHalf(q)
  {}

  lemma FourDivides(k: nat)
    requires k >= 1
    ensures Pow2(k + 1) % 4 == 0
  {
    assert Pow2(k + 1) == 2 * Pow2(k) == 4 * Pow2(k - 1);
  }

  lemma MirroredHalf(n: nat, i: nat, k: nat)
    requires 1 <= k < n && i < Pow2(n)
    ensures Pow2(n) - 1 - i >= 0
    ensures OddHalf((Pow2(n) - 1 - i) / Pow2(n - 1 - k)) <==> OddHalf(i / Pow2(n - 1 - k))
  {
    hide OddHalf;
    var p, t := Pow2(n - 1 - k), Pow2(k + 1);
    PowersMultiply(k + 1, n - 1 - k);
    assert t * p == Pow2(n);
    hide Pow2;
    Mirrored(t, p, i);
    FourDivides(k);
    QuotientBelow(t, p, i);
    OddHalfMirrored(t, i / p);
  }

  lemma FirstHalf(n: nat, i: nat)
    requires n >= 1 && i < Pow2(n)
    ensures OddHalf(i / Pow2(n - 1)) <==> i >= Pow2(n - 1)
  {
    var m := Pow2(n - 1);
    QuotientIs(i, m, if i < m then 0 else 1, if i < m then i else i - m);
  }

  lemma {:induction false} ComponentHalf(n: nat, i: nat, k: nat)
    requires n >= 1 && i < Pow2(n) && k < n
    ensures Vectors(n)[i][k] == "ON" <==> OddHalf(i / Pow2(n - 1 - k))
    decreases n
  {
    hide Vectors, IsOnOff, OddHalf;
    assert "OFF"[1] != "ON"[1];
    if n == 1 {
      FirstHalf(1, i);
      ShortestCode();
      assert Pow2(0) == 1;
    } else {
      VectorAt(n, i);
      FirstHalf(n, i);
      var m := Pow2(n - 1);
      if k > 0 {
        ComponentHalf(n - 1, if i < m then i else 2 * m - 1 - i, k - 1);
        if i >= m { MirroredHalf(n, i, k); }
      }
    }
  }

  /** Closed form of the Gray code: component k of vector i, out of n, is ON exactly when i shifted right
      by n - 1 - k places, halved and rounded up, is odd. */
  lemma ComponentOn(n: nat, i: nat, k: nat)
    requires n >= 1 && i < Pow2(n) && k < n
    ensures Vectors(n)[i][k] == "ON" <==> (i / Pow2(n - 1 - k) + 1) / 2 % 2 == 1
  {
    hide Vectors, Pow2, IsOnOff;
    ComponentHalf(n, i, k);
  }

  lemma Grows(a: int, b: int, p: int)
    requires p > 0 && a >= b
    ensures a * p >= b * p
  {}

  lemma QuotientBelow(t: nat, p: nat, i: nat)
    requires p > 0 && i < t * p
    ensures 0 <= i / p < t
  {
    var q := i / p;
    assert i == q * p + i % p;
    if q >= t { Grows(q, t, p); }
  }
}
