/** Integer arithmetic shared by the models: products, quotients and powers of two. */
module Arith {
  function Min(a: nat, b: nat): nat { if a < b then a else b }

  function Max(a: nat, b: nat): nat { if a < b then b else a }

  function Pow2(n: nat): (p: nat)
    ensures p > 0
  {
    if n == 0 then 1 else 2 * Pow2(n - 1)
  }

  lemma MulMono(a: int, b: int, c: nat)
    requires a <= b
    ensures a * c <= b * c && c * a <= c * b
  {
    assert b * c == a * c + (b - a) * c;
  }

  lemma MulSucc(k: int, p: int)
    ensures (k + 1) * p == k * p + p
  {
  }

  lemma SmallMultiple(d: int, p: int)
    requires p > 0
    requires -p < d * p < p
    ensures d == 0
  {
    if d >= 1 {
      MulMono(1, d, p);
      assert false;
    } else if d <= -1 {
      MulMono(d, -1, p);
      assert false;
    }
  }

  lemma DivUnique(v: nat, q: nat, p: nat, r: nat)
    requires p > r && v == q * p + r
    ensures v / p == q && v % p == r
  {
    var q', r' := v / p, v % p;
    assert v == q' * p + r';
    assert (q' - q) * p == q' * p - q * p;
    SmallMultiple(q' - q, p);
  }

  // The quotient of an unsigned division.
  function Quot(v: nat, p: nat): (q: nat)
    requires p > 0
    ensures q * p <= v < q * p + p
  {
    QuotBounds(v, p);
    v / p
  }

  lemma QuotBounds(v: nat, p: nat)
    requires p > 0
    ensures 0 <= v / p && v / p * p <= v < v / p * p + p
  {
    var q, r := v / p, v % p;
    assert v == q * p + r;
    if q < 0 {
      MulMono(q, -1, p);
      assert false;
    }
  }

  lemma QuotUnique(v: nat, q: nat, p: nat)
    requires p > 0 && q * p <= v < q * p + p
    ensures Quot(v, p) == q
  {
    hide Quot;
    assert (Quot(v, p) - q) * p == Quot(v, p) * p - q * p;
    SmallMultiple(Quot(v, p) - q, p);
  }

  lemma QuotBelow(v: nat, p: nat, m: nat)
    requires p > 0 && v < (m + 1) * p
    ensures Quot(v, p) <= m
  {
    hide Quot;
    if Quot(v, p) > m {
      MulMono(m + 1, Quot(v, p), p);
      assert false;
    }
  }

  lemma ModSmall(v: nat, p: nat)
    requires v < p
    ensures v % p == v
  {
    DivUnique(v, 0, p, v);
  }

  lemma ModBelow(v: nat, p: nat)
    requires p > 0
    ensures v % p == v <==> v < p
  {
    if v < p {
      ModSmall(v, p);
    }
  }

  lemma DivDiv(v: nat, p: nat)
    requires p > 0
    ensures v / (2 * p) == v / 2 / p
  {
    var q, r := v / (2 * p), v % (2 * p);
    assert v == q * (2 * p) + r;
    assert v == 2 * (q * p) + r;
    assert v / 2 == q * p + r / 2;
    DivUnique(v / 2, q, p, r / 2);
  }

  lemma ModDouble(d: nat, v: nat, p: nat)
    requires d < 2 && p > 0
    ensures (d + 2 * v) % (2 * p) == d + 2 * (v % p)
  {
    var q, r := v / p, v % p;
    assert v == q * p + r;
    assert d + 2 * v == q * (2 * p) + (d + 2 * r);
    DivUnique(d + 2 * v, q, 2 * p, d + 2 * r);
  }

  lemma Pow2One()
    ensures Pow2(0) == 1 && Pow2(1) == 2
  {
    assert Pow2(1) == 2 * Pow2(0);
  }

  lemma Pow2Eight()
    ensures Pow2(8) == 256
  {
    assert Pow2(4) == 16;
  }

  lemma {:induction false} Pow2Add(m: nat, n: nat)
    ensures Pow2(m + n) == Pow2(m) * Pow2(n)
  {
    if m != 0 {
      Pow2Add(m - 1, n);
    }
  }

  lemma Pow2ThirtyTwo()
    ensures Pow2(32) == 0x1_0000_0000
  {
    Pow2Eight();
    Pow2Add(8, 8);
    Pow2Add(16, 16);
  }

  lemma {:induction false} Pow2Monotone(m: nat, n: nat)
    requires m <= n
    ensures Pow2(m) <= Pow2(n)
  {
    if m < n {
      Pow2Monotone(m, n - 1);
    }
  }
}
