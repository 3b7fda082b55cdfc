/** Polynomials over GF(2), written as their coefficients from the highest degree down. */
module Gf2 {

  type Poly = seq<bool>

  function Zero(n: nat): (p: Poly)
    ensures |p| == n
    ensures forall i :: 0 <= i < n ==> !p[i]
  {
    seq(n, _ => false)
  }

  function Add(p: Poly, q: Poly): (r: Poly)
    requires |p| == |q|
    ensures |r| == |p|
    ensures forall i :: 0 <= i < |p| ==> r[i] == (p[i] != q[i])
  {
    seq(|p|, i requires 0 <= i < |p| => p[i] != q[i])
  }

  // m * x + c * p
  function HornerStep(m: Poly, c: bool, p: Poly): (r: Poly)
    requires 1 <= |p| <= |m| + 1
    ensures |r| == |m| + 1
    ensures var n := |m| + 1 - |p|;
            && (forall i :: 0 <= i < n ==> r[i] == m[i])
            && (forall i :: n <= i < |m| ==> r[i] == (m[i] != (c && p[i - n])))
            && r[|m|] == (c && p[|p| - 1])
  {
    var n := |m| + 1 - |p|;
    seq(|m| + 1, i requires 0 <= i < |m| + 1 => (i < |m| && m[i]) != (c && i >= n && p[i - n]))
  }

  // q * p, by Horner's rule on q.
  function Mul(q: Poly, p: Poly): (r: Poly)
    requires |p| >= 1
    ensures |r| == |q| + |p| - 1
  {
    if q == [] then Zero(|p| - 1) else HornerStep(Mul(q[..|q| - 1], p), q[|q| - 1], p)
  }

  // dividend == q * divisor + r, with r of smaller degree than the divisor.
  ghost predicate IsQuotient(dividend: Poly, divisor: Poly, q: Poly, r: Poly)
    requires |divisor| >= 1
  {
    && |r| == |divisor| - 1
    && |dividend| == |q| + |r|
    && dividend == Add(Mul(q, divisor), Zero(|q|) + r)
  }

  ghost predicate IsRemainder(dividend: Poly, divisor: Poly, r: Poly)
    requires |divisor| >= 1
  {
    exists q :: IsQuotient(dividend, divisor, q, r)
  }

  /** A polynomial has at most one remainder by a divisor whose leading coefficient is 1. */
  lemma RemainderUnique(dividend: Poly, divisor: Poly, r: Poly, s: Poly)
    requires |divisor| >= 1 && divisor[0]
    requires IsRemainder(dividend, divisor, r) && IsRemainder(dividend, divisor, s)
    ensures r == s
  {
    hide Mul, IsQuotient;
    var q :| IsQuotient(dividend, divisor, q, r);
    var t :| IsQuotient(dividend, divisor, t, s);
    Coefficients(dividend, divisor, q, r);
    Coefficients(dividend, divisor, t, s);
    QuotientUnique(q, t, divisor);
    forall i | 0 <= i < |r| ensures r[i] == s[i] {
      assert r[i + |q| - |q|] == (dividend[i + |q|] != Mul(q, divisor)[i + |q|]);
    }
  }

  lemma Coefficients(dividend: Poly, divisor: Poly, q: Poly, r: Poly)
    requires |divisor| >= 1 && IsQuotient(dividend, divisor, q, r)
    ensures |r| == |divisor| - 1 && |dividend| == |q| + |r|
    ensures forall i :: 0 <= i < |q| ==> Mul(q, divisor)[i] == dividend[i]
    ensures forall i :: |q| <= i < |dividend| ==> (dividend[i] != Mul(q, divisor)[i]) == r[i - |q|]
  {
    hide Mul;
  }

  lemma FromCoefficients(dividend: Poly, divisor: Poly, q: Poly, r: Poly)
    requires |divisor| >= 1 && |r| == |divisor| - 1 && |dividend| == |q| + |r|
    requires forall i :: 0 <= i < |q| ==> Mul(q, divisor)[i] == dividend[i]
    requires forall i :: |q| <= i < |dividend| ==> (dividend[i] != Mul(q, divisor)[i]) == r[i - |q|]
    ensures IsQuotient(dividend, divisor, q, r)
  {
    hide Mul;
  }

  lemma {:induction false} QuotientUnique(q: Poly, t: Poly, p: Poly)
    requires |p| >= 1 && p[0] && |q| == |t|
    requires forall i :: 0 <= i < |q| ==> Mul(q, p)[i] == Mul(t, p)[i]
    ensures q == t
  {
    hide Mul;
    if q != [] {
      var n := |q| - 1;
      forall i | 0 <= i < n ensures Mul(q[..n], p)[i] == Mul(t[..n], p)[i] {
        HighDegree(q, p, i);
        HighDegree(t, p, i);
      }
      QuotientUnique(q[..n], t[..n], p);
      LastBit(q, p);
      LastBit(t, p);
      assert q == q[..n] + [q[n]] && t == t[..n] + [t[n]];
    }
  }

  // The last coefficient of q leaves the higher degrees of the product alone.
  lemma HighDegree(q: Poly, p: Poly, i: nat)
    requires |p| >= 1 && i < |q| - 1
    ensures Mul(q, p)[i] == Mul(q[..|q| - 1], p)[i]
  {
    hide HornerStep;
  }

  lemma LastBit(q: Poly, p: Poly)
    requires |p| >= 1 && p[0] && q != []
    ensures var n, m := |q| - 1, Mul(q[..|q| - 1], p); Mul(q, p)[n] == ((n < |m| && m[n]) != q[n])
  {
    var n := |q| - 1;
    var m := Mul(q[..n], p);
    assert Mul(q, p) == HornerStep(m, q[n], p);
    hide Mul, HornerStep;
  }
}
