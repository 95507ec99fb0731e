/**
 Polynomials over GF(2^8): evaluation, division by a linear factor, and the existence and
 uniqueness of the interpolating polynomial.
 */
module Polynomials {
  import opened Gf256

  /** Coefficients in ascending order. */
  type Poly = seq<u8>

  /** Horner evaluation. */
  function Eval(p: Poly, x: u8): u8 {
    if p == [] then 0 else Add(Mul(Eval(p[1..], x), x), p[0])
  }

  predicate Distinct(xs: seq<u8>) {
    forall i, j :: 0 <= i < j < |xs| ==> xs[i] != xs[j]
  }

  predicate IsZero(p: Poly) {
    forall i :: 0 <= i < |p| ==> p[i] == 0
  }

  // ------------------------------------------------------------------ arithmetic on polynomials

  function Plus(p: Poly, q: Poly): (r: Poly)
    requires |p| == |q|
    ensures |r| == |p|
  {
    seq(|p|, i requires 0 <= i < |p| => Add(p[i], q[i]))
  }

  function Scale(k: u8, p: Poly): (r: Poly)
    ensures |r| == |p|
  {
    seq(|p|, i requires 0 <= i < |p| => Mul(k, p[i]))
  }

  /** The product with the linear factor (X + r). */
  function TimesLinear(p: Poly, r: u8): (q: Poly)
    ensures |q| == |p| + 1
  {
    Plus([0] + p, Scale(r, p) + [0])
  }

  lemma {:induction false} EvalPlus(p: Poly, q: Poly, x: u8)
    requires |p| == |q|
    ensures Eval(Plus(p, q), x) == Add(Eval(p, x), Eval(q, x))
  {
    if p != [] {
      EvalPlus(p[1..], q[1..], x);
      assert Plus(p, q)[1..] == Plus(p[1..], q[1..]);
      MulAddLeft(Eval(p[1..], x), Eval(q[1..], x), x);
      AddFour(Mul(Eval(p[1..], x), x), Mul(Eval(q[1..], x), x), p[0], q[0]);
    }
  }

  lemma {:induction false} EvalScale(k: u8, p: Poly, x: u8)
    ensures Eval(Scale(k, p), x) == Mul(k, Eval(p, x))
  {
    if p == [] {
      MulZeroRight(k);
    } else {
      EvalScale(k, p[1..], x);
      assert Scale(k, p)[1..] == Scale(k, p[1..]);
      MulAssoc(k, Eval(p[1..], x), x);
      MulAddRight(k, Mul(Eval(p[1..], x), x), p[0]);
    }
  }

  lemma MulZeroRight(a: u8)
    ensures Mul(a, 0) == 0
  {}

  lemma {:induction false} EvalPadded(p: Poly, x: u8)
    ensures Eval(p + [0], x) == Eval(p, x)
  {
    if p == [] {
      assert (p + [0])[1..] == [];
      MulZeroLeft(x);
    } else {
      EvalPadded(p[1..], x);
      assert (p + [0])[1..] == p[1..] + [0];
    }
  }

  lemma EvalTimesLinear(p: Poly, r: u8, x: u8)
    ensures Eval(TimesLinear(p, r), x) == Mul(Eval(p, x), Add(x, r))
  {
    EvalPlus([0] + p, Scale(r, p) + [0], x);
    EvalPadded(Scale(r, p), x);
    EvalScale(r, p, x);
    assert ([0] + p)[1..] == p;
    MulComm(r, Eval(p, x));
    MulAddRight(Eval(p, x), x, r);
  }

  // ------------------------------------------------------------------ roots

  /** The quotient of `p` by (X + r); the remainder is the value of `p` at `r`. */
  function Quotient(p: Poly, r: u8): (q: Poly)
    requires p != []
    ensures |q| == |p| - 1
  {
    if |p| == 1 then [] else [Eval(p[1..], r)] + Quotient(p[1..], r)
  }

  lemma {:induction false} DivisionByLinear(p: Poly, r: u8, x: u8)
    requires p != []
    ensures Eval(p, x) == Add(Mul(Eval(Quotient(p, r), x), Add(x, r)), Eval(p, r))
  {
    if |p| == 1 {
      MulZeroLeft(x);
      MulZeroLeft(r);
      MulZeroLeft(Add(x, r));
    } else {
      var d := p[1..];
      DivisionByLinear(d, r, x);
      var q, v := Eval(Quotient(d, r), x), Eval(d, r);
      assert Quotient(p, r)[1..] == Quotient(d, r);
      DivisionStep(q, v, x, r, p[0]);
    }
  }

  lemma DivisionStep(q: u8, v: u8, x: u8, r: u8, c: u8)
    ensures Add(Mul(Add(Mul(q, Add(x, r)), v), x), c)
         == Add(Mul(Add(Mul(q, x), v), Add(x, r)), Add(Mul(v, r), c))
  {
    var s := Mul(Mul(q, x), Add(x, r));
    MulAddLeft(Mul(q, Add(x, r)), v, x);
    MulAssoc(q, Add(x, r), x);
    MulComm(Add(x, r), x);
    MulAssoc(q, x, Add(x, r));
    MulAddLeft(Mul(q, x), v, Add(x, r));
    MulAddRight(v, x, r);
    DivisionRegroup(s, Mul(v, x), Mul(v, r), c);
  }

  lemma DivisionRegroup(s: u8, vx: u8, vr: u8, c: u8)
    ensures Add(Add(s, vx), c) == Add(Add(s, Add(vx, vr)), Add(vr, c))
  {
    AddAssoc(s, vx, vr);
    AddAssoc(Add(Add(s, vx), vr), vr, c);
    AddCancel(Add(s, vx), vr);
  }

  /** When quotient and remainder vanish, so does the polynomial. */
  lemma {:induction false} ZeroFromQuotient(p: Poly, r: u8)
    requires p != [] && IsZero(Quotient(p, r)) && Eval(p, r) == 0
    ensures IsZero(p)
  {
    MulZeroLeft(r);
    if |p| > 1 {
      var d, q := p[1..], Quotient(p, r);
      assert q[0] == Eval(d, r);
      assert Quotient(d, r) == q[1..];
      ZeroFromQuotient(d, r);
      assert forall i :: 0 < i < |p| ==> p[i] == d[i - 1];
    }
  }

  /** A polynomial with as many roots as coefficients is zero. */
  lemma {:induction false} RootCount(p: Poly, roots: seq<u8>)
    requires Distinct(roots) && |roots| == |p|
    requires forall k :: 0 <= k < |roots| ==> Eval(p, roots[k]) == 0
    ensures IsZero(p)
    decreases |p|
  {
    if p != [] {
      var m := |roots| - 1;
      var r, rest := roots[m], roots[..m];
      var q := Quotient(p, r);
      forall k | 0 <= k < |rest| ensures Eval(q, rest[k]) == 0 {
        DivisionByLinear(p, r, rest[k]);
        AddZero(rest[k], r);
        NoZeroDivisors(Eval(q, rest[k]), Add(rest[k], r));
      }
      RootCount(q, rest);
      ZeroFromQuotient(p, r);
    }
  }

  lemma AddZero(a: u8, b: u8)
    ensures Add(a, b) == 0 <==> a == b
    ensures Add(a, 0) == a && Add(0, a) == a
  {}

  /** Two polynomials of length t that agree at t points are equal. */
  lemma UniqueInterpolant(p: Poly, q: Poly, xs: seq<u8>)
    requires Distinct(xs) && |p| == |q| == |xs|
    requires forall k :: 0 <= k < |xs| ==> Eval(p, xs[k]) == Eval(q, xs[k])
    ensures p == q
  {
    forall k | 0 <= k < |xs| ensures Eval(Plus(p, q), xs[k]) == 0 {
      EvalPlus(p, q, xs[k]);
      AddZero(Eval(p, xs[k]), Eval(q, xs[k]));
    }
    RootCount(Plus(p, q), xs);
    forall i | 0 <= i < |p| ensures p[i] == q[i] {
      assert Plus(p, q)[i] == Add(p[i], q[i]);
      AddZero(p[i], q[i]);
    }
  }

  // ------------------------------------------------------------------ Lagrange interpolation

  /** The product of (z + x_k) over k < j other than i: a Lagrange numerator, at the point z. */
  function Product(xs: seq<u8>, i: nat, z: u8, j: nat): u8
    requires j <= |xs|
  {
    if j == 0 then 1
    else if j - 1 == i then Product(xs, i, z, j - 1)
    else Mul(Product(xs, i, z, j - 1), Add(z, xs[j - 1]))
  }

  /** The i-th Lagrange basis polynomial, evaluated at z. */
  function Basis(xs: seq<u8>, i: nat, z: u8): u8
    requires i < |xs|
  {
    Mul(Product(xs, i, z, |xs|), Inv(Product(xs, i, xs[i], |xs|)))
  }

  /** The first m terms of the Lagrange sum at z. */
  function Lagrange(xs: seq<u8>, ys: seq<u8>, z: u8, m: nat): u8
    requires m <= |xs| == |ys|
  {
    if m == 0 then 0 else Add(Lagrange(xs, ys, z, m - 1), Mul(ys[m - 1], Basis(xs, m - 1, z)))
  }

  /** Coefficients of `Product`, one linear factor at a time. */
  function ProductPoly(xs: seq<u8>, i: nat, j: nat): (p: Poly)
    requires j <= |xs|
    ensures |p| == if i < j then j else j + 1
  {
    if j == 0 then [1]
    else if j - 1 == i then ProductPoly(xs, i, j - 1)
    else TimesLinear(ProductPoly(xs, i, j - 1), xs[j - 1])
  }

  lemma EvalOne(z: u8)
    ensures Eval([1], z) == 1
  {
    var one: Poly := [1];
    assert one[1..] == [];
    MulZeroLeft(z);
  }

  lemma {:induction false} EvalProductPoly(xs: seq<u8>, i: nat, z: u8, j: nat)
    requires j <= |xs|
    ensures Eval(ProductPoly(xs, i, j), z) == Product(xs, i, z, j)
  {
    if j == 0 {
      EvalOne(z);
    } else {
      EvalProductPoly(xs, i, z, j - 1);
      EvalTimesLinear(ProductPoly(xs, i, j - 1), xs[j - 1], z);
    }
  }

  function Weight(xs: seq<u8>, ys: seq<u8>, i: nat): u8
    requires i < |xs| == |ys|
  {
    Mul(ys[i], Inv(Product(xs, i, xs[i], |xs|)))
  }

  /** Coefficients of the Lagrange sum. */
  function LagrangePoly(xs: seq<u8>, ys: seq<u8>, m: nat): (p: Poly)
    requires m <= |xs| == |ys|
    ensures |p| == |xs|
  {
    if m == 0 then seq(|xs|, _ => 0)
    else Plus(LagrangePoly(xs, ys, m - 1), Scale(Weight(xs, ys, m - 1), ProductPoly(xs, m - 1, |xs|)))
  }

  lemma {:induction false} EvalZero(n: nat, x: u8)
    ensures Eval(seq(n, _ => 0), x) == 0
  {
    if n > 0 {
      EvalZero(n - 1, x);
      var zeros: Poly := seq(n, _ => 0);
      assert zeros[1..] == seq(n - 1, _ => 0);
      MulZeroLeft(x);
    }
  }

  lemma {:induction false} EvalLagrangePoly(xs: seq<u8>, ys: seq<u8>, z: u8, m: nat)
    requires m <= |xs| == |ys|
    ensures Eval(LagrangePoly(xs, ys, m), z) == Lagrange(xs, ys, z, m)
  {
    if m == 0 {
      EvalZero(|xs|, z);
    } else {
      var i := m - 1;
      var w, p := Weight(xs, ys, i), ProductPoly(xs, i, |xs|);
      EvalLagrangePoly(xs, ys, z, i);
      EvalPlus(LagrangePoly(xs, ys, i), Scale(w, p), z);
      EvalScale(w, p, z);
      EvalProductPoly(xs, i, z, |xs|);
      var inv, v := Inv(Product(xs, i, xs[i], |xs|)), Product(xs, i, z, |xs|);
      MulAssoc(ys[i], inv, v);
      MulComm(inv, v);
    }
  }

  /** A numerator vanishes at every other node and nowhere else among the nodes. */
  lemma {:induction false} ProductAtNode(xs: seq<u8>, i: nat, k: nat, j: nat)
    requires Distinct(xs) && i < |xs| && k < |xs| && j <= |xs|
    ensures Product(xs, i, xs[k], j) == 0 <==> k < j && k != i
  {
    if j > 0 {
      ProductAtNode(xs, i, k, j - 1);
      var p, f := Product(xs, i, xs[k], j - 1), Add(xs[k], xs[j - 1]);
      AddZero(xs[k], xs[j - 1]);
      assert xs[k] == xs[j - 1] <==> k == j - 1;
      MulZeroLeft(f);
      MulZeroRight(p);
      if Mul(p, f) == 0 {
        NoZeroDivisors(p, f);
      }
    }
  }

  lemma BasisAtNode(xs: seq<u8>, i: nat, k: nat)
    requires Distinct(xs) && i < |xs| && k < |xs|
    ensures Basis(xs, i, xs[k]) == if i == k then 1 else 0
  {
    ProductAtNode(xs, i, k, |xs|);
    ProductAtNode(xs, i, i, |xs|);
    var den := Product(xs, i, xs[i], |xs|);
    InvIsInverse(den);
    MulZeroLeft(Inv(den));
  }

  lemma {:induction false} LagrangeHits(xs: seq<u8>, ys: seq<u8>, k: nat, m: nat)
    requires Distinct(xs) && m <= |xs| == |ys| && k < |xs|
    ensures Lagrange(xs, ys, xs[k], m) == if k < m then ys[k] else 0
  {
    if m > 0 {
      LagrangeHits(xs, ys, k, m - 1);
      BasisAtNode(xs, m - 1, k);
      MulZeroRight(ys[m - 1]);
      MulOneRight(ys[m - 1]);
      AddZero(ys[m - 1], 0);
      AddZero(Lagrange(xs, ys, xs[k], m - 1), 0);
    }
  }

  /**
   Lagrange's theorem: a polynomial of length t is recovered at every point z from its values at
   any t distinct nodes.
   */
  lemma LagrangeRecovers(p: Poly, xs: seq<u8>, ys: seq<u8>, z: u8)
    requires Distinct(xs) && |p| == |xs| == |ys|
    requires forall k :: 0 <= k < |xs| ==> ys[k] == Eval(p, xs[k])
    ensures Lagrange(xs, ys, z, |xs|) == Eval(p, z)
  {
    var q := LagrangePoly(xs, ys, |xs|);
    forall k | 0 <= k < |xs| ensures Eval(q, xs[k]) == Eval(p, xs[k]) {
      EvalLagrangePoly(xs, ys, xs[k], |xs|);
      LagrangeHits(xs, ys, k, |xs|);
    }
    UniqueInterpolant(q, p, xs);
    EvalLagrangePoly(xs, ys, z, |xs|);
  }

  /** Some polynomial of length t takes any prescribed values at t distinct nodes. */
  lemma InterpolantExists(xs: seq<u8>, ys: seq<u8>) returns (p: Poly)
    requires Distinct(xs) && |xs| == |ys|
    ensures |p| == |xs|
    ensures forall k :: 0 <= k < |xs| ==> Eval(p, xs[k]) == ys[k]
  {
    p := LagrangePoly(xs, ys, |xs|);
    forall k | 0 <= k < |xs| ensures Eval(p, xs[k]) == ys[k] {
      EvalLagrangePoly(xs, ys, xs[k], |xs|);
      LagrangeHits(xs, ys, k, |xs|);
    }
  }
}
