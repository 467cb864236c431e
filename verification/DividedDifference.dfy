/**
 The sum that the degree test computes is a divided difference: over n points it picks the coefficient of x^(n-1) of
 the polynomial through them.
 */
module DividedDifference {
  import opened Field
  import opened Polynomials

  /** The factor of a weight that belongs to the point y. */
  function Factor(p: nat, x: int, y: int): int
    requires Prime(p)
  {
    if Res(p, x - y) == 0 then 1 else Inv(p, x - y)
  }

  /** The product of the inverses of x - y over all points y other than x. */
  function Weight(p: nat, xs: seq<int>, x: int): int
    requires Prime(p)
  {
    if xs == [] then 1 else Weight(p, xs[..|xs| - 1], x) * Factor(p, x, xs[|xs| - 1])
  }

  lemma WeightSnoc(p: nat, xs: seq<int>, y: int, x: int)
    requires Prime(p)
    ensures Weight(p, xs + [y], x) == Weight(p, xs, x) * Factor(p, x, y)
  {
    assert (xs + [y])[..|xs|] == xs;
  }

  lemma {:induction false} WeightCons(p: nat, y: int, xs: seq<int>, x: int)
    requires Prime(p)
    ensures Weight(p, [y] + xs, x) == Factor(p, x, y) * Weight(p, xs, x)
  {
    hide Factor, Prime;
    if xs == [] {
      assert [y] + xs == [] + [y];
      WeightSnoc(p, [], y, x);
      assert Weight(p, [], x) == 1;
    } else {
      var n := |xs| - 1;
      assert [y] + xs == ([y] + xs[..n]) + [xs[n]];
      WeightSnoc(p, [y] + xs[..n], xs[n], x);
      WeightCons(p, y, xs[..n], x);
      var f, w, g := Factor(p, x, y), Weight(p, xs[..n], x), Factor(p, x, xs[n]);
      assert (f * w) * g == f * (w * g);
    }
  }

  function Weights(p: nat, xs: seq<int>): (ws: seq<int>)
    requires Prime(p)
    ensures |ws| == |xs|
    ensures forall i :: 0 <= i < |xs| ==> ws[i] == Weight(p, xs, xs[i])
  {
    seq(|xs|, i requires 0 <= i < |xs| => Weight(p, xs, xs[i]))
  }

  function Divided(p: nat, xs: seq<int>, ys: seq<int>): int
    requires Prime(p) && |xs| == |ys|
  {
    Dot(Weights(p, xs), ys)
  }

  lemma DropFactor(p: nat, w: int, x: int, a: int, z: int)
    requires Prime(p) && Res(p, x - a) != 0
    ensures Res(p, (w * Factor(p, x, a)) * ((x - a) * z)) == Res(p, w * z)
    ensures Res(p, (Factor(p, x, a) * w) * ((x - a) * z)) == Res(p, w * z)
  {
    var f, d := Factor(p, x, a), x - a;
    assert f == Inv(p, d);
    hide Res, Inv, Factor, Prime;
    InvInverts(p, d);
    Regroup(w, f, d, z);
    ResMul(p, d * f, 1, w * z, w * z);
  }

  lemma Regroup(w: int, f: int, d: int, z: int)
    ensures (w * f) * (d * z) == (d * f) * (w * z) == (f * w) * (d * z)
  {
    calc {
      (w * f) * (d * z);
      ((w * f) * d) * z;
      ((d * f) * w) * z;
      (d * f) * (w * z);
    }
  }

  /** The values times the distance of their points from a. */
  function Offset(xs: seq<int>, a: int, zs: seq<int>): (ys: seq<int>)
    requires |xs| == |zs|
    ensures |ys| == |xs|
  {
    seq(|xs|, i requires 0 <= i < |xs| => (xs[i] - a) * zs[i])
  }

  /** The terms of a divided difference without the point a, where the values carry its factor. */
  lemma SameTerm(p: nat, w: int, xs: seq<int>, a: int, zs: seq<int>, i: nat)
    requires Prime(p) && i < |xs| == |zs| && Res(p, xs[i] - a) != 0
    ensures Product(p, w * Factor(p, xs[i], a), Offset(xs, a, zs)[i]) == Product(p, w, zs[i])
    ensures Product(p, Factor(p, xs[i], a) * w, Offset(xs, a, zs)[i]) == Product(p, w, zs[i])
  {
    hide Res, Prime, Factor;
    DropFactor(p, w, xs[i], a, zs[i]);
  }

  lemma ZeroTerm(xs: seq<int>, zs: seq<int>, i: nat)
    requires i < |xs| == |zs|
    ensures Offset(xs, xs[i], zs)[i] == 0
  {}

  lemma LastTerm(p: nat, xs: seq<int>, zs: seq<int>, i: nat)
    requires Prime(p) && Distinct(p, xs) && |xs| == |zs| && i + 1 < |xs|
    ensures var n := |xs| - 1;
      Product(p, Weights(p, xs)[i], Offset(xs, xs[n], zs)[i]) == Product(p, Weights(p, xs[..n])[i], zs[i])
  {
    var n := |xs| - 1;
    assert Res(p, xs[i] - xs[n]) != 0;
    hide Res, Prime, Factor, Weight, Distinct, Offset, Product;
    assert xs == xs[..n] + [xs[n]];
    WeightSnoc(p, xs[..n], xs[n], xs[i]);
    SameTerm(p, Weight(p, xs[..n], xs[i]), xs, xs[n], zs, i);
  }

  lemma FirstTerm(p: nat, xs: seq<int>, zs: seq<int>, i: nat)
    requires Prime(p) && Distinct(p, xs) && |xs| == |zs| && i + 1 < |xs|
    ensures Product(p, Weights(p, xs)[i + 1], Offset(xs, xs[0], zs)[i + 1])
         == Product(p, Weights(p, xs[1..])[i], zs[i + 1])
  {
    FirstApart(p, xs);
    assert p > 0;
    hide Res, Prime, Factor, Weight, Distinct, Offset, Product;
    var w, x := Weight(p, xs[1..], xs[i + 1]), xs[i + 1];
    assert Res(p, x - xs[0]) != 0;
    assert Weights(p, xs)[i + 1] == Factor(p, x, xs[0]) * w by {
      assert xs == [xs[0]] + xs[1..];
      WeightCons(p, xs[0], xs[1..], x);
    }
    assert Weights(p, xs[1..])[i] == w;
    SameTerm(p, w, xs, xs[0], zs, i + 1);
  }

  /** Values that vanish at the last point: it can be dropped after dividing by its factor. */
  lemma DropLast(p: nat, xs: seq<int>, zs: seq<int>)
    requires Prime(p) && Distinct(p, xs) && |xs| == |zs| > 0
    ensures var n := |xs| - 1;
      Res(p, Divided(p, xs, Offset(xs, xs[n], zs))) == Res(p, Divided(p, xs[..n], zs[..n]))
  {
    var n := |xs| - 1;
    var ws, ys := Weights(p, xs), Offset(xs, xs[n], zs);
    assert p > 0;
    hide Res, Prime, Weights, Dot, Distinct, Offset, Product;
    ZeroTerm(xs, zs, n);
    assert ws == ws[..n] + [ws[n]] && ys == ys[..n] + [0];
    DotSnoc(ws[..n], ws[n], ys[..n], 0);
    forall i | 0 <= i < n
      ensures Product(p, ws[..n][i], ys[..n][i]) == Product(p, Weights(p, xs[..n])[i], zs[..n][i])
    {
      LastTerm(p, xs, zs, i);
    }
    DotRes(p, ws[..n], ys[..n], Weights(p, xs[..n]), zs[..n]);
  }

  /** The same for the first point. */
  lemma DropFirst(p: nat, xs: seq<int>, zs: seq<int>)
    requires Prime(p) && Distinct(p, xs) && |xs| == |zs| > 0
    ensures Res(p, Divided(p, xs, Offset(xs, xs[0], zs))) == Res(p, Divided(p, xs[1..], zs[1..]))
  {
    var ws, ys := Weights(p, xs), Offset(xs, xs[0], zs);
    assert p > 0;
    hide Res, Prime, Weights, Dot, Distinct, Offset, Product;
    ZeroTerm(xs, zs, 0);
    assert ws == [ws[0]] + ws[1..] && ys == [0] + ys[1..];
    DotCons(ws[0], ws[1..], 0, ys[1..]);
    forall i | 0 <= i < |xs| - 1
      ensures Product(p, ws[1..][i], ys[1..][i]) == Product(p, Weights(p, xs[1..])[i], zs[1..][i])
    {
      FirstTerm(p, xs, zs, i);
    }
    DotRes(p, ws[1..], ys[1..], Weights(p, xs[1..]), zs[1..]);
  }

  lemma FirstApart(p: nat, xs: seq<int>)
    requires Prime(p) && Distinct(p, xs) && xs != []
    ensures forall i :: 0 < i < |xs| ==> Res(p, xs[i] - xs[0]) != 0
  {
    hide Res;
    forall i | 0 < i < |xs|
      ensures Res(p, xs[i] - xs[0]) != 0
    {
      NegNonzero(p, xs[0], xs[i]);
    }
  }

  lemma DividedLinear(p: nat, xs: seq<int>, k: int, b: seq<int>, m: int, c: seq<int>, d: seq<int>)
    requires Prime(p) && |xs| == |b| == |c| == |d|
    requires forall i :: 0 <= i < |xs| ==> d[i] == k * b[i] + m * c[i]
    ensures Divided(p, xs, d) == k * Divided(p, xs, b) + m * Divided(p, xs, c)
  {
    DotLinear(Weights(p, xs), k, b, m, c, d);
  }

  function Ones(n: nat): (r: seq<int>)
    ensures |r| == n && forall i :: 0 <= i < n ==> r[i] == 1
  {
    seq(n, _ => 1)
  }

  lemma DistinctParts(p: nat, xs: seq<int>)
    requires p > 0 && Distinct(p, xs) && xs != []
    ensures Distinct(p, xs[1..]) && Distinct(p, xs[..|xs| - 1])
  {
    hide Res;
  }

  lemma OnePoint(p: nat, x: int, y: int)
    requires Prime(p)
    ensures Divided(p, [x], [y]) == y
  {
    hide Res;
    assert x - x == 0;
    ResRes(p, 0);
    WeightSnoc(p, [], x, x);
    assert [] + [x] == [x];
    assert Weights(p, [x]) == [] + [1] && [y] == [] + [y];
    DotSnoc([], 1, [], y);
  }

  /** A constant has no divided difference over two or more points. */
  lemma {:induction false} DividedOnes(p: nat, xs: seq<int>)
    requires Prime(p) && Distinct(p, xs) && |xs| >= 1
    ensures Res(p, Divided(p, xs, Ones(|xs|))) == if |xs| == 1 then 1 else 0
    decreases |xs|
  {
    assert p >= 2;
    hide Res, Prime, Divided, Distinct;
    ResRes(p, 1);
    var n := |xs| - 1;
    if n == 0 {
      assert xs == [xs[0]] && Ones(1) == [1];
      OnePoint(p, xs[0], 1);
    } else {
      DistinctParts(p, xs);
      DropLast(p, xs, Ones(n + 1));
      DropFirst(p, xs, Ones(n + 1));
      assert Ones(n + 1)[..n] == Ones(n) == Ones(n + 1)[1..];
      DividedOnes(p, xs[..n]);
      DividedOnes(p, xs[1..]);
      hide Offset;
      OnesStep(p, xs);
    }
  }

  lemma OnesStep(p: nat, xs: seq<int>)
    requires Prime(p) && |xs| >= 2 && Distinct(p, xs)
    requires var n := |xs|;
      Res(p, Divided(p, xs, Offset(xs, xs[n - 1], Ones(n)))) == Res(p, Divided(p, xs, Offset(xs, xs[0], Ones(n))))
    ensures Res(p, Divided(p, xs, Ones(|xs|))) == 0
  {
    var n := |xs|;
    var a, b := xs[0], xs[n - 1];
    assert Res(p, a - b) != 0;
    hide Res, Prime, Divided, Distinct, Offset;
    OnesOffset(xs, a, b);
    DividedLinear(p, xs, 1, Offset(xs, a, Ones(n)), a - b, Ones(n), Offset(xs, b, Ones(n)));
    Cancelled(p, Divided(p, xs, Offset(xs, b, Ones(n))), Divided(p, xs, Offset(xs, a, Ones(n))), a - b,
              Divided(p, xs, Ones(n)));
  }

  lemma OnesOffset(xs: seq<int>, a: int, b: int)
    ensures forall i :: 0 <= i < |xs| ==>
      Offset(xs, b, Ones(|xs|))[i] == 1 * Offset(xs, a, Ones(|xs|))[i] + (a - b) * Ones(|xs|)[i]
  {}

  lemma Cancelled(p: nat, u: int, v: int, k: int, d: int)
    requires Prime(p) && u == 1 * v + k * d && Res(p, u) == Res(p, v) && Res(p, k) != 0
    ensures Res(p, d) == 0
  {
    hide Res, Prime;
    ResAdd(p, u, v, v, v);
    ResRes(p, 0);
    assert u - v == k * d && v - v == 0;
    NoZeroDivisors(p, k, d);
  }

  function Top(c: seq<int>, n: nat): int
    requires n > 0
  {
    if |c| == n then c[n - 1] else 0
  }

  /** Over n points the values of a polynomial with at most n coefficients give its coefficient of x^(n-1). */
  lemma {:induction false} DividedPolynomial(p: nat, xs: seq<int>, c: seq<int>)
    requires Prime(p) && Distinct(p, xs) && 1 <= |xs| && |c| <= |xs|
    ensures Res(p, Divided(p, xs, Values(c, xs))) == Res(p, Top(c, |xs|))
    decreases |xs|
  {
    var n := |xs| - 1;
    if n == 0 {
      OnePointPolynomial(p, xs, c);
    } else {
      assert p >= 2;
      hide Res, Prime, Divided, Distinct, Eval, Offset, Quotient;
      DistinctParts(p, xs);
      var a, q := xs[n], Quotient(c, xs[n]);
      DividedPolynomial(p, xs[..n], q);
      assert Values(q, xs)[..n] == Values(q, xs[..n]);
      DropLast(p, xs, Values(q, xs));
      QuotientStep(p, xs, c, a);
      FactorTheorem(c, a, a);
    }
  }

  lemma QuotientStep(p: nat, xs: seq<int>, c: seq<int>, a: int)
    requires Prime(p) && Distinct(p, xs) && |xs| >= 2
    ensures Res(p, Divided(p, xs, Values(c, xs))) == Res(p, Divided(p, xs, Offset(xs, a, Values(Quotient(c, a), xs))))
  {
    assert p > 0;
    hide Res, Prime, Divided, Distinct, Eval, Offset, Quotient, Values;
    var us, ones := Offset(xs, a, Values(Quotient(c, a), xs)), Ones(|xs|);
    QuotientValues(c, xs, a);
    DividedLinear(p, xs, 1, us, Eval(c, a), ones, Values(c, xs));
    DividedOnes(p, xs);
    AddZero(p, Divided(p, xs, us), Eval(c, a), Divided(p, xs, ones));
  }

  lemma QuotientValues(c: seq<int>, xs: seq<int>, a: int)
    ensures forall i :: 0 <= i < |xs| ==>
      Values(c, xs)[i] == 1 * Offset(xs, a, Values(Quotient(c, a), xs))[i] + Eval(c, a) * Ones(|xs|)[i]
  {
    hide Eval, Quotient;
    forall i | 0 <= i < |xs|
      ensures Values(c, xs)[i] == 1 * Offset(xs, a, Values(Quotient(c, a), xs))[i] + Eval(c, a) * Ones(|xs|)[i]
    {
      FactorTheorem(c, a, xs[i]);
    }
  }

  lemma OnePointPolynomial(p: nat, xs: seq<int>, c: seq<int>)
    requires Prime(p) && |xs| == 1 && |c| <= 1
    ensures Divided(p, xs, Values(c, xs)) == Top(c, 1)
  {
    assert c != [] ==> c[1..] == [];
    assert xs == [xs[0]] && Values(c, xs) == [Eval(c, xs[0])];
    OnePoint(p, xs[0], Eval(c, xs[0]));
  }
}
