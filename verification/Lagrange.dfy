/** Lagrange interpolation at zero, as lagrange_interpolation does it. */
module Lagrange {
  import opened Wrappers
  import opened Field
  import opened Polynomials
  import opened DividedDifference
  import opened PolyOps

  /** The factor of a coefficient that belongs to the point y. */
  function Ratio(p: nat, x: int, y: int): int
    requires Prime(p)
  {
    if Res(p, y - x) == 0 then 1 else y * Inv(p, y - x)
  }

  /** The product of y / (y - x) over all points y other than x. */
  function Coefficient(p: nat, xs: seq<int>, x: int): int
    requires Prime(p)
  {
    if xs == [] then 1 else Ratio(p, x, xs[|xs| - 1]) * Coefficient(p, xs[..|xs| - 1], x)
  }

  function Coefficients(p: nat, xs: seq<int>): (r: seq<int>)
    requires Prime(p)
    ensures |r| == |xs| && forall i :: 0 <= i < |xs| ==> r[i] == Coefficient(p, xs, xs[i])
  {
    seq(|xs|, i requires 0 <= i < |xs| => Coefficient(p, xs, xs[i]))
  }

  function AtZero(p: nat, xs: seq<int>, ys: seq<int>): int
    requires Prime(p) && |xs| == |ys|
  {
    Dot(Coefficients(p, xs), ys)
  }

  ghost predicate Nonzero(p: nat, xs: seq<int>)
    requires p > 0
  {
    forall i :: 0 <= i < |xs| ==> Res(p, xs[i]) != 0
  }

  /** The product of the negated points. */
  function Negated(xs: seq<int>): int {
    if xs == [] then 1 else (-xs[|xs| - 1]) * Negated(xs[..|xs| - 1])
  }

  lemma NegInverse(p: nat, x: int, y: int)
    requires Prime(p) && Res(p, x - y) != 0
    ensures Res(p, y - x) != 0 && Res(p, (-y) * Inv(p, x - y)) == Res(p, y * Inv(p, y - x))
  {
    assert p > 0 && y - x == -(x - y);
    NegNonzero(p, x, y);
    hide Res, Inv, Prime;
    InvInverts(p, x - y);
    InvInverts(p, y - x);
    SignMoves(p, x - y, y, Inv(p, x - y), Inv(p, y - x));
  }

  lemma SignMoves(p: nat, d: int, y: int, i: int, j: int)
    requires Prime(p) && Res(p, d) != 0 && Res(p, d * i) == Res(p, 1) && Res(p, -d * j) == Res(p, 1)
    ensures Res(p, -y * i) == Res(p, y * j)
  {
    assert p > 0;
    hide Res, Prime;
    // both sides times d are -y
    ResMul(p, -y, -y, d * i, 1);
    ResMul(p, -y, -y, -d * j, 1);
    Swap(-y, d, i);
    NegSwap(y, d, j);
    Cancel(p, d, -y * i, y * j);
  }

  lemma Swap(y: int, d: int, i: int)
    ensures y * (d * i) == d * (y * i)
  {
    assert y * (d * i) == (y * d) * i == (d * y) * i;
  }

  lemma NegSwap(y: int, d: int, j: int)
    ensures -y * (-d * j) == d * (y * j)
  {
    Swap(y, d, j);
  }

  /** One factor of the negated product against one of a weight. */
  lemma RatioStep(p: nat, x: int, y: int)
    requires Prime(p)
    ensures Res(p, (-y) * Factor(p, x, y)) == Res(p, (if Res(p, x - y) == 0 then -y else 1) * Ratio(p, x, y))
  {
    assert p > 0;
    NegNonzero(p, x, y);
    if Res(p, x - y) != 0 {
      hide Res, Inv, Prime;
      NegInverse(p, x, y);
    }
  }

  lemma MultiplyStep(p: nat, n: int, f: int, a: int, w: int, k: int, r: int, m: int, c: int, km: int)
    requires p > 0 && Res(p, n * f) == Res(p, k * r) && Res(p, a * w) == Res(p, m * c) && km == k * m
    ensures Res(p, (n * a) * (w * f)) == Res(p, km * (r * c))
  {
    hide Res;
    ResMul(p, n * f, k * r, a * w, m * c);
    Four(n, f, a, w);
    Four(k, r, m, c);
  }

  lemma Four(a: int, b: int, c: int, d: int)
    ensures (a * b) * (c * d) == (a * c) * (d * b) == (a * c) * (b * d)
  {
    assert (a * b) * (c * d) == ((a * b) * c) * d == ((a * c) * b) * d;
  }

  /** Away from x itself, the negated product times the weight is the coefficient. */
  lemma {:induction false} ApartFromX(p: nat, xs: seq<int>, x: int)
    requires Prime(p) && forall i :: 0 <= i < |xs| ==> Res(p, x - xs[i]) != 0
    ensures Res(p, Negated(xs) * Weight(p, xs, x)) == Res(p, 1 * Coefficient(p, xs, x))
  {
    if xs != [] {
      assert p > 0;
      hide Res, Inv, Prime, Ratio, Factor;
      var n := |xs| - 1;
      ApartFromX(p, xs[..n], x);
      RatioStep(p, x, xs[n]);
      MultiplyStep(p, -xs[n], Factor(p, x, xs[n]), Negated(xs[..n]), Weight(p, xs[..n], x),
                   1, Ratio(p, x, xs[n]), 1, Coefficient(p, xs[..n], x), 1);
    }
  }

  lemma LastIsX(p: nat, xs: seq<int>)
    requires Prime(p) && Distinct(p, xs) && xs != []
    ensures var x := xs[|xs| - 1];
      Res(p, Mul(Negated(xs), Weight(p, xs, x))) == Res(p, Mul(-x, Coefficient(p, xs, x)))
  {
    var n := |xs| - 1;
    var x := xs[n];
    assert p > 0;
    DistinctLast(p, xs);
    RatioStep(p, x, x);
    SelfZero(p, x);
    hide Res, Inv, Prime, Ratio, Factor, Distinct;
    ApartFromX(p, xs[..n], x);
    MultiplyStep(p, -x, Factor(p, x, x), Negated(xs[..n]), Weight(p, xs[..n], x),
                 -x, Ratio(p, x, x), 1, Coefficient(p, xs[..n], x), -x);
  }

  lemma SelfZero(p: nat, x: int)
    requires p > 0
    ensures Res(p, x - x) == 0
  {
    ResRes(p, 0);
  }

  lemma LastIsNotX(p: nat, xs: seq<int>, x: int)
    requires Prime(p) && xs != [] && Res(p, x - xs[|xs| - 1]) != 0
    requires var xs' := xs[..|xs| - 1];
      Res(p, Mul(Negated(xs'), Weight(p, xs', x))) == Res(p, Mul(-x, Coefficient(p, xs', x)))
    ensures Res(p, Mul(Negated(xs), Weight(p, xs, x))) == Res(p, Mul(-x, Coefficient(p, xs, x)))
  {
    var n := |xs| - 1;
    assert p > 0;
    RatioStep(p, x, xs[n]);
    hide Res, Inv, Prime, Ratio, Factor;
    MultiplyStep(p, -xs[n], Factor(p, x, xs[n]), Negated(xs[..n]), Weight(p, xs[..n], x),
                 1, Ratio(p, x, xs[n]), -x, Coefficient(p, xs[..n], x), -x);
  }

  /** With x among the points, its own negation is left over. */
  lemma {:induction false} WithX(p: nat, xs: seq<int>, k: nat)
    requires Prime(p) && Distinct(p, xs) && k < |xs|
    ensures Res(p, Mul(Negated(xs), Weight(p, xs, xs[k]))) == Res(p, Mul(-xs[k], Coefficient(p, xs, xs[k])))
  {
    hide Res, Prime, Negated, Weight, Coefficient, Mul;
    var n := |xs| - 1;
    if k == n {
      LastIsX(p, xs);
    } else {
      assert xs[..n][k] == xs[k];
      WithX(p, xs[..n], k);
      LastIsNotX(p, xs, xs[k]);
    }
  }

  lemma {:induction false} WeightAtZero(p: nat, xs: seq<int>)
    requires Prime(p) && Nonzero(p, xs)
    ensures Res(p, Mul(Negated(xs), Weight(p, xs, 0))) == 1
  {
    assert p >= 2;
    ResRes(p, 1);
    if xs != [] {
      var n := |xs| - 1;
      var y := xs[n];
      assert Res(p, y) != 0 && 0 - y == -y;
      NegNonzero(p, 0, y);
      assert y - 0 == y;
      WeightAtZero(p, xs[..n]);
      hide Res, Inv, Prime, Nonzero;
      InvInverts(p, -y);
      assert Factor(p, 0, y) == Inv(p, -y);
      hide Factor;
      MultiplyStep(p, -y, Factor(p, 0, y), Negated(xs[..n]), Weight(p, xs[..n], 0), 1, 1, 1, 1, 1);
    }
  }

  lemma TermAtZero(p: nat, a: int, f: int, w: int, x: int, c: int, y: int)
    requires Prime(p) && Res(p, x) != 0 && f == Inv(p, x) && Res(p, Mul(a, w)) == Res(p, Mul(-x, c))
    ensures Product(p, Mul(f, w), Mul(a, y)) == Product(p, c, Mul(-1, y))
  {
    assert p > 0;
    hide Res, Prime, Inv;
    InvInverts(p, x);
    ResMul(p, a * w, (-x) * c, f * y, f * y);
    ResMul(p, x * f, 1, c * (-y), c * (-y));
    Regroup4(f, w, a, y);
    Regroup4(f, c, -x, y);
    assert (f * c) * (-x * y) == (x * f) * (c * -y) by {
      Four(f, c, -x, y);
      assert (f * -x) * (c * y) == (x * f) * (c * -y);
    }
  }

  lemma Regroup4(f: int, w: int, a: int, y: int)
    ensures (f * w) * (a * y) == (a * w) * (f * y)
  {
    Four(f, w, a, y);
    Four(a, w, f, y);
  }

  lemma ZeroFactor(p: nat, x: int)
    requires Prime(p) && Res(p, x) != 0
    ensures Factor(p, x, 0) == Inv(p, x)
  {
    hide Res, Prime, Inv;
    assert x - 0 == x;
  }

  lemma WeightsAfter(p: nat, y: int, xs: seq<int>, i: nat)
    requires Prime(p) && i < |xs|
    ensures Weights(p, [y] + xs)[i + 1] == Mul(Factor(p, xs[i], y), Weight(p, xs, xs[i]))
  {
    hide Factor, Weight, Prime;
    assert ([y] + xs)[i + 1] == xs[i];
    WeightCons(p, y, xs, xs[i]);
  }

  /** The term of the divided difference over zero and the points, against the term of the interpolation. */
  lemma TermMatches(p: nat, xs: seq<int>, ys: seq<int>, i: nat)
    requires Prime(p) && Distinct(p, xs) && Nonzero(p, xs) && i < |xs| == |ys|
    ensures Product(p, Weights(p, [0] + xs)[i + 1], Mul(Negated(xs), ys[i]))
         == Product(p, Coefficients(p, xs)[i], Mul(-1, ys[i]))
  {
    hide Res, Prime, Distinct, Mul, Product, Weights, Coefficients, Coefficient, Weight, Factor, Negated;
    var x := xs[i];
    assert Res(p, x) != 0;
    ZeroFactor(p, x);
    WithX(p, xs, i);
    WeightsAfter(p, 0, xs, i);
    TermAtZero(p, Negated(xs), Factor(p, x, 0), Weight(p, xs, x), x, Coefficient(p, xs, x), ys[i]);
  }

  lemma DotScale(k: int, a: seq<int>, b: seq<int>)
    requires |a| == |b|
    ensures Dot(a, Scaled(k, b)) == Mul(k, Dot(a, b))
  {
    DotLinear(a, k, b, 0, b, Scaled(k, b));
  }

  function Scaled(k: int, b: seq<int>): (r: seq<int>)
    ensures |r| == |b| && forall i :: 0 <= i < |b| ==> r[i] == Mul(k, b[i])
  {
    seq(|b|, i requires 0 <= i < |b| => Mul(k, b[i]))
  }

  /** The weights of the points when zero is added to them. */
  function ZeroTail(p: nat, xs: seq<int>): (ws: seq<int>)
    requires Prime(p)
    ensures |ws| == |xs|
  {
    Weights(p, [0] + xs)[1..]
  }

  lemma TailMatches(p: nat, xs: seq<int>, ys: seq<int>)
    requires Prime(p) && Distinct(p, xs) && Nonzero(p, xs) && |xs| == |ys|
    ensures Res(p, Mul(Negated(xs), Dot(ZeroTail(p, xs), ys))) == Res(p, Mul(-1, AtZero(p, xs, ys)))
  {
    assert p > 0;
    hide Mul, Res, Inv, Prime, Distinct, Nonzero, Negated, Weights, Coefficients, Product, Dot;
    var a, ws := Negated(xs), ZeroTail(p, xs);
    var us, vs, cs := Scaled(a, ys), Scaled(-1, ys), Coefficients(p, xs);
    forall i | 0 <= i < |xs|
      ensures Product(p, ws[i], us[i]) == Product(p, cs[i], vs[i])
    {
      TermMatches(p, xs, ys, i);
    }
    hide Scaled, ZeroTail;
    DotRes(p, ws, us, cs, vs);
    DotScale(a, ws, ys);
    DotScale(-1, cs, ys);
  }

  lemma {:induction false} DotUpdate(a: seq<int>, b: seq<int>, j: nat, y: int)
    requires |a| == |b| && j < |b|
    ensures Dot(a, b[j := y]) == Dot(a, b) + a[j] * (y - b[j])
  {
    var n := |a| - 1;
    if j < n {
      DotUpdate(a[..n], b[..n], j, y);
      assert b[j := y][..n] == b[..n][j := y];
    } else {
      assert b[j := y][..n] == b[..n];
      assert a[n] * y == a[n] * b[n] + a[n] * (y - b[n]);
    }
  }

  lemma RatioNonzero(p: nat, x: int, y: int)
    requires Prime(p) && p > 0 && Res(p, y) != 0
    ensures Res(p, Ratio(p, x, y)) != 0
  {
    hide Res, Prime, Inv;
    SmallResidues(p);
    if Res(p, y - x) != 0 {
      InvInverts(p, y - x);
      ProductVanishes(p, y - x, Inv(p, y - x));
      ProductVanishes(p, y, Inv(p, y - x));
    }
  }

  lemma {:induction false} CoefficientNonzero(p: nat, xs: seq<int>, x: int)
    requires Prime(p) && p > 0 && Nonzero(p, xs)
    ensures Res(p, Coefficient(p, xs, x)) != 0
  {
    hide Res, Prime, Inv, Ratio;
    SmallResidues(p);
    if xs != [] {
      var n := |xs| - 1;
      assert Nonzero(p, xs[..n]);
      CoefficientNonzero(p, xs[..n], x);
      RatioNonzero(p, x, xs[n]);
      ProductVanishes(p, Ratio(p, x, xs[n]), Coefficient(p, xs[..n], x));
    }
  }

  /** Every value counts: changing one of them changes the interpolation. */
  lemma OneChanged(p: nat, xs: seq<int>, ys: seq<int>, j: nat, y: int)
    requires Prime(p) && p > 0 && Nonzero(p, xs) && |xs| == |ys| && j < |ys|
    ensures Res(p, AtZero(p, xs, ys[j := y])) == Res(p, AtZero(p, xs, ys)) <==> Res(p, y) == Res(p, ys[j])
  {
    hide Res, Prime, Coefficient, Dot, Nonzero;
    var k := Coefficient(p, xs, xs[j]);
    DotUpdate(Coefficients(p, xs), ys, j, y);
    CoefficientNonzero(p, xs, xs[j]);
    ProductVanishes(p, k, y - ys[j]);
    ResEqual(p, AtZero(p, xs, ys[j := y]), AtZero(p, xs, ys));
    ResEqual(p, y, ys[j]);
  }

  lemma DistinctWithZero(p: nat, xs: seq<int>)
    requires p > 0 && Distinct(p, xs) && Nonzero(p, xs)
    ensures Distinct(p, [0] + xs)
  {
    hide Res;
    var zs := [0] + xs;
    forall i, j | 0 <= i < j < |zs|
      ensures Res(p, zs[i] - zs[j]) != 0
    {
      if i == 0 {
        NegNonzero(p, 0, xs[j - 1]);
        assert xs[j - 1] - 0 == xs[j - 1];
      }
    }
  }

  lemma SameValues(p: nat, xs: seq<int>, ys: seq<int>, c: seq<int>)
    requires Prime(p) && |xs| == |ys| && Fits(p, xs, ys, c)
    ensures Res(p, AtZero(p, xs, ys)) == Res(p, AtZero(p, xs, Values(c, xs)))
  {
    assert p > 0;
    hide Res, Prime, Coefficients, Dot, Eval;
    var cs := Coefficients(p, xs);
    forall i | 0 <= i < |xs|
      ensures Product(p, cs[i], ys[i]) == Product(p, cs[i], Values(c, xs)[i])
    {
      ResMul(p, cs[i], cs[i], ys[i], Values(c, xs)[i]);
    }
    hide Product;
    DotRes(p, cs, ys, cs, Values(c, xs));
  }

  lemma HeadMatches(p: nat, a: int, w: int, v: int, s: int, t: int)
    requires p > 0 && Res(p, Mul(w, v) + s) == 0 && Res(p, Mul(a, w)) == 1 && Res(p, Mul(a, s)) == Res(p, Mul(-1, t))
    ensures Res(p, t) == Res(p, v)
  {
    hide Res;
    ResRes(p, 0);
    ResRes(p, 1);
    ResMul(p, a, a, w * v + s, 0);
    ResMul(p, a * w, 1, v, v);
    assert a * (w * v + s) == (a * w) * v + a * s && a * 0 == 0 && 1 * v == v;
    ResAdd(p, (a * w) * v, v, a * s, -t);
    assert v + -t == v - t;
    EqualResidues(p, v, t);
  }

  /**
   Interpolation at zero recovers the constant term of any polynomial that fits the points and has at most as many
   coefficients as there are points.
   */
  lemma InterpolationRecovers(p: nat, xs: seq<int>, ys: seq<int>, c: seq<int>)
    requires Prime(p) && Distinct(p, xs) && Nonzero(p, xs) && |xs| == |ys| && Fits(p, xs, ys, c) && 1 <= |c| <= |xs|
    ensures Res(p, AtZero(p, xs, ys)) == Res(p, Eval(c, 0)) == Res(p, c[0])
  {
    hide Res, Prime, Distinct, Nonzero, Fits, Eval, Weight, ZeroTail, AtZero, Values, Negated, Dot, Mul;
    ConstantTerm(p, c);
    DividedWithZero(p, xs, c);
    WeightAtZero(p, xs);
    TailMatches(p, xs, Values(c, xs));
    HeadMatches(p, Negated(xs), Weight(p, xs, 0), Eval(c, 0), Dot(ZeroTail(p, xs), Values(c, xs)),
                AtZero(p, xs, Values(c, xs)));
    SameValues(p, xs, ys, c);
  }

  lemma ConstantTerm(p: nat, c: seq<int>)
    requires Prime(p) && c != []
    ensures p > 0 && Eval(c, 0) == c[0]
  {}

  /** Zero and the points are one more point than the polynomial has coefficients. */
  lemma DividedWithZero(p: nat, xs: seq<int>, c: seq<int>)
    requires Prime(p) && Distinct(p, xs) && Nonzero(p, xs) && |c| <= |xs|
    ensures Res(p, Mul(Weight(p, xs, 0), Eval(c, 0)) + Dot(ZeroTail(p, xs), Values(c, xs))) == 0
  {
    assert p > 0;
    DistinctWithZero(p, xs);
    hide Mul, Res, Prime, Distinct, Nonzero, Eval, Dot;
    DividedPolynomial(p, [0] + xs, c);
    ResRes(p, 0);
    ZeroWeight(p, xs);
    ValuesCons(c, 0, xs);
    hide Values, Weights;
    DotHead(Weights(p, [0] + xs), Values(c, [0] + xs));
  }

  lemma ValuesCons(c: seq<int>, x: int, xs: seq<int>)
    ensures Values(c, [x] + xs)[0] == Eval(c, x) && Values(c, [x] + xs)[1..] == Values(c, xs)
  {
    hide Eval;
  }

  lemma DotHead(a: seq<int>, b: seq<int>)
    requires |a| == |b| > 0
    ensures Dot(a, b) == Mul(a[0], b[0]) + Dot(a[1..], b[1..])
  {
    hide Dot;
    DotCons(a[0], a[1..], b[0], b[1..]);
    assert a == [a[0]] + a[1..] && b == [b[0]] + b[1..];
  }

  lemma ZeroWeight(p: nat, xs: seq<int>)
    requires Prime(p)
    ensures Weights(p, [0] + xs)[0] == Weight(p, xs, 0)
  {
    assert Factor(p, 0, 0) == 1 by {
      assert 0 - 0 == 0;
      ResRes(p, 0);
    }
    hide Factor, Weight, Prime;
    WeightCons(p, 0, xs, 0);
  }

  /** Any two quorums agree: the points need not be the same, and only the polynomial counts. */
  lemma QuorumsAgree(p: nat, xs: seq<int>, ys: seq<int>, xs': seq<int>, ys': seq<int>, c: seq<int>)
    requires Prime(p) && Distinct(p, xs) && Nonzero(p, xs) && |xs| == |ys| && Fits(p, xs, ys, c) && 1 <= |c| <= |xs|
    requires Distinct(p, xs') && Nonzero(p, xs') && |xs'| == |ys'| && Fits(p, xs', ys', c) && |c| <= |xs'|
    ensures Res(p, AtZero(p, xs, ys)) == Res(p, AtZero(p, xs', ys'))
  {
    hide Prime, Distinct, Nonzero, Fits, AtZero;
    InterpolationRecovers(p, xs, ys, c);
    InterpolationRecovers(p, xs', ys', c);
  }

  lemma RatioRound(p: nat, r: int, c: int, prod: int)
    requires p > 0 && prod == Res(p, c)
    ensures Res(p, Res(p, r) * prod) == Res(p, r * c)
  {
    hide Res;
    ResRes(p, r);
    ResRes(p, c);
    ResMul(p, Res(p, r), r, prod, c);
  }

  lemma CoefficientStep(p: nat, xs: seq<int>, x: int, m: nat)
    requires Prime(p) && m < |xs|
    ensures Coefficient(p, xs[..m + 1], x) == Ratio(p, x, xs[m]) * Coefficient(p, xs[..m], x)
  {
    assert xs[..m + 1][..m] == xs[..m];
  }

  lemma Same(p: nat, xs: seq<int>, j: nat, m: nat)
    requires p > 0 && Distinct(p, xs) && j < |xs| && m < |xs|
    ensures Res(p, xs[m] - xs[j]) == 0 <==> m == j
  {
    SelfZero(p, xs[j]);
    hide Res;
    if m > j {
      NegNonzero(p, xs[m], xs[j]);
    }
  }

  /** The inner loop of lagrange_interpolation: the coefficient of point j. */
  method BasisAtZero(p: nat, xs: seq<int>, j: nat) returns (prod: int)
    requires Prime(p) && Distinct(p, xs) && j < |xs|
    ensures prod == Res(p, Coefficient(p, xs, xs[j]))
  {
    assert p >= 2;
    var xj := xs[j];
    prod := 1;
    ResRes(p, 1);
    assert Coefficient(p, xs[..0], xj) == 1;
    hide Res, Prime, Inv, Coefficient, Distinct;
    for m := 0 to |xs|
      invariant prod == Res(p, Coefficient(p, xs[..m], xj))
    {
      Same(p, xs, j, m);
      CoefficientStep(p, xs, xj, m);
      if m != j {
        var xm := xs[m];
        RatioRound(p, xm * Inv(p, xm - xj), Coefficient(p, xs[..m], xj), prod);
        prod := Res(p, Res(p, xm * Inv(p, xm - xj)) * prod);
      }
    }
    assert xs[..|xs|] == xs;
  }

  lemma SumRound(p: nat, sum: int, s: int, prod: int, c: int, y: int)
    requires p > 0 && sum == Res(p, s) && prod == Res(p, c)
    ensures Res(p, sum + Res(p, prod * y)) == Res(p, s + c * y)
  {
    hide Res;
    ResRes(p, s);
    ResRes(p, c);
    ResMul(p, prod, c, y, y);
    ResRes(p, c * y);
    ResAdd(p, sum, s, Res(p, prod * y), c * y);
  }

  /** The outer loop: the sum over all points. */
  method SumAtZero(p: nat, xs: seq<int>, ys: seq<int>) returns (sum: int)
    requires Prime(p) && Distinct(p, xs) && |xs| == |ys|
    ensures sum == Res(p, AtZero(p, xs, ys))
  {
    assert p > 0;
    ghost var cs := Coefficients(p, xs);
    sum := 0;
    assert Dot(cs[..0], ys[..0]) == 0;
    hide Res, Prime, Distinct, Dot, Coefficient;
    ResRes(p, 0);
    for j := 0 to |xs|
      invariant sum == Res(p, Dot(cs[..j], ys[..j]))
    {
      var prod := BasisAtZero(p, xs, j);
      DotStep(cs, ys, j);
      SumRound(p, sum, Dot(cs[..j], ys[..j]), prod, cs[j], ys[j]);
      sum := Res(p, sum + Res(p, prod * ys[j]));
    }
    assert cs[..|xs|] == cs && ys[..|xs|] == ys;
  }

  /**
   lagrange_interpolation over the first degree + 1 of the given points. None is the source's exception for too few
   evaluations, and that of at for too few points.
   */
  method LagrangeInterpolation(p: nat, degree: nat, evals: seq<int>, points: seq<int>) returns (r: Option<int>)
    requires Prime(p)
    requires |evals| > degree ==> Distinct(p, if |points| > degree then points[..degree + 1] else points)
    ensures r == if |evals| <= degree || |points| <= degree then None
                 else Some(Res(p, AtZero(p, points[..degree + 1], evals[..degree + 1])))
  {
    if |evals| < degree + 1 {
      return None;
    }
    if |points| < degree + 1 {
      return None;
    }
    var sum := SumAtZero(p, points[..degree + 1], evals[..degree + 1]);
    r := Some(sum);
  }

  /** lagrange_interpolation over the points 1, 2, .., degree + 1. */
  method LagrangeOneTo(p: nat, degree: nat, evaluations: seq<int>) returns (r: Option<int>)
    requires Prime(p) && degree < p
    ensures r == if |evaluations| <= degree then None
                 else Some(Res(p, AtZero(p, OneTo(degree + 1), evaluations[..degree + 1])))
  {
    if |evaluations| < degree + 1 {
      return None;
    }
    OneToDistinct(p, degree + 1);
    var sum := SumAtZero(p, OneTo(degree + 1), evaluations[..degree + 1]);
    r := Some(sum);
  }
}
