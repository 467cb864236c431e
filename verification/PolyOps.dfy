/** Polynomials over Fr as PolyOps does them: Horner evaluation, the degree test, and Lagrange interpolation at zero. */
module PolyOps {
  import opened Field
  import opened Polynomials
  import opened DividedDifference

  /** The values of q at the points times the values given there. */
  function Terms(q: seq<int>, xs: seq<int>, ys: seq<int>): (r: seq<int>)
    requires |xs| == |ys|
    ensures |r| == |xs|
    ensures forall i :: 0 <= i < |xs| ==> r[i] == Eval(q, xs[i]) * ys[i]
  {
    seq(|xs|, i requires 0 <= i < |xs| => Eval(q, xs[i]) * ys[i])
  }

  /** The sum the degree test computes when the polynomial q has been drawn. */
  function TestSum(p: nat, xs: seq<int>, ys: seq<int>, q: seq<int>): int
    requires Prime(p) && |xs| == |ys|
  {
    Divided(p, xs, Terms(q, xs, ys))
  }

  ghost predicate Fits(p: nat, xs: seq<int>, ys: seq<int>, c: seq<int>)
    requires p > 0 && |xs| == |ys|
  {
    forall i :: 0 <= i < |xs| ==> Res(p, ys[i]) == Res(p, Eval(c, xs[i]))
  }

  /** The values lie on a polynomial of degree at most d. */
  ghost predicate OfDegree(p: nat, xs: seq<int>, ys: seq<int>, d: nat)
    requires p > 0 && |xs| == |ys|
  {
    exists c :: |c| == d + 1 && Fits(p, xs, ys, c)
  }

  ghost predicate Passes(p: nat, xs: seq<int>, ys: seq<int>, q: seq<int>)
    requires Prime(p) && |xs| == |ys|
  {
    Res(p, TestSum(p, xs, ys, q)) == 0
  }

  lemma TermOfProduct(p: nat, w: int, q: seq<int>, c: seq<int>, x: int, y: int)
    requires p > 0 && q != [] && c != [] && Res(p, y) == Res(p, Eval(c, x))
    ensures Product(p, w, Eval(q, x) * y) == Product(p, w, Eval(Times(q, c), x))
  {
    hide Res, Eval, Times;
    EvalTimes(q, c, x);
    ResMul(p, Eval(q, x), Eval(q, x), y, Eval(c, x));
    ResMul(p, w, w, Eval(q, x) * y, Eval(q, x) * Eval(c, x));
  }

  /** Values on a polynomial of degree d pass the test, whatever polynomial is drawn. */
  lemma LowDegreePasses(p: nat, xs: seq<int>, ys: seq<int>, c: seq<int>, q: seq<int>)
    requires Prime(p) && Distinct(p, xs) && |xs| == |ys| && Fits(p, xs, ys, c)
    requires c != [] && q != [] && |q| + |c| <= |xs|
    ensures Passes(p, xs, ys, q)
  {
    assert p > 0;
    hide Res, Prime, Distinct, Eval, Times, Dot, Weights, Product;
    var ws, a, b := Weights(p, xs), Terms(q, xs, ys), Values(Times(q, c), xs);
    forall i | 0 <= i < |xs|
      ensures Product(p, ws[i], a[i]) == Product(p, ws[i], b[i])
    {
      TermOfProduct(p, ws[i], q, c, xs[i], ys[i]);
    }
    DotRes(p, ws, a, ws, b);
    DividedPolynomial(p, xs, Times(q, c));
    ResRes(p, 0);
  }

  lemma FactorNonzero(p: nat, x: int, y: int)
    requires Prime(p)
    ensures Res(p, Factor(p, x, y)) != 0
  {
    if Res(p, x - y) == 0 {
      hide Res, Inv;
      ResRes(p, 1);
    } else {
      hide Res, Inv;
      InvInverts(p, x - y);
      ResRes(p, 0);
      if Res(p, Inv(p, x - y)) == 0 {
        ResMul(p, x - y, x - y, Inv(p, x - y), 0);
      }
    }
  }

  lemma {:induction false} WeightNonzero(p: nat, xs: seq<int>, x: int)
    requires Prime(p)
    ensures Res(p, Weight(p, xs, x)) != 0
  {
    assert p >= 2;
    hide Res, Prime, Factor;
    if xs == [] {
      ResRes(p, 1);
    } else {
      var n := |xs| - 1;
      var w, f := Weight(p, xs[..n], x), Factor(p, x, xs[n]);
      WeightNonzero(p, xs[..n], x);
      FactorNonzero(p, x, xs[n]);
      if Res(p, w * f) == 0 {
        NoZeroDivisors(p, w, f);
      }
    }
  }

  /** The polynomial that vanishes at all points from d on, except at point m. */
  function Probe(xs: seq<int>, d: nat, m: nat): (q: seq<int>)
    requires d <= m < |xs|
    ensures |q| == |xs| - d
  {
    FromRoots(xs[d..m] + xs[m + 1..])
  }

  lemma ProbeAt(p: nat, xs: seq<int>, d: nat, m: nat, i: nat)
    requires Prime(p) && Distinct(p, xs) && d <= m < |xs| && d <= i < |xs|
    ensures Res(p, Eval(Probe(xs, d, m), xs[i])) == 0 <==> i != m
  {
    var rs := xs[d..m] + xs[m + 1..];
    hide Res, Eval, FromRoots, Prime;
    PrimePositive(p);
    RootsVanish(p, rs, xs[i]);
    if i != m {
      var k := if i < m then i - d else i - d - 1;
      assert rs[k] == xs[i] && xs[i] - rs[k] == 0;
      ResRes(p, 0);
    } else {
      forall k | 0 <= k < |rs|
        ensures Res(p, xs[m] - rs[k]) != 0
      {
        var j := if k < m - d then k + d else k + d + 1;
        assert rs[k] == xs[j];
        NegNonzero(p, xs[m], xs[j]);
      }
    }
  }

  /** The values minus those of c. */
  function Residuals(xs: seq<int>, ys: seq<int>, c: seq<int>): (r: seq<int>)
    requires |xs| == |ys|
    ensures |r| == |xs| && forall i :: 0 <= i < |xs| ==> r[i] == ys[i] - Eval(c, xs[i])
  {
    seq(|xs|, i requires 0 <= i < |xs| => ys[i] - Eval(c, xs[i]))
  }

  /** What is left after taking away a polynomial of degree d still passes every test that the values pass. */
  lemma ResidualPasses(p: nat, xs: seq<int>, ys: seq<int>, c: seq<int>, q: seq<int>)
    requires Prime(p) && Distinct(p, xs) && |xs| == |ys| && c != [] && q != [] && |q| + |c| <= |xs|
    requires Passes(p, xs, ys, q)
    ensures Passes(p, xs, Residuals(xs, ys, c), q)
  {
    assert p > 0;
    hide Res, Prime, Distinct, Eval, Divided;
    var vs, rs := Values(c, xs), Residuals(xs, ys, c);
    LowDegreePasses(p, xs, vs, c, q);
    TermsSplit(xs, ys, c, q);
    DividedLinear(p, xs, 1, Terms(q, xs, vs), 1, Terms(q, xs, rs), Terms(q, xs, ys));
    SubtractZero(p, TestSum(p, xs, ys, q), TestSum(p, xs, vs, q), TestSum(p, xs, rs, q));
  }

  lemma SubtractZero(p: nat, s: int, a: int, b: int)
    requires p > 0 && s == 1 * a + 1 * b && Res(p, s) == 0 && Res(p, a) == 0
    ensures Res(p, b) == 0
  {
    hide Res;
    ResRes(p, 0);
    ResAdd(p, s, 0, a, 0);
    assert b == s - a;
  }

  lemma TermsSplit(xs: seq<int>, ys: seq<int>, c: seq<int>, q: seq<int>)
    requires |xs| == |ys|
    ensures var vs, rs := Values(c, xs), Residuals(xs, ys, c);
      forall i :: 0 <= i < |xs| ==> Terms(q, xs, ys)[i] == 1 * Terms(q, xs, vs)[i] + 1 * Terms(q, xs, rs)[i]
  {
    hide Eval;
    var vs, rs := Values(c, xs), Residuals(xs, ys, c);
    forall i | 0 <= i < |xs|
      ensures Terms(q, xs, ys)[i] == 1 * Terms(q, xs, vs)[i] + 1 * Terms(q, xs, rs)[i]
    {
      var e := Eval(q, xs[i]);
      assert e * ys[i] == e * vs[i] + e * rs[i];
    }
  }

  lemma ZeroProduct(p: nat, w: int, e: int, r: int)
    requires p > 0 && (Res(p, e) == 0 || Res(p, r) == 0)
    ensures Product(p, w, e * r) == 0
  {
    hide Res;
    ResRes(p, 0);
    ResMul(p, e, if Res(p, e) == 0 then 0 else e, r, if Res(p, r) == 0 then 0 else r);
    ResMul(p, w, w, e * r, 0);
  }

  lemma NonzeroProduct(p: nat, w: int, e: int, r: int)
    requires Prime(p) && Res(p, w) != 0 && Res(p, e) != 0 && Product(p, w, e * r) == 0
    ensures Res(p, r) == 0
  {
    hide Res;
    NoZeroDivisors(p, w, e * r);
    NoZeroDivisors(p, e, r);
  }

  /** A probe that passes shows that the residual at its point is zero. */
  lemma ProbePasses(p: nat, xs: seq<int>, rs: seq<int>, d: nat, m: nat)
    requires Prime(p) && Distinct(p, xs) && |xs| == |rs| && d <= m < |xs|
    requires forall i :: 0 <= i < d ==> Res(p, rs[i]) == 0
    requires Passes(p, xs, rs, Probe(xs, d, m))
    ensures Res(p, rs[m]) == 0
  {
    assert p > 0;
    hide Res, Prime, Distinct, Eval, Dot, Weights, Product, Probe;
    var q, ws := Probe(xs, d, m), Weights(p, xs);
    forall i | 0 <= i < |xs| && i != m
      ensures Product(p, ws[i], Terms(q, xs, rs)[i]) == 0
    {
      if i >= d {
        ProbeAt(p, xs, d, m, i);
      }
      ZeroProduct(p, ws[i], Eval(q, xs[i]), rs[i]);
    }
    DotOne(p, ws, Terms(q, xs, rs), m);
    ProbeAt(p, xs, d, m, m);
    WeightNonzero(p, xs, xs[m]);
    assert Product(p, ws[m], Eval(q, xs[m]) * rs[m]) == 0;
    NonzeroProduct(p, ws[m], Eval(q, xs[m]), rs[m]);
  }

  ghost predicate PassesAll(p: nat, xs: seq<int>, ys: seq<int>, d: nat)
    requires Prime(p) && |xs| == |ys| && |xs| >= d + 2
  {
    forall q :: |q| == |xs| - d - 1 ==> Passes(p, xs, ys, q)
  }

  lemma EqualResidues(p: nat, a: int, b: int)
    requires p > 0
    ensures Res(p, a - b) == 0 <==> Res(p, a) == Res(p, b)
  {
    hide Res;
    ResRes(p, 0);
    assert b - b == 0 && (a - b) + b == a && 0 + b == b;
    if Res(p, a) == Res(p, b) {
      ResAdd(p, a, b, b, b);
    }
    if Res(p, a - b) == 0 {
      ResAdd(p, a - b, 0, b, b);
    }
  }

  lemma FirstFit(p: nat, xs: seq<int>, ys: seq<int>, n: nat, i: nat)
    requires Prime(p) && Distinct(p, xs) && |xs| == |ys| && i < n <= |xs|
    ensures Res(p, Eval(Interpolate(p, xs[..n], ys[..n]), xs[i])) == Res(p, ys[i])
  {
    assert Distinct(p, xs[..n]);
    hide Res, Prime, Distinct, Eval, Interpolate;
    InterpolateFits(p, xs[..n], ys[..n], i);
  }

  lemma OtherFit(p: nat, xs: seq<int>, ys: seq<int>, c: seq<int>, d: nat, m: nat)
    requires Prime(p) && Distinct(p, xs) && |xs| == |ys| && d + 1 <= m < |xs| && PassesAll(p, xs, ys, d)
    requires |c| == d + 1 && forall i :: 0 <= i < d + 1 ==> Res(p, Residuals(xs, ys, c)[i]) == 0
    ensures Res(p, Residuals(xs, ys, c)[m]) == 0
  {
    hide Res, Prime, Distinct, Eval, Passes;
    var q := Probe(xs, d + 1, m);
    assert Passes(p, xs, ys, q);
    ResidualPasses(p, xs, ys, c, q);
    ProbePasses(p, xs, Residuals(xs, ys, c), d + 1, m);
  }

  lemma FirstVanish(p: nat, xs: seq<int>, ys: seq<int>, d: nat, c: seq<int>)
    requires Prime(p) && Distinct(p, xs) && d + 1 <= |xs| == |ys| && c == Interpolate(p, xs[..d + 1], ys[..d + 1])
    ensures forall i :: 0 <= i < d + 1 ==> Res(p, Residuals(xs, ys, c)[i]) == 0
  {
    PrimePositive(p);
    hide Res, Prime, Distinct, Eval, Interpolate;
    forall i | 0 <= i < d + 1
      ensures Res(p, Residuals(xs, ys, c)[i]) == 0
    {
      FirstFit(p, xs, ys, d + 1, i);
      EqualResidues(p, ys[i], Eval(c, xs[i]));
    }
  }

  /** The first d + 1 values determine a polynomial; the probes show that all others lie on it too. */
  lemma PassingFits(p: nat, xs: seq<int>, ys: seq<int>, d: nat) returns (c: seq<int>)
    requires Prime(p) && Distinct(p, xs) && |xs| == |ys| && |xs| >= d + 2 && PassesAll(p, xs, ys, d)
    ensures |c| == d + 1 && Fits(p, xs, ys, c)
  {
    PrimePositive(p);
    hide Res, Prime, Distinct, Eval, PassesAll, Interpolate, Residuals, Fits;
    c := Interpolate(p, xs[..d + 1], ys[..d + 1]);
    FirstVanish(p, xs, ys, d, c);
    forall i | d + 1 <= i < |xs|
      ensures Res(p, Residuals(xs, ys, c)[i]) == 0
    {
      OtherFit(p, xs, ys, c, d, i);
    }
    NoResiduals(p, xs, ys, c);
  }

  lemma NoResiduals(p: nat, xs: seq<int>, ys: seq<int>, c: seq<int>)
    requires p > 0 && |xs| == |ys| && forall i :: 0 <= i < |xs| ==> Res(p, Residuals(xs, ys, c)[i]) == 0
    ensures Fits(p, xs, ys, c)
  {
    hide Res, Eval;
    forall i | 0 <= i < |xs|
      ensures Res(p, ys[i]) == Res(p, Eval(c, xs[i]))
    {
      assert Res(p, Residuals(xs, ys, c)[i]) == 0;
      EqualResidues(p, ys[i], Eval(c, xs[i]));
    }
  }

  /** The degree test passes for every polynomial that can be drawn exactly when the values have degree at most d. */
  lemma DegreeTest(p: nat, xs: seq<int>, ys: seq<int>, d: nat)
    requires Prime(p) && Distinct(p, xs) && |xs| == |ys| && |xs| >= d + 2
    ensures PassesAll(p, xs, ys, d) <==> OfDegree(p, xs, ys, d)
  {
    assert p > 0;
    hide Fits, Passes, Distinct, Prime;
    if PassesAll(p, xs, ys, d) {
      var c := PassingFits(p, xs, ys, d);
    }
    if OfDegree(p, xs, ys, d) {
      var c :| |c| == d + 1 && Fits(p, xs, ys, c);
      forall q: seq<int> | |q| == |xs| - d - 1
        ensures Passes(p, xs, ys, q)
      {
        LowDegreePasses(p, xs, ys, c, q);
      }
    }
  }

  /** 1, 2, .., n */
  function OneTo(n: nat): (xs: seq<int>)
    ensures |xs| == n && forall i :: 0 <= i < n ==> xs[i] == i + 1
  {
    seq(n, i => i + 1)
  }

  lemma SmallNonzero(p: nat, a: int)
    requires p > 0 && 0 < a + p && a < p && a != 0
    ensures Res(p, a) != 0
  {
    hide Res;
    if a > 0 {
      ResRes(p, a);
    } else {
      ResRes(p, -a);
      NegNonzero(p, a, 0);
      assert a - 0 == a && 0 - a == -a;
    }
  }

  lemma OneToDistinct(p: nat, n: nat)
    requires p > 0 && n <= p
    ensures Distinct(p, OneTo(n))
  {
    hide Res;
    var xs := OneTo(n);
    forall i, j | 0 <= i < j < n
      ensures Res(p, xs[i] - xs[j]) != 0
    {
      SmallNonzero(p, xs[i] - xs[j]);
    }
  }

  lemma EvalSnoc(c: seq<int>, k: nat, x: int)
    requires k < |c|
    ensures Eval(c[k..], x) == Eval(c[k + 1..], x) * x + c[k]
  {
    assert c[k..][1..] == c[k + 1..];
  }

  /** evaluate: Horner's rule. */
  method Evaluate(p: nat, coeffs: seq<int>, point: int) returns (result: int)
    requires p > 0
    ensures result == Res(p, Eval(coeffs, point))
  {
    hide Res;
    result := 0;
    var degree := |coeffs|;
    ResRes(p, 0);
    assert Eval(coeffs[degree..], point) == 0;
    for i := 1 to degree + 1
      invariant result == Res(p, Eval(coeffs[degree - i + 1..], point))
    {
      ghost var high := Eval(coeffs[degree - i + 1..], point);
      EvalSnoc(coeffs, degree - i, point);
      ResRes(p, high);
      ResMul(p, result, high, point, point);
      ResAdd(p, result * point, high * point, coeffs[degree - i], coeffs[degree - i]);
      result := Res(p, result * point + coeffs[degree - i]);
    }
    assert coeffs[0..] == coeffs;
  }

  lemma WeightStep(p: nat, xs: seq<int>, x: int, j: nat)
    requires Prime(p) && j < |xs|
    ensures Weight(p, xs[..j + 1], x) == Weight(p, xs[..j], x) * Factor(p, x, xs[j])
  {
    assert xs[..j + 1] == xs[..j] + [xs[j]];
    WeightSnoc(p, xs[..j], xs[j], x);
  }

  lemma MultiplyOn(p: nat, v: int, w: int, c: int, f: int)
    requires p > 0 && c == Product(p, v, w)
    ensures Res(p, c * f) == Product(p, v, w * f) && Product(p, v, w * 1) == c
  {
    hide Res;
    ResRes(p, v * w);
    ResMul(p, c, v * w, f, f);
    assert (v * w) * f == v * (w * f) && w * 1 == w;
  }

  lemma WeightRound(p: nat, value: int, w: int, cperp: int, x: int, y: int)
    requires Prime(p) && cperp == Product(p, value, w)
    ensures Product(p, value, w * Factor(p, x, y))
         == if Res(p, x - y) == 0 then cperp else Res(p, cperp * Inv(p, x - y))
  {
    assert p > 0;
    hide Res, Inv, Prime, Product;
    MultiplyOn(p, value, w, cperp, Factor(p, x, y));
  }

  lemma PointsApart(p: nat, i: int, j: int)
    requires p > 0 && 1 <= i <= p && 1 <= j <= p
    ensures Res(p, i - j) == 0 <==> i == j
  {
    hide Res;
    ResRes(p, 0);
    if i != j {
      SmallNonzero(p, i - j);
    }
  }

  /** The inner loop of ensure_degree: from the value of the drawn polynomial at point i to its weighted value. */
  method WeightedValue(p: nat, num: nat, i: nat, value: int) returns (cperp: int)
    requires Prime(p) && 1 <= i <= num <= p
    ensures cperp == Product(p, value, Weight(p, OneTo(num), i))
  {
    assert p > 0;
    ghost var xs := OneTo(num);
    assert xs[..0] == [] && value * 1 == value;
    cperp := Res(p, value);
    assert cperp == Product(p, value, Weight(p, xs[..0], i));
    hide Res, Prime, Weight, Inv, Product, Factor;
    for j := 1 to num + 1
      invariant cperp == Product(p, value, Weight(p, xs[..j - 1], i))
    {
      WeightStep(p, xs, i, j - 1);
      PointsApart(p, i, j);
      WeightRound(p, value, Weight(p, xs[..j - 1], i), cperp, i, j);
      if i != j {
        cperp := Res(p, cperp * Inv(p, i - j));
      }
    }
    assert xs[..num] == xs;
  }

  lemma DotStep(a: seq<int>, b: seq<int>, i: nat)
    requires i < |a| == |b|
    ensures Dot(a[..i + 1], b[..i + 1]) == Dot(a[..i], b[..i]) + a[i] * b[i]
  {
    assert a[..i + 1] == a[..i] + [a[i]] && b[..i + 1] == b[..i] + [b[i]];
    DotSnoc(a[..i], a[i], b[..i], b[i]);
  }

  lemma TermStep(p: nat, e: int, w: int, cperp: int, g: int)
    requires p > 0 && cperp == Product(p, Res(p, e), w)
    ensures Res(p, cperp * g) == Res(p, w * (e * g))
  {
    hide Res;
    ResRes(p, e);
    ResMul(p, Res(p, e), e, w, w);
    ResRes(p, Res(p, e) * w);
    ResMul(p, cperp, e * w, g, g);
    assert (e * w) * g == w * (e * g);
  }

  /**
   ensure_degree, with the polynomial it draws as a parameter. The source subtracts degree + 2 from the number of
   evaluations without a check, so there must be that many unless there are fewer than degree.
   */
  method EnsureDegree(p: nat, evaluations: seq<int>, degree: nat, poly: seq<int>) returns (ok: bool)
    requires Prime(p) && |evaluations| <= p
    requires |evaluations| < degree || (|evaluations| >= degree + 2 && |poly| == |evaluations| - degree - 1)
    ensures ok <==> |evaluations| >= degree && Passes(p, OneTo(|evaluations|), evaluations, poly)
  {
    var num := |evaluations|;
    if num < degree {
      return false;
    }
    PrimePositive(p);
    hide Res, Prime, Eval, Weight, Product, Dot, TestSoFar;
    var v := 0;
    NothingTested(p, poly, evaluations);
    for i := 1 to num + 1
      invariant v == TestSoFar(p, poly, evaluations, i - 1)
    {
      var value := Evaluate(p, poly, i);
      var cperp := WeightedValue(p, num, i, value);
      TestRound(p, poly, evaluations, i, v, cperp);
      v := Res(p, v + cperp * evaluations[i - 1]);
    }
    AllTested(p, poly, evaluations);
    ok := v == 0;
  }

  /** The sum of ensure_degree after the first n evaluations. */
  ghost function TestSoFar(p: nat, poly: seq<int>, evaluations: seq<int>, n: nat): int
    requires Prime(p) && n <= |evaluations|
  {
    var xs := OneTo(|evaluations|);
    Res(p, Dot(Weights(p, xs)[..n], Terms(poly, xs, evaluations)[..n]))
  }

  lemma NothingTested(p: nat, poly: seq<int>, evaluations: seq<int>)
    requires Prime(p)
    ensures TestSoFar(p, poly, evaluations, 0) == 0
  {
    PrimePositive(p);
    hide Prime, Res, Weight, Eval;
    ResRes(p, 0);
  }

  lemma AllTested(p: nat, poly: seq<int>, evaluations: seq<int>)
    requires Prime(p)
    ensures TestSoFar(p, poly, evaluations, |evaluations|)
         == Res(p, TestSum(p, OneTo(|evaluations|), evaluations, poly))
  {
    hide Prime, Res, Weight, Eval, Dot;
    var xs := OneTo(|evaluations|);
    var ts := Terms(poly, xs, evaluations);
    assert Weights(p, xs)[..|xs|] == Weights(p, xs) && ts[..|xs|] == ts;
  }

  lemma TestRound(p: nat, poly: seq<int>, evaluations: seq<int>, i: nat, v: int, cperp: int)
    requires Prime(p) && 1 <= i <= |evaluations| && v == TestSoFar(p, poly, evaluations, i - 1)
    requires cperp == Product(p, Res(p, Eval(poly, i)), Weight(p, OneTo(|evaluations|), i))
    ensures Res(p, v + cperp * evaluations[i - 1]) == TestSoFar(p, poly, evaluations, i)
  {
    PrimePositive(p);
    hide Prime, Res, Weight, Eval, Dot, Product;
    var xs, g := OneTo(|evaluations|), evaluations[i - 1];
    var ws, ts := Weights(p, xs), Terms(poly, xs, evaluations);
    assert xs[i - 1] == i;
    DotStep(ws, ts, i - 1);
    TermStep(p, Eval(poly, i), ws[i - 1], cperp, g);
    ResRes(p, Dot(ws[..i - 1], ts[..i - 1]));
    ResAdd(p, v, Dot(ws[..i - 1], ts[..i - 1]), cperp * g, ws[i - 1] * ts[i - 1]);
  }
}
