/** Polynomials over the integers, lowest coefficient first, and divided differences over the prime field. */
module Polynomials {
  import opened Field

  function Eval(c: seq<int>, x: int): int {
    if c == [] then 0 else c[0] + x * Eval(c[1..], x)
  }

  function Scale(k: int, c: seq<int>): (r: seq<int>)
    ensures |r| == |c|
  {
    if c == [] then [] else [k * c[0]] + Scale(k, c[1..])
  }

  function Plus(c: seq<int>, d: seq<int>): (r: seq<int>)
    ensures |r| == if |c| < |d| then |d| else |c|
  {
    if c == [] then d else if d == [] then c else [c[0] + d[0]] + Plus(c[1..], d[1..])
  }

  function Times(c: seq<int>, d: seq<int>): (r: seq<int>)
    requires c != [] && d != []
    ensures |r| == |c| + |d| - 1
  {
    if |c| == 1 then Scale(c[0], d) else Plus(Scale(c[0], d), [0] + Times(c[1..], d))
  }

  lemma {:induction false} EvalScale(k: int, c: seq<int>, x: int)
    ensures Eval(Scale(k, c), x) == k * Eval(c, x)
  {
    if c != [] {
      EvalScale(k, c[1..], x);
      var r := Eval(c[1..], x);
      assert k * (c[0] + x * r) == k * c[0] + x * (k * r);
    }
  }

  lemma {:induction false} EvalPlus(c: seq<int>, d: seq<int>, x: int)
    ensures Eval(Plus(c, d), x) == Eval(c, x) + Eval(d, x)
  {
    if c != [] && d != [] {
      EvalPlus(c[1..], d[1..], x);
      var r, s := Eval(c[1..], x), Eval(d[1..], x);
      assert x * (r + s) == x * r + x * s;
    }
  }

  lemma TimesStep(c: int, x: int, r: int, s: int)
    ensures c * s + x * (r * s) == (c + x * r) * s
  {
    assert x * (r * s) == (x * r) * s;
  }

  lemma {:induction false} EvalTimes(c: seq<int>, d: seq<int>, x: int)
    requires c != [] && d != []
    ensures Eval(Times(c, d), x) == Eval(c, x) * Eval(d, x)
  {
    EvalScale(c[0], d, x);
    var s := Eval(d, x);
    if |c| == 1 {
      assert Eval(c[1..], x) == 0;
    } else {
      var rest := Times(c[1..], d);
      EvalTimes(c[1..], d, x);
      EvalPlus(Scale(c[0], d), [0] + rest, x);
      assert ([0] + rest)[1..] == rest;
      var r := Eval(c[1..], x);
      TimesStep(c[0], x, r, s);
    }
  }

  /** The quotient by x - a. */
  function Quotient(c: seq<int>, a: int): (r: seq<int>)
    ensures |r| == if c == [] then 0 else |c| - 1
  {
    if |c| <= 1 then [] else [Eval(c[1..], a)] + Quotient(c[1..], a)
  }

  /** The factor theorem: dividing by x - a leaves the value at a. */
  lemma {:induction false} FactorTheorem(c: seq<int>, a: int, x: int)
    ensures Eval(c, x) == Eval(c, a) + (x - a) * Eval(Quotient(c, a), x)
    ensures |c| >= 2 ==> Quotient(c, a)[|c| - 2] == c[|c| - 1]
  {
    if |c| == 1 {
      assert Eval(c[1..], x) == 0;
    } else if |c| > 1 {
      var rest := c[1..];
      FactorTheorem(rest, a, x);
      var v, q := Eval(rest, a), Eval(Quotient(rest, a), x);
      assert ([v] + Quotient(rest, a))[1..] == Quotient(rest, a);
      FactorStep(c[0], v, q, a, x);
      if |c| == 2 {
        assert rest[1..] == [];
      }
    }
  }

  lemma FactorStep(c: int, v: int, q: int, a: int, x: int)
    ensures c + x * (v + (x - a) * q) == (c + a * v) + (x - a) * (v + x * q)
  {
    assert x * (v + (x - a) * q) == x * v + (x - a) * (x * q);
    assert (x - a) * (v + x * q) == (x * v - a * v) + (x - a) * (x * q);
  }

  /** The monic polynomial with the given roots. */
  function FromRoots(rs: seq<int>): (c: seq<int>)
    ensures |c| == |rs| + 1
  {
    if rs == [] then [1] else Times([-rs[0], 1], FromRoots(rs[1..]))
  }

  lemma {:induction false} RootsVanish(p: nat, rs: seq<int>, x: int)
    requires Prime(p)
    ensures Res(p, Eval(FromRoots(rs), x)) == 0 <==> exists i :: 0 <= i < |rs| && Res(p, x - rs[i]) == 0
  {
    hide *;
    PrimePositive(p);
    SmallResidues(p);
    EvalFromRoots(rs, x);
    if rs != [] {
      RootsVanish(p, rs[1..], x);
      ProductVanishes(p, x - rs[0], Eval(FromRoots(rs[1..]), x));
      assert forall i :: 0 < i < |rs| ==> rs[i] == rs[1..][i - 1];
      assert forall i :: 0 <= i < |rs| - 1 ==> rs[1..][i] == rs[i + 1];
    }
  }

  lemma SmallResidues(p: nat)
    requires Prime(p)
    ensures p > 0 && Res(p, 0) == 0 && Res(p, 1) == 1
  {}

  lemma EvalFromRoots(rs: seq<int>, x: int)
    ensures Eval(FromRoots(rs), x) == if rs == [] then 1 else (x - rs[0]) * Eval(FromRoots(rs[1..]), x)
  {
    hide Eval, Times;
    LinearValue(0, x);
    if rs != [] {
      LinearValue(rs[0], x);
      EvalTimes([-rs[0], 1], FromRoots(rs[1..]), x);
    }
  }

  lemma LinearValue(a: int, x: int)
    ensures Eval([1], x) == 1 && Eval([-a, 1], x) == x - a
  {
    assert [-a, 1][1..] == [1] && [1][1..] == [];
    assert Eval([], x) == 0;
  }

  /** A product vanishes exactly when a factor does. */
  lemma ProductVanishes(p: nat, a: int, b: int)
    requires Prime(p)
    ensures p > 0 && (Res(p, a * b) == 0 <==> Res(p, a) == 0 || Res(p, b) == 0)
  {
    hide Res, Prime;
    PrimePositive(p);
    SmallResidues(p);
    if Res(p, a) == 0 {
      ResMul(p, a, 0, b, b);
    } else if Res(p, b) == 0 {
      ResMul(p, a, a, b, 0);
    } else if Res(p, a * b) == 0 {
      NoZeroDivisors(p, a, b);
      assert false;
    }
  }

  /** No two points are the same element. */
  ghost predicate Distinct(p: nat, xs: seq<int>)
    requires p > 0
  {
    forall i, j :: 0 <= i < j < |xs| ==> Res(p, xs[i] - xs[j]) != 0
  }

  function Values(c: seq<int>, xs: seq<int>): (ys: seq<int>)
    ensures |ys| == |xs|
    ensures forall i :: 0 <= i < |xs| ==> ys[i] == Eval(c, xs[i])
  {
    seq(|xs|, i requires 0 <= i < |xs| => Eval(c, xs[i]))
  }

  /** Newton's interpolation: the polynomial through the points. */
  function Interpolate(p: nat, xs: seq<int>, ys: seq<int>): (c: seq<int>)
    requires Prime(p) && |xs| == |ys|
    ensures |c| == |xs|
  {
    if xs == [] then []
    else
      var n := |xs| - 1;
      var c := Interpolate(p, xs[..n], ys[..n]);
      var root := FromRoots(xs[..n]);
      Plus(c, Scale(Correction(p, ys[n], Eval(c, xs[n]), Eval(root, xs[n])), root))
  }

  /** The multiple of r that takes v to y. */
  function Correction(p: nat, y: int, v: int, r: int): int
    requires Prime(p)
  {
    if Res(p, r) == 0 then 0 else (y - v) * Inv(p, r)
  }

  lemma {:induction false} InterpolateFits(p: nat, xs: seq<int>, ys: seq<int>, k: nat)
    requires Prime(p) && |xs| == |ys| && Distinct(p, xs) && k < |xs|
    ensures Res(p, Eval(Interpolate(p, xs, ys), xs[k])) == Res(p, ys[k])
    decreases |xs|
  {
    var n := |xs| - 1;
    var xs', ys' := xs[..n], ys[..n];
    var c, root := Interpolate(p, xs', ys'), FromRoots(xs');
    var r, v := Eval(root, xs[n]), Eval(c, xs[n]);
    var t := Correction(p, ys[n], v, r);
    EvalScale(t, root, xs[k]);
    EvalPlus(c, Scale(t, root), xs[k]);
    assert Interpolate(p, xs, ys) == Plus(c, Scale(t, root));
    hide Interpolate, FromRoots, Plus, Scale, Eval, Correction;
    if k < n {
      InterpolateFits(p, xs', ys', k);
      assert xs'[k] == xs[k];
      hide Distinct;
      VanishesAt(p, xs', k);
      hide Res;
      AddZero(p, Eval(c, xs[k]), t, Eval(root, xs[k]));
    } else {
      DistinctLast(p, xs);
      hide Distinct;
      RootsVanish(p, xs', xs[n]);
      hide Res;
      InterpolateStep(p, v, ys[n], r);
    }
  }

  lemma VanishesAt(p: nat, xs: seq<int>, k: nat)
    requires Prime(p) && k < |xs|
    ensures Res(p, Eval(FromRoots(xs), xs[k])) == 0
  {
    hide Res, Eval, FromRoots;
    assert xs[k] - xs[k] == 0;
    ResRes(p, 0);
    RootsVanish(p, xs, xs[k]);
  }

  lemma AddZero(p: nat, v: int, t: int, w: int)
    requires p > 0 && Res(p, w) == 0
    ensures Res(p, v + t * w) == Res(p, v)
  {
    hide Res;
    ResRes(p, 0);
    ResMul(p, t, t, w, 0);
    ResAdd(p, v, v, t * w, 0);
  }

  lemma DistinctLast(p: nat, xs: seq<int>)
    requires p > 0 && Distinct(p, xs) && xs != []
    ensures var n := |xs| - 1; forall i :: 0 <= i < n ==> Res(p, xs[n] - xs[..n][i]) != 0
  {
    var n := |xs| - 1;
    hide Res;
    assert forall i :: 0 <= i < n ==> xs[..n][i] == xs[i] && Res(p, xs[i] - xs[n]) != 0;
    hide Distinct;
    NonzeroSwap(p, xs[..n], xs[n]);
  }

  lemma NonzeroSwap(p: nat, xs: seq<int>, x: int)
    requires p > 0 && forall i :: 0 <= i < |xs| ==> Res(p, xs[i] - x) != 0
    ensures forall i :: 0 <= i < |xs| ==> Res(p, x - xs[i]) != 0
  {
    forall i | 0 <= i < |xs|
      ensures Res(p, x - xs[i]) != 0
    {
      NegNonzero(p, xs[i], x);
    }
  }

  lemma NegNonzero(p: nat, x: int, y: int)
    requires p > 0
    ensures Res(p, x - y) == 0 <==> Res(p, y - x) == 0
  {
    ResRes(p, 0);
    if Res(p, x - y) == 0 {
      ResAdd(p, 0, 0, x - y, 0);
    }
    if Res(p, y - x) == 0 {
      ResAdd(p, 0, 0, y - x, 0);
    }
  }

  lemma InterpolateStep(p: nat, v: int, y: int, r: int)
    requires Prime(p) && Res(p, r) != 0
    ensures Res(p, v + Correction(p, y, v, r) * r) == Res(p, y)
  {
    hide Res, Inv;
    InvInverts(p, r);
    var i := Inv(p, r);
    assert ((y - v) * i) * r == (y - v) * (r * i);
    ResMul(p, y - v, y - v, r * i, 1);
    ResAdd(p, v, v, ((y - v) * i) * r, y - v);
  }

  /** A product that proofs need not look into. */
  function Mul(a: int, b: int): int {
    a * b
  }

  function Dot(a: seq<int>, b: seq<int>): int
    requires |a| == |b|
  {
    if a == [] then 0 else Dot(a[..|a| - 1], b[..|b| - 1]) + a[|a| - 1] * b[|b| - 1]
  }

  lemma DotSnoc(a: seq<int>, x: int, b: seq<int>, y: int)
    requires |a| == |b|
    ensures Dot(a + [x], b + [y]) == Dot(a, b) + x * y
    ensures y == 0 ==> Dot(a + [x], b + [y]) == Dot(a, b)
  {
    assert (a + [x])[..|a|] == a && (b + [y])[..|b|] == b;
  }

  lemma {:induction false} DotCons(x: int, a: seq<int>, y: int, b: seq<int>)
    requires |a| == |b|
    ensures Dot([x] + a, [y] + b) == x * y + Dot(a, b)
    ensures y == 0 ==> Dot([x] + a, [y] + b) == Dot(a, b)
  {
    if a == [] {
      assert [x] + a == [] + [x] && [y] + b == [] + [y];
      DotSnoc([], x, [], y);
    } else {
      var n := |a| - 1;
      assert [x] + a == ([x] + a[..n]) + [a[n]] && [y] + b == ([y] + b[..n]) + [b[n]];
      DotSnoc([x] + a[..n], a[n], [y] + b[..n], b[n]);
      DotCons(x, a[..n], y, b[..n]);
    }
  }

  /** The element a product stands for. */
  function Product(p: nat, a: int, b: int): int
    requires p > 0
  {
    Res(p, a * b)
  }

  /** Sums of congruent products are congruent. */
  lemma {:induction false} DotRes(p: nat, a: seq<int>, b: seq<int>, a': seq<int>, b': seq<int>)
    requires p > 0 && |a| == |b| == |a'| == |b'|
    requires forall i :: 0 <= i < |a| ==> Product(p, a[i], b[i]) == Product(p, a'[i], b'[i])
    ensures Res(p, Dot(a, b)) == Res(p, Dot(a', b'))
  {
    if a != [] {
      hide Res;
      var n := |a| - 1;
      DotRes(p, a[..n], b[..n], a'[..n], b'[..n]);
      ResAdd(p, Dot(a[..n], b[..n]), Dot(a'[..n], b'[..n]), a[n] * b[n], a'[n] * b'[n]);
    }
  }

  /** A sum with one term that counts. */
  lemma {:induction false} DotOne(p: nat, a: seq<int>, b: seq<int>, k: nat)
    requires p > 0 && k < |a| == |b|
    requires forall i :: 0 <= i < |a| && i != k ==> Product(p, a[i], b[i]) == 0
    ensures Res(p, Dot(a, b)) == Res(p, a[k] * b[k])
  {
    hide Res;
    var n := |a| - 1;
    ResRes(p, 0);
    if k == n {
      DotZero(p, a[..n], b[..n]);
      ResAdd(p, Dot(a[..n], b[..n]), 0, a[n] * b[n], a[n] * b[n]);
    } else {
      DotOne(p, a[..n], b[..n], k);
      ResAdd(p, Dot(a[..n], b[..n]), a[k] * b[k], a[n] * b[n], 0);
    }
  }

  lemma {:induction false} DotZero(p: nat, a: seq<int>, b: seq<int>)
    requires p > 0 && |a| == |b| && forall i :: 0 <= i < |a| ==> Product(p, a[i], b[i]) == 0
    ensures Res(p, Dot(a, b)) == 0
  {
    hide Res;
    ResRes(p, 0);
    if a != [] {
      var n := |a| - 1;
      DotZero(p, a[..n], b[..n]);
      ResAdd(p, Dot(a[..n], b[..n]), 0, a[n] * b[n], 0);
    }
  }

  /** a dot (k b + m c). */
  lemma {:induction false} DotLinear(a: seq<int>, k: int, b: seq<int>, m: int, c: seq<int>, d: seq<int>)
    requires |a| == |b| == |c| == |d|
    requires forall i :: 0 <= i < |a| ==> d[i] == k * b[i] + m * c[i]
    ensures Dot(a, d) == k * Dot(a, b) + m * Dot(a, c)
  {
    if a != [] {
      var n := |a| - 1;
      DotLinear(a[..n], k, b[..n], m, c[..n], d[..n]);
      LinearStep(a[n], k, b[n], m, c[n]);
      assert k * (Dot(a[..n], b[..n]) + a[n] * b[n]) == k * Dot(a[..n], b[..n]) + k * (a[n] * b[n]);
      assert m * (Dot(a[..n], c[..n]) + a[n] * c[n]) == m * Dot(a[..n], c[..n]) + m * (a[n] * c[n]);
    }
  }

  lemma LinearStep(a: int, k: int, b: int, m: int, c: int)
    ensures a * (k * b + m * c) == k * (a * b) + m * (a * c)
  {
    assert a * (k * b + m * c) == a * (k * b) + a * (m * c);
  }
}
