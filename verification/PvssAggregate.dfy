/** Aggregation of sharings, and agreement on the value that any quorum reconstructs from an aggregate. */
module PvssAggregate {
  import opened Field
  import opened Polynomials
  import opened PolyOps
  import opened Lagrange
  import opened Dleq
  import opened Pvss

  function EncSum(pvec: seq<Sharing>, j: nat): int
    requires forall i :: 0 <= i < |pvec| ==> j < |pvec[i].encryptions|
  {
    if pvec == [] then 0 else EncSum(pvec[..|pvec| - 1], j) + pvec[|pvec| - 1].encryptions[j]
  }

  function ComSum(pvec: seq<Sharing>, j: nat): int
    requires forall i :: 0 <= i < |pvec| ==> j < |pvec[i].commitments|
  {
    if pvec == [] then 0 else ComSum(pvec[..|pvec| - 1], j) + pvec[|pvec| - 1].commitments[j]
  }

  function GsSum(ds: seq<Decomposition>): int {
    if ds == [] then 0 else GsSum(ds[..|ds| - 1]) + ds[|ds| - 1].gs
  }

  /** The checks that aggregate makes on its sharings. */
  predicate Sized(pvec: seq<Sharing>, n: nat) {
    forall i :: 0 <= i < |pvec| ==> |pvec[i].encryptions| == |pvec[i].commitments| == |pvec[i].proofs| == n
  }

  /** The aggregate holds the sums of the encryptions and commitments, and all decomposition proofs. */
  ghost predicate Aggregated(p: nat, n: nat, pvec: seq<Sharing>, ids: seq<nat>, agg: Aggregate)
    requires p > 0 && Sized(pvec, n)
  {
    && |agg.encryptions| == |agg.commitments| == n && |agg.decomposition| == |pvec| && agg.ids == ids
    && (forall j :: 0 <= j < n ==> agg.encryptions[j] == Res(p, EncSum(pvec, j)))
    && (forall j :: 0 <= j < n ==> agg.commitments[j] == Res(p, ComSum(pvec, j)))
    && forall i :: 0 <= i < |pvec| ==> agg.decomposition[i] == pvec[i].decomp
  }

  /** An aggregate that comes from one polynomial c of degree f. */
  ghost predicate AggConsistent(s: System, agg: Aggregate, c: seq<int>)
    requires s.Valid()
  {
    && |c| == s.f + 1 && |agg.encryptions| == |agg.commitments| == s.n
    && Fits(s.p, OneTo(s.n), agg.commitments, c)
    && (forall i :: 0 <= i < s.n ==> Paired(s, agg.encryptions, agg.commitments, i))
    && Res(s.p, GsSum(agg.decomposition)) == Res(s.p, c[0])
    && forall i :: 0 <= i < |agg.decomposition| ==>
         Verify(s.p, s.C2, agg.decomposition[i].pi, s.h1, agg.decomposition[i].gs)
  }

  function Zeros(n: nat): (c: seq<int>)
    ensures |c| == n
  {
    if n == 0 then [] else [0] + Zeros(n - 1)
  }

  lemma {:induction false} EvalZeros(n: nat, x: int)
    ensures Eval(Zeros(n), x) == 0
  {
    if n > 0 {
      EvalZeros(n - 1, x);
      assert x * 0 == 0;
    }
  }

  /** The sum of polynomials with n coefficients. */
  function TotalPoly(cs: seq<seq<int>>, n: nat): (c: seq<int>)
    requires forall i :: 0 <= i < |cs| ==> |cs[i]| == n
    ensures |c| == n
  {
    if cs == [] then Zeros(n) else Plus(TotalPoly(cs[..|cs| - 1], n), cs[|cs| - 1])
  }

  ghost predicate AllConsistent(s: System, pvec: seq<Sharing>, cs: seq<seq<int>>)
    requires s.Valid()
  {
    |pvec| == |cs| && Sized(pvec, s.n) && forall i :: 0 <= i < |pvec| ==> Consistent(s, pvec[i], cs[i])
  }

  lemma FrontConsistent(s: System, pvec: seq<Sharing>, cs: seq<seq<int>>)
    requires s.Valid() && AllConsistent(s, pvec, cs)
    ensures forall i :: 0 <= i < |cs| ==> |cs[i]| == s.f + 1
    ensures pvec != [] ==>
      AllConsistent(s, pvec[..|pvec| - 1], cs[..|cs| - 1]) && Consistent(s, pvec[|pvec| - 1], cs[|cs| - 1])
  {}

  lemma {:induction false} ColumnFits(s: System, pvec: seq<Sharing>, cs: seq<seq<int>>, j: nat)
    requires s.Valid() && AllConsistent(s, pvec, cs) && j < s.n
    requires forall i :: 0 <= i < |cs| ==> |cs[i]| == s.f + 1
    ensures Res(s.p, ComSum(pvec, j)) == Res(s.p, Eval(TotalPoly(cs, s.f + 1), j + 1))
    ensures Res(s.p, s.pks[j] * ComSum(pvec, j)) == Res(s.p, EncSum(pvec, j) * s.h1)
  {
    hide Res, Prime, Eval, Verify;
    PositiveModulus(s);
    if pvec == [] {
      EvalZeros(s.f + 1, j + 1);
      assert s.pks[j] * 0 == 0 * s.h1;
    } else {
      FrontConsistent(s, pvec, cs);
      var n := |pvec| - 1;
      var front, last := TotalPoly(cs[..n], s.f + 1), cs[n];
      var com, enc := pvec[n].commitments[j], pvec[n].encryptions[j];
      var com', enc' := ComSum(pvec[..n], j), EncSum(pvec[..n], j);
      ColumnFits(s, pvec[..n], cs[..n], j);
      EvalPlus(front, last, j + 1);
      assert OneTo(s.n)[j] == j + 1;
      assert Paired(s, pvec[n].encryptions, pvec[n].commitments, j);
      ResAdd(s.p, com', Eval(front, j + 1), com, Eval(last, j + 1));
      ResAdd(s.p, s.pks[j] * com', enc' * s.h1, s.pks[j] * com, enc * s.h1);
      AddProducts(s.pks[j], com', com, enc', enc, s.h1);
    }
  }

  lemma AddProducts(k: int, a: int, b: int, c: int, d: int, h: int)
    ensures k * a + k * b == k * (a + b) && c * h + d * h == (c + d) * h
  {}

  lemma PlusConstant(c: seq<int>, d: seq<int>)
    requires |c| == |d| > 0
    ensures Plus(c, d)[0] == c[0] + d[0]
  {}

  lemma {:induction false} GsTotal(s: System, pvec: seq<Sharing>, cs: seq<seq<int>>, ds: seq<Decomposition>)
    requires s.Valid() && AllConsistent(s, pvec, cs) && |ds| == |pvec|
    requires forall i :: 0 <= i < |pvec| ==> ds[i] == pvec[i].decomp
    requires forall i :: 0 <= i < |cs| ==> |cs[i]| == s.f + 1
    ensures Res(s.p, GsSum(ds)) == Res(s.p, TotalPoly(cs, s.f + 1)[0])
  {
    hide Res, Prime, Eval, Verify, Plus;
    PositiveModulus(s);
    if pvec != [] {
      FrontConsistent(s, pvec, cs);
      var n := |pvec| - 1;
      var front := TotalPoly(cs[..n], s.f + 1);
      GsTotal(s, pvec[..n], cs[..n], ds[..n]);
      PlusConstant(front, cs[n]);
      ResAdd(s.p, GsSum(ds[..n]), front[0], ds[n].gs, cs[n][0]);
    }
  }

  lemma MakeFits(p: nat, xs: seq<int>, ys: seq<int>, c: seq<int>)
    requires p > 0 && |xs| == |ys| && forall i :: 0 <= i < |xs| ==> Res(p, ys[i]) == Res(p, Eval(c, xs[i]))
    ensures Fits(p, xs, ys, c)
  {}

  lemma ConsistentParts(s: System, agg: Aggregate, c: seq<int>)
    requires s.Valid() && AggConsistent(s, agg, c)
    ensures |agg.encryptions| == s.n && |c| == s.f + 1 && s.p > 0
  {}

  /** Aggregation is homomorphic: consistent sharings aggregate to the sum of their polynomials. */
  lemma AggregateConsistent(s: System, pvec: seq<Sharing>, cs: seq<seq<int>>, ids: seq<nat>, agg: Aggregate)
    requires s.Valid() && AllConsistent(s, pvec, cs) && Aggregated(s.p, s.n, pvec, ids, agg)
    ensures forall i :: 0 <= i < |cs| ==> |cs[i]| == s.f + 1
    ensures AggConsistent(s, agg, TotalPoly(cs, s.f + 1))
  {
    hide Res, Prime, Eval, Verify, Fits;
    PositiveModulus(s);
    FrontConsistent(s, pvec, cs);
    var c := TotalPoly(cs, s.f + 1);
    GsTotal(s, pvec, cs, agg.decomposition);
    forall j | 0 <= j < s.n
      ensures Res(s.p, agg.commitments[j]) == Res(s.p, Eval(c, OneTo(s.n)[j]))
      ensures Paired(s, agg.encryptions, agg.commitments, j)
    {
      ColumnFits(s, pvec, cs, j);
      var com, enc := ComSum(pvec, j), EncSum(pvec, j);
      ResRes(s.p, com);
      ResRes(s.p, enc);
      ResMul(s.p, s.pks[j], s.pks[j], agg.commitments[j], com);
      ResMul(s.p, agg.encryptions[j], enc, s.h1, s.h1);
    }
    MakeFits(s.p, OneTo(s.n), agg.commitments, c);
  }

  predicate AggSized(s: System, agg: Aggregate) {
    && |agg.encryptions| == |agg.commitments| == s.n
    && |agg.decomposition| == |agg.ids| && |agg.ids| >= s.f
  }

  /** What verify_aggregation checks, with q as the polynomial the degree test draws. */
  ghost predicate AggregationOk(s: System, agg: Aggregate, q: seq<int>)
    requires s.Valid()
  {
    && AggSized(s, agg)
    && Passes(s.p, OneTo(s.n), agg.commitments, q)
    && (forall i :: 0 <= i < s.n ==> Paired(s, agg.encryptions, agg.commitments, i))
    && (forall i :: 0 <= i < |agg.decomposition| ==>
          Verify(s.p, s.C2, agg.decomposition[i].pi, s.h1, agg.decomposition[i].gs))
    && Res(s.p, GsSum(agg.decomposition)) == SecretPoint(s, agg.commitments)
  }

  ghost predicate AlwaysOk(s: System, agg: Aggregate)
    requires s.Valid()
  {
    forall q :: |q| == s.n - s.f - 1 ==> AggregationOk(s, agg, q)
  }

  lemma AlwaysPasses(s: System, agg: Aggregate)
    requires s.Valid() && AlwaysOk(s, agg)
    ensures AggSized(s, agg) && PassesAll(s.p, OneTo(s.n), agg.commitments, s.f)
    ensures AggregationOk(s, agg, Zeros(s.n - s.f - 1))
  {
    hide Passes, Prime, SecretPoint, Verify, Paired;
    assert AggregationOk(s, agg, Zeros(s.n - s.f - 1));
    forall q: seq<int> | |q| == s.n - s.f - 1
      ensures Passes(s.p, OneTo(s.n), agg.commitments, q)
    {
      assert AggregationOk(s, agg, q);
    }
  }

  /** What passes for every drawn polynomial comes from one polynomial of degree f. */
  lemma OkIsConsistent(s: System, agg: Aggregate) returns (c: seq<int>)
    requires s.Valid() && AlwaysOk(s, agg)
    ensures AggConsistent(s, agg, c)
  {
    hide Res, Passes, PassesAll, Prime, Verify, Distinct, Fits;
    PositiveModulus(s);
    AlwaysPasses(s, agg);
    OneToDistinct(s.p, s.n);
    c := PassingFits(s.p, OneTo(s.n), agg.commitments, s.f);
    SecretPointIs(s, agg.commitments, c);
  }

  /** An aggregate passes verify_aggregation for every drawn polynomial exactly when it comes from one polynomial. */
  lemma AggregationDecides(s: System, agg: Aggregate)
    requires s.Valid() && AggSized(s, agg)
    ensures AlwaysOk(s, agg) <==> exists c :: AggConsistent(s, agg, c)
  {
    hide Res, Passes, Prime, Verify, Distinct, Fits;
    PositiveModulus(s);
    if AlwaysOk(s, agg) {
      var c := OkIsConsistent(s, agg);
    }
    if c :| AggConsistent(s, agg, c) {
      forall q: seq<int> | |q| == s.n - s.f - 1
        ensures AggregationOk(s, agg, q)
      {
        OneToDistinct(s.p, s.n);
        LowDegreePasses(s.p, OneTo(s.n), agg.commitments, c, q);
        SecretPointIs(s, agg.commitments, c);
      }
    }
  }

  /** The dealer at i has answered another challenge on the same point and commitment. */
  ghost predicate OtherAnswer(s: System, C: Challenge, d: Decomposition, d': Decomposition)
    requires s.Valid()
  {
    && d'.gs == d.gs && d'.pi.gr == d.pi.gr
    && Res(s.p, s.C2(s.h1, d.gs, d.pi.gr) - C(s.h1, d.gs, d.pi.gr)) != 0
  }

  /**
   Two accepted aggregates of the same points, with different challenges for every decomposition, give every dealer's
   secret away.
   */
  lemma SecretsExtracted(s: System, agg: Aggregate, q: seq<int>, C: Challenge, ds: seq<Decomposition>, q': seq<int>)
    returns (xs: seq<int>)
    requires s.Valid() && AggregationOk(s, agg, q)
    requires |ds| == |agg.decomposition| && AggregationOk(s.(C2 := C), agg.(decomposition := ds), q')
    requires forall i :: 0 <= i < |ds| ==> OtherAnswer(s, C, agg.decomposition[i], ds[i])
    ensures |xs| == |agg.ids| == |agg.decomposition|
    ensures forall i :: 0 <= i < |xs| ==> Res(s.p, agg.decomposition[i].gs) == Res(s.p, xs[i] * s.h1)
  {
    hide Res, Prime, Verify, Passes, SecretPoint, Extract;
    xs := [];
    for i := 0 to |ds|
      invariant |xs| == i
      invariant forall k :: 0 <= k < i ==> Res(s.p, agg.decomposition[k].gs) == Res(s.p, xs[k] * s.h1)
    {
      var d, d' := agg.decomposition[i], ds[i];
      assert OtherAnswer(s, C, d, d');
      Sound(s.p, s.C2, C, d.pi, d'.pi, s.h1, d.gs);
      xs := xs + [Extract(s.p, d.pi.pi, d'.pi.pi, s.C2(s.h1, d.gs, d.pi.gr), C(s.h1, d.gs, d.pi.gr))];
    }
  }

  /** All sharings pass verification whatever is drawn, their dealers know the shares, and gs is represented as such. */
  ghost predicate AllVerified(s: System, pvec: seq<Sharing>)
    requires s.Valid()
  {
    && Sized(pvec, s.n)
    && forall i :: 0 <= i < |pvec| ==>
         AlwaysVerifies(s, pvec[i]) && KnowsShares(s, pvec[i]) && Res(s.p, pvec[i].decomp.gs) == pvec[i].decomp.gs
  }

  lemma {:induction false} VerifiedPolynomials(s: System, pvec: seq<Sharing>) returns (cs: seq<seq<int>>)
    requires s.Valid() && AllVerified(s, pvec)
    ensures AllConsistent(s, pvec, cs)
  {
    hide Res, Prime, AlwaysVerifies, KnowsShares, Consistent;
    cs := [];
    if pvec != [] {
      var n := |pvec| - 1;
      cs := VerifiedPolynomials(s, pvec[..n]);
      var c := VerifiedConsistent(s, pvec[n]);
      assert forall i :: 0 <= i < n ==> pvec[..n][i] == pvec[i];
      cs := cs + [c];
    }
  }

  /**
   Sharings that pass verify_sharing whatever is drawn, from dealers who know the shares, aggregate to something that
   passes verify_aggregation whatever is drawn, if there is one id for each and there are at least f.
   */
  lemma VerifiedAggregate(s: System, pvec: seq<Sharing>, ids: seq<nat>, agg: Aggregate)
    requires s.Valid() && AllVerified(s, pvec) && Aggregated(s.p, s.n, pvec, ids, agg)
    ensures AlwaysOk(s, agg) <==> |pvec| == |ids| && |ids| >= s.f
  {
    hide Prime, Res, AlwaysOk, AllVerified, AggConsistent;
    var cs := VerifiedPolynomials(s, pvec);
    AggregateConsistent(s, pvec, cs, ids, agg);
    if AlwaysOk(s, agg) {
      AlwaysPasses(s, agg);
    }
    if |pvec| == |ids| && |ids| >= s.f {
      AggregationDecides(s, agg);
    }
  }

  /** The decryption of its origin's encryption under the secret key. */
  ghost predicate Opened(s: System, agg: Aggregate, sk: int, d: Decryption)
    requires s.Valid() && |agg.encryptions| == s.n
  {
    s.KeyOf(d.origin, sk) && Res(s.p, sk * d.dec) == Res(s.p, agg.encryptions[d.origin])
  }

  /** The factor between an exponent of h1 in a commitment and the decrypted point. */
  function Base(s: System): int
    requires Prime(s.p) && Res(s.p, s.h1) != 0
  {
    Inv(s.p, s.h1) * s.g1
  }

  lemma DecryptedValue(p: nat, g: int, h: int, i: int, sk: int, pk: int, com: int, enc: int, dec: int)
    requires Prime(p) && Res(p, sk) != 0 && Res(p, h) != 0 && i == Inv(p, h)
    requires Res(p, pk) == Res(p, sk * g) && Res(p, sk * dec) == Res(p, enc) && Res(p, pk * com) == Res(p, enc * h)
    ensures Res(p, dec) == Res(p, (i * g) * com)
  {
    PrimePositive(p);
    hide Res, Prime, Inv;
    InvInverts(p, h);
    ResMul(p, sk * dec, enc, h, h);
    ResMul(p, pk, sk * g, com, com);
    Left(sk, dec, h);
    Right(sk, g, com);
    Cancel(p, sk, h * dec, g * com);
    ResMul(p, h * i, 1, g * com, g * com);
    Middle(h, i, g, com);
    Cancel(p, h, dec, (i * g) * com);
  }

  lemma Left(sk: int, dec: int, h: int)
    ensures (sk * dec) * h == sk * (h * dec)
  {
    assert (sk * dec) * h == sk * (dec * h);
  }

  lemma Right(sk: int, g: int, com: int)
    ensures (sk * g) * com == sk * (g * com)
  {}

  lemma Middle(h: int, i: int, g: int, com: int)
    ensures (h * i) * (g * com) == h * ((i * g) * com) && 1 * (g * com) == g * com
  {
    Right(h, i, g * com);
    Right(i, g, com);
  }

  /** A decryption is a value of the aggregate's polynomial, at the origin, in the exponent of g1. */
  lemma OpenedValue(s: System, agg: Aggregate, c: seq<int>, sk: int, d: Decryption)
    requires s.Valid() && AggConsistent(s, agg, c) && Opened(s, agg, sk, d)
    ensures Res(s.p, d.dec) == Res(s.p, Eval(Scale(Base(s), c), d.origin + 1))
  {
    hide Res, Prime, Eval, Verify, Scale, Inv;
    PositiveModulus(s);
    var i, com, e := d.origin, agg.commitments[d.origin], Eval(c, d.origin + 1);
    assert Paired(s, agg.encryptions, agg.commitments, i) && OneTo(s.n)[i] == i + 1;
    DecryptedValue(s.p, s.g1, s.h1, Inv(s.p, s.h1), sk, s.pks[i], com, agg.encryptions[i], d.dec);
    ResMul(s.p, Base(s), Base(s), com, e);
    EvalScale(Base(s), c, i + 1);
  }

  /** What one key opens is one point. */
  lemma OpenedOnce(p: nat, sk: int, dec: int, dec': int, enc: int)
    requires Prime(p) && p > 0 && Res(p, sk) != 0 && Res(p, sk * dec') == Res(p, enc)
    ensures Res(p, sk * dec) == Res(p, enc) <==> Res(p, dec) == Res(p, dec')
  {
    hide *;
    ProductVanishes(p, sk, dec - dec');
    ResEqual(p, sk * dec, sk * dec');
    ResEqual(p, dec, dec');
    assert sk * dec - sk * dec' == sk * (dec - dec');
  }

  function Points(decs: seq<Decryption>): (r: seq<int>)
    ensures |r| == |decs| && forall i :: 0 <= i < |decs| ==> r[i] == decs[i].origin + 1
  {
    seq(|decs|, i requires 0 <= i < |decs| => decs[i].origin + 1)
  }

  function Evals(decs: seq<Decryption>): (r: seq<int>)
    ensures |r| == |decs| && forall i :: 0 <= i < |decs| ==> r[i] == decs[i].dec
  {
    seq(|decs|, i requires 0 <= i < |decs| => decs[i].dec)
  }

  ghost predicate DistinctOrigins(s: System, decs: seq<Decryption>) {
    && (forall i :: 0 <= i < |decs| ==> decs[i].origin < s.n)
    && forall i, j :: 0 <= i < j < |decs| ==> decs[i].origin != decs[j].origin
  }

  lemma PointsDistinct(s: System, decs: seq<Decryption>)
    requires s.Valid() && DistinctOrigins(s, decs)
    ensures Distinct(s.p, Points(decs)) && Nonzero(s.p, Points(decs))
  {
    hide Res, Prime;
    PositiveModulus(s);
    var xs := Points(decs);
    forall i, j | 0 <= i < j < |xs|
      ensures Res(s.p, xs[i] - xs[j]) != 0
    {
      SmallNonzero(s.p, xs[i] - xs[j]);
    }
    forall i | 0 <= i < |xs|
      ensures Res(s.p, xs[i]) != 0
    {
      SmallNonzero(s.p, xs[i]);
    }
  }

  /** What reconstruct interpolates: only the first f + 1 decryptions count. */
  function Reconstructed(s: System, decs: seq<Decryption>): int
    requires Prime(s.p) && |decs| > s.f
  {
    Res(s.p, AtZero(s.p, Points(decs)[..s.f + 1], Evals(decs)[..s.f + 1]))
  }

  ghost predicate AllOpened(s: System, agg: Aggregate, sks: seq<int>, decs: seq<Decryption>)
    requires s.Valid() && |agg.encryptions| == s.n
  {
    |sks| == |decs| && forall i :: 0 <= i < |decs| ==> Opened(s, agg, sks[i], decs[i])
  }

  lemma QuorumValue(s: System, agg: Aggregate, c: seq<int>, sks: seq<int>, decs: seq<Decryption>)
    requires s.Valid() && AggConsistent(s, agg, c) && AllOpened(s, agg, sks, decs)
    requires |decs| > s.f && DistinctOrigins(s, decs)
    ensures Reconstructed(s, decs) == Res(s.p, Base(s) * c[0])
  {
    hide Res, Prime, Eval, Verify, Scale, Inv, AtZero, Opened, AggConsistent;
    PositiveModulus(s);
    var k := s.f + 1;
    ConsistentParts(s, agg, c);
    var c', front := Scale(Base(s), c), decs[..k];
    var xs, ys := Points(decs)[..k], Evals(decs)[..k];
    assert DistinctOrigins(s, front) && xs == Points(front);
    PointsDistinct(s, front);
    forall i | 0 <= i < k
      ensures Res(s.p, ys[i]) == Res(s.p, Eval(c', xs[i]))
    {
      assert Opened(s, agg, sks[i], decs[i]);
      OpenedValue(s, agg, c, sks[i], decs[i]);
    }
    hide Distinct, Nonzero;
    InterpolationRecovers(s.p, xs, ys, c');
    ScaledConstant(Base(s), c);
  }

  /** The pairing check of verify_beacon: e(g1, gs) = e(recon, h1). */
  predicate ReconOk(s: System, agg: Aggregate, recon: int)
    requires s.p > 0
  {
    Res(s.p, s.g1 * GsSum(agg.decomposition)) == Res(s.p, recon * s.h1)
  }

  lemma OnlyRecon(p: nat, g: int, h: int, i: int, gs: int, c: int, b: int)
    requires Prime(p) && Res(p, h) != 0 && i == Inv(p, h) && Res(p, gs) == Res(p, c)
    ensures Res(p, g * gs) == Res(p, b * h) <==> Res(p, b) == Res(p, (i * g) * c)
  {
    PrimePositive(p);
    hide Res, Prime, Inv;
    InvInverts(p, h);
    ResMul(p, g, g, gs, c);
    ResMul(p, h * i, 1, g * c, g * c);
    Middle(h, i, g, c);
    assert b * h == h * b;
    if Res(p, b) == Res(p, (i * g) * c) {
      ResMul(p, h, h, b, (i * g) * c);
    }
    if Res(p, g * gs) == Res(p, b * h) {
      Cancel(p, h, b, (i * g) * c);
    }
  }

  /**
   Agreement, for any aggregate that verification always accepts, honest or not: all quorums of correct decryptions
   reconstruct the same point, and it is the only one that verify_beacon accepts.
   */
  lemma Agreement(s: System, agg: Aggregate, sks: seq<int>, decs: seq<Decryption>, sks': seq<int>,
                  decs': seq<Decryption>, recon: int)
    requires s.Valid() && AlwaysOk(s, agg) && |agg.encryptions| == s.n
    requires AllOpened(s, agg, sks, decs) && |decs| > s.f && DistinctOrigins(s, decs)
    requires AllOpened(s, agg, sks', decs') && |decs'| > s.f && DistinctOrigins(s, decs')
    ensures Reconstructed(s, decs) == Reconstructed(s, decs')
    ensures ReconOk(s, agg, recon) <==> Res(s.p, recon) == Reconstructed(s, decs)
  {
    hide Res, Prime, Verify, Inv, Fits, AlwaysOk, AllOpened, DistinctOrigins, Reconstructed;
    var c := OkIsConsistent(s, agg);
    QuorumValue(s, agg, c, sks, decs);
    QuorumValue(s, agg, c, sks', decs');
    OnlyRecon(s.p, s.g1, s.h1, Inv(s.p, s.h1), GsSum(agg.decomposition), c[0], recon);
  }

  /** The decryption that the key of its origin makes. */
  function Corrected(s: System, agg: Aggregate, sk: int, d: Decryption): Decryption
    requires s.Valid() && Res(s.p, sk) != 0 && d.origin < |agg.encryptions|
  {
    d.(dec := Res(s.p, Inv(s.p, sk) * agg.encryptions[d.origin]))
  }

  /** All decryptions that reconstruct uses are correct, except perhaps for the one at j. */
  ghost predicate OpenedBut(s: System, agg: Aggregate, sks: seq<int>, decs: seq<Decryption>, j: nat)
    requires s.Valid() && |agg.encryptions| == s.n
  {
    && |sks| == |decs| > s.f >= j && DistinctOrigins(s, decs[..s.f + 1]) && s.KeyOf(decs[j].origin, sks[j])
    && forall i :: 0 <= i <= s.f && i != j ==> Opened(s, agg, sks[i], decs[i])
  }

  lemma CorrectedOpens(s: System, agg: Aggregate, sks: seq<int>, decs: seq<Decryption>, j: nat)
    requires s.Valid() && |agg.encryptions| == s.n && OpenedBut(s, agg, sks, decs, j)
    ensures |sks| == |decs| > s.f >= j && s.KeyOf(decs[j].origin, sks[j]) && Res(s.p, sks[j]) != 0
    ensures decs[j].origin < |agg.encryptions|
    ensures var k, d := s.f + 1, Corrected(s, agg, sks[j], decs[j]);
      && d.origin == decs[j].origin
      && Res(s.p, sks[j] * d.dec) == Res(s.p, agg.encryptions[decs[j].origin])
      && AllOpened(s, agg, sks[..k], decs[..k][j := d]) && DistinctOrigins(s, decs[..k][j := d])
  {
    hide Res, Prime, Inv, System.Valid, AllOpened, DistinctOrigins;
    PositiveModulus(s);
    assert s.KeyOf(decs[j].origin, sks[j]);
    Opens(s.p, agg.encryptions[decs[j].origin], sks[j]);
    var d := Corrected(s, agg, sks[j], decs[j]);
    assert Opened(s, agg, sks[j], d);
    hide Opened, Corrected, System.KeyOf;
    var keys, right := sks[..s.f + 1], decs[..s.f + 1][j := d];
    assert forall i :: 0 <= i < |right| ==> Opened(s, agg, keys[i], right[i]);
    MakeOpened(s, agg, keys, right);
    SameOrigins(s, decs[..s.f + 1], right);
  }

  lemma MakeOpened(s: System, agg: Aggregate, sks: seq<int>, decs: seq<Decryption>)
    requires s.Valid() && |agg.encryptions| == s.n && |sks| == |decs|
    requires forall i :: 0 <= i < |decs| ==> Opened(s, agg, sks[i], decs[i])
    ensures AllOpened(s, agg, sks, decs)
  {}

  lemma SameOrigins(s: System, decs: seq<Decryption>, decs': seq<Decryption>)
    requires DistinctOrigins(s, decs) && |decs| == |decs'|
    requires forall i :: 0 <= i < |decs| ==> decs'[i].origin == decs[i].origin
    ensures DistinctOrigins(s, decs')
  {}

  lemma FrontReconstructed(s: System, decs: seq<Decryption>)
    requires Prime(s.p) && |decs| > s.f
    ensures var front := decs[..s.f + 1]; Reconstructed(s, decs) == Res(s.p, AtZero(s.p, Points(front), Evals(front)))
  {
    hide Prime, Res, AtZero;
    assert Points(decs)[..s.f + 1] == Points(decs[..s.f + 1]) && Evals(decs)[..s.f + 1] == Evals(decs[..s.f + 1]);
  }

  lemma OneReplaced(decs: seq<Decryption>, j: nat, d: Decryption)
    requires j < |decs| && d.origin == decs[j].origin
    ensures Points(decs[j := d]) == Points(decs) && Evals(decs[j := d]) == Evals(decs)[j := d.dec]
  {}

  lemma OpenedUnderKey(s: System, agg: Aggregate, sk: int, d: Decryption)
    requires s.Valid() && |agg.encryptions| == s.n && s.KeyOf(d.origin, sk)
    ensures Opened(s, agg, sk, d) <==> Res(s.p, sk * d.dec) == Res(s.p, agg.encryptions[d.origin])
  {}

  /**
   verify_beacon notices what verify_decryption cannot: with one decryption in doubt, what is reconstructed passes
   exactly when that decryption opens the encryption under the key of its origin.
   */
  lemma BeaconDecides(s: System, agg: Aggregate, sks: seq<int>, decs: seq<Decryption>, j: nat)
    requires s.Valid() && AlwaysOk(s, agg) && |agg.encryptions| == s.n && OpenedBut(s, agg, sks, decs, j)
    ensures |sks| == |decs| > s.f >= j
    ensures ReconOk(s, agg, Reconstructed(s, decs)) <==> Opened(s, agg, sks[j], decs[j])
  {
    hide *;
    PositiveModulus(s);
    CorrectedOpens(s, agg, sks, decs, j);
    var k, d := s.f + 1, Corrected(s, agg, sks[j], decs[j]);
    var front, right := decs[..k], decs[..k][j := d];
    Agreement(s, agg, sks[..k], right, sks[..k], right, Reconstructed(s, decs));
    PointsDistinct(s, right);
    OneReplaced(front, j, d);
    FrontReconstructed(s, decs);
    FrontReconstructed(s, right);
    assert right[..k] == right;
    ResRes(s.p, AtZero(s.p, Points(front), Evals(front)));
    OneChanged(s.p, Points(front), Evals(front), j, d.dec);
    OpenedOnce(s.p, sks[j], decs[j].dec, d.dec, agg.encryptions[decs[j].origin]);
    OpenedUnderKey(s, agg, sks[j], decs[j]);
  }
}
