/** The operations of the Context of pvss, and an honest run of all of them. */
module PvssContext {
  import opened Field
  import opened Polynomials
  import opened PolyOps
  import opened Lagrange
  import opened Dleq
  import opened Pvss
  import opened PvssAggregate

  /** create_sharing, for the drawn polynomial and the random elements drawn by the proofs. */
  method CreateSharing(s: System, poly: seq<int>, rs: seq<int>, r: int) returns (sharing: Sharing)
    requires s.Valid() && |poly| == s.f + 1 && |rs| == s.n
    ensures Created(s, poly, rs, r, sharing)
  {
    PositiveModulus(s);
    hide Res, Prime, Eval, ProveDual, Prove;
    var evals: seq<int>, comms: seq<int>, encs: seq<int>, proofs: seq<DualProof> := [], [], [], [];
    for i := 0 to s.n
      invariant |evals| == i && forall k :: 0 <= k < i ==> evals[k] == Res(s.p, Eval(poly, k + 1))
    {
      var value := Evaluate(s.p, poly, i + 1);
      evals := evals + [value];
    }
    for i := 0 to s.n
      invariant |comms| == i && forall k :: 0 <= k < i ==> comms[k] == Res(s.p, evals[k] * s.h1)
    {
      comms := comms + [Res(s.p, evals[i] * s.h1)];
    }
    for i := 0 to s.n
      invariant |encs| == i && forall k :: 0 <= k < i ==> encs[k] == Res(s.p, evals[k] * s.pks[k])
    {
      encs := encs + [Res(s.p, evals[i] * s.pks[i])];
    }
    for i := 0 to s.n
      invariant |proofs| == i
      invariant forall k :: 0 <= k < i ==>
        proofs[k] == ProveDual(s.p, s.D, s.pks[k], encs[k], s.h1, comms[k], evals[k], rs[k])
    {
      proofs := proofs + [ProveDual(s.p, s.D, s.pks[i], encs[i], s.h1, comms[i], evals[i], rs[i])];
    }
    sharing := Sharing(encs, comms, proofs, GenerateDecomposition(s, poly, r));
  }

  /** verify_sharing, for the polynomial q drawn by the degree test. */
  method VerifySharing(s: System, pvss: Sharing, q: seq<int>) returns (ok: bool)
    requires s.Valid() && |q| == s.n - s.f - 1
    ensures ok <==> SharingOk(s, pvss, q)
  {
    PositiveModulus(s);
    hide Res, Prime, Eval, Verify, VerifyDual, Passes, AtZero;
    if |pvss.encryptions| != s.n || |pvss.commitments| != s.n || |pvss.proofs| != s.n {
      return false;
    }
    var coded := EnsureDegree(s.p, pvss.commitments, s.f, q);
    if !coded {
      return false;
    }
    var proved := CheckProofs(s, pvss);
    if !proved {
      return false;
    }
    var point := LagrangeOneTo(s.p, s.f, pvss.commitments);
    if point.value != Res(s.p, pvss.decomp.gs) {
      return false;
    }
    ok := Verify(s.p, s.C2, pvss.decomp.pi, s.h1, point.value);
  }

  /** The loop of verify_sharing over the proofs. */
  method CheckProofs(s: System, pvss: Sharing) returns (ok: bool)
    requires s.Valid() && SharingSized(s, pvss)
    ensures ok <==> forall i :: 0 <= i < s.n ==>
      VerifyDual(s.p, s.D, pvss.proofs[i], s.pks[i], pvss.encryptions[i], s.h1, pvss.commitments[i])
  {
    hide Res, Prime, VerifyDual;
    for i := 0 to s.n
      invariant forall k :: 0 <= k < i ==>
        VerifyDual(s.p, s.D, pvss.proofs[k], s.pks[k], pvss.encryptions[k], s.h1, pvss.commitments[k])
    {
      if !VerifyDual(s.p, s.D, pvss.proofs[i], s.pks[i], pvss.encryptions[i], s.h1, pvss.commitments[i]) {
        return false;
      }
    }
    ok := true;
  }

  lemma SumStep(p: nat, a: int, b: int)
    requires p > 0
    ensures Res(p, Res(p, a) + b) == Res(p, a + b)
  {
    hide Res;
    ResRes(p, a);
    ResAdd(p, Res(p, a), a, b, b);
  }

  lemma SumsAt(pvec: seq<Sharing>, i: nat, n: nat, j: nat)
    requires Sized(pvec, n) && j < n && i < |pvec|
    ensures EncSum(pvec[..i + 1], j) == EncSum(pvec[..i], j) + pvec[i].encryptions[j]
    ensures ComSum(pvec[..i + 1], j) == ComSum(pvec[..i], j) + pvec[i].commitments[j]
  {
    assert pvec[..i + 1][..i] == pvec[..i];
  }

  /** The state of aggregate when i sharings and the first k entries of the next one have been added. */
  ghost predicate Summed(p: nat, n: nat, pvec: seq<Sharing>, i: nat, k: nat, encs: seq<int>, comms: seq<int>)
    requires p > 0 && Sized(pvec, n) && i <= |pvec| && (k > 0 ==> i < |pvec|)
  {
    && |encs| == |comms| == n && k <= n
    && forall j :: 0 <= j < n ==>
         var m := if j < k then i + 1 else i;
         encs[j] == Res(p, EncSum(pvec[..m], j)) && comms[j] == Res(p, ComSum(pvec[..m], j))
  }

  /** The loop of aggregate over the entries of one sharing. */
  method AddSharing(p: nat, n: nat, pvec: seq<Sharing>, i: nat, encs0: seq<int>, comms0: seq<int>)
    returns (encs: seq<int>, comms: seq<int>)
    requires p > 0 && Sized(pvec, n) && i < |pvec| && Summed(p, n, pvec, i, 0, encs0, comms0)
    ensures Summed(p, n, pvec, i + 1, 0, encs, comms)
  {
    hide Res, EncSum, ComSum;
    encs, comms := encs0, comms0;
    for j := 0 to n
      invariant Summed(p, n, pvec, i, j, encs, comms)
    {
      SumsAt(pvec, i, n, j);
      SumStep(p, EncSum(pvec[..i], j), pvec[i].encryptions[j]);
      SumStep(p, ComSum(pvec[..i], j), pvec[i].commitments[j]);
      encs := encs[j := Res(p, encs[j] + pvec[i].encryptions[j])];
      comms := comms[j := Res(p, comms[j] + pvec[i].commitments[j])];
    }
  }

  lemma NothingSummed(p: nat, n: nat, pvec: seq<Sharing>, zeros: seq<int>)
    requires p > 0 && Sized(pvec, n) && |zeros| == n && forall j :: 0 <= j < n ==> zeros[j] == 0
    ensures Summed(p, n, pvec, 0, 0, zeros, zeros)
  {
    ResRes(p, 0);
    hide Res;
  }

  lemma AllSummed(p: nat, n: nat, pvec: seq<Sharing>, encs: seq<int>, comms: seq<int>)
    requires p > 0 && Sized(pvec, n) && Summed(p, n, pvec, |pvec|, 0, encs, comms)
    ensures |encs| == |comms| == n
    ensures forall j :: 0 <= j < n ==> encs[j] == Res(p, EncSum(pvec, j)) && comms[j] == Res(p, ComSum(pvec, j))
  {
    hide Res, EncSum, ComSum;
    assert pvec[..|pvec|] == pvec;
  }

  /** aggregate */
  method AggregateSharings(p: nat, pvec: seq<Sharing>, ids: seq<nat>) returns (agg: Aggregate)
    requires p > 0 && pvec != [] && |pvec| <= |ids| && Sized(pvec, |pvec[0].encryptions|)
    ensures Aggregated(p, |pvec[0].encryptions|, pvec, ids, agg)
    ensures agg.ids == ids && |agg.decomposition| == |pvec|
    ensures |pvec| == |ids| ==>
      forall i :: 0 <= i < |ids| ==> (agg.decomposition[i], agg.ids[i]) == (pvec[i].decomp, ids[i])
  {
    hide Res, EncSum, ComSum, Summed;
    var n := |pvec[0].encryptions|;
    var encs, comms := seq(n, _ => 0), seq(n, _ => 0);
    var decomps: seq<Decomposition> := [];
    NothingSummed(p, n, pvec, encs);
    for i := 0 to |pvec|
      invariant Summed(p, n, pvec, i, 0, encs, comms)
      invariant |decomps| == i && forall k :: 0 <= k < i ==> decomps[k] == pvec[k].decomp
    {
      encs, comms := AddSharing(p, n, pvec, i, encs, comms);
      decomps := decomps + [pvec[i].decomp];
    }
    assert pvec[..|pvec|] == pvec;
    agg := Aggregate(encs, comms, decomps, ids);
    AllSummed(p, n, pvec, encs, comms);
  }

  lemma GsStep(p: nat, ds: seq<Decomposition>, i: nat)
    requires p > 0 && i < |ds|
    ensures Res(p, Res(p, GsSum(ds[..i])) + ds[i].gs) == Res(p, GsSum(ds[..i + 1]))
  {
    hide Res;
    assert ds[..i + 1][..i] == ds[..i];
    SumStep(p, GsSum(ds[..i]), ds[i].gs);
  }

  /** The loop of verify_aggregation over the pairing checks. */
  method CheckPairings(s: System, encryptions: seq<int>, commitments: seq<int>) returns (ok: bool)
    requires s.p > 0 && |encryptions| == |commitments| == s.n == |s.pks|
    ensures ok <==> forall i :: 0 <= i < s.n ==> Paired(s, encryptions, commitments, i)
  {
    hide Res;
    for i := 0 to s.n
      invariant forall k :: 0 <= k < i ==> Paired(s, encryptions, commitments, k)
    {
      if Res(s.p, s.pks[i] * commitments[i]) != Res(s.p, encryptions[i] * s.h1) {
        assert !Paired(s, encryptions, commitments, i);
        return false;
      }
    }
    ok := true;
  }

  /** The loop of verify_aggregation over the decomposition proofs. */
  method CheckDecompositions(s: System, ds: seq<Decomposition>) returns (ok: bool, gsProd: int)
    requires s.p > 0
    ensures ok <==> forall i :: 0 <= i < |ds| ==> Verify(s.p, s.C2, ds[i].pi, s.h1, ds[i].gs)
    ensures ok ==> gsProd == Res(s.p, GsSum(ds))
  {
    hide Res, Verify;
    gsProd := 0;
    assert ds[..0] == [];
    ResRes(s.p, 0);
    for i := 0 to |ds|
      invariant gsProd == Res(s.p, GsSum(ds[..i]))
      invariant forall k :: 0 <= k < i ==> Verify(s.p, s.C2, ds[k].pi, s.h1, ds[k].gs)
    {
      if !Verify(s.p, s.C2, ds[i].pi, s.h1, ds[i].gs) {
        return false, gsProd;
      }
      GsStep(s.p, ds, i);
      gsProd := Res(s.p, gsProd + ds[i].gs);
    }
    assert ds[..|ds|] == ds;
    ok := true;
  }

  /** verify_aggregation, for the polynomial q drawn by the degree test. */
  method VerifyAggregation(s: System, agg: Aggregate, q: seq<int>) returns (ok: bool)
    requires s.Valid() && |q| == s.n - s.f - 1
    ensures ok <==> AggregationOk(s, agg, q)
  {
    PositiveModulus(s);
    hide Res, Prime, Eval, Verify, Passes, AtZero, Paired;
    if |agg.encryptions| != s.n || |agg.commitments| != s.n || |agg.decomposition| != |agg.ids| || |agg.ids| < s.f {
      return false;
    }
    var coded := EnsureDegree(s.p, agg.commitments, s.f, q);
    if !coded {
      return false;
    }
    var paired := CheckPairings(s, agg.encryptions, agg.commitments);
    if !paired {
      return false;
    }
    var point := LagrangeOneTo(s.p, s.f, agg.commitments);
    var proved, gsProd := CheckDecompositions(s, agg.decomposition);
    if !proved {
      return false;
    }
    ok := gsProd == point.value;
  }

  /** reconstruct */
  method Reconstruct(s: System, recon: seq<Decryption>) returns (beacon: Beacon)
    requires s.Valid() && |recon| > s.f && DistinctOrigins(s, recon[..s.f + 1])
    ensures beacon.recon == Reconstructed(s, recon) && beacon.beacon == s.pairing(beacon.recon, s.h2)
  {
    hide Res, Prime, AtZero;
    var points: seq<int>, evals: seq<int> := [], [];
    for i := 0 to |recon|
      invariant |points| == |evals| == i
      invariant forall k :: 0 <= k < i ==> points[k] == recon[k].origin + 1 && evals[k] == recon[k].dec
    {
      points := points + [recon[i].origin + 1];
      evals := evals + [recon[i].dec];
    }
    assert points == Points(recon) && evals == Evals(recon);
    assert points[..s.f + 1] == Points(recon[..s.f + 1]);
    PointsDistinct(s, recon[..s.f + 1]);
    hide Distinct, Nonzero;
    var point := LagrangeInterpolation(s.p, s.f, evals, points);
    beacon := Beacon(point.value, s.pairing(point.value, s.h2));
  }

  /** verify_beacon */
  method VerifyBeacon(s: System, agg: Aggregate, beacon: Beacon) returns (ok: bool)
    requires s.Valid()
    ensures ok <==> ReconOk(s, agg, beacon.recon) && s.pairing(beacon.recon, s.h2) == beacon.beacon
  {
    PositiveModulus(s);
    hide Res, Prime;
    var gs := 0;
    var ds := agg.decomposition;
    assert ds[..0] == [];
    ResRes(s.p, 0);
    for i := 0 to |ds|
      invariant gs == Res(s.p, GsSum(ds[..i]))
    {
      GsStep(s.p, ds, i);
      gs := Res(s.p, gs + ds[i].gs);
    }
    assert ds[..|ds|] == ds;
    ResRes(s.p, GsSum(ds));
    ResMul(s.p, s.g1, s.g1, gs, GsSum(ds));
    if Res(s.p, s.g1 * gs) != Res(s.p, beacon.recon * s.h1) {
      return false;
    }
    ok := s.pairing(beacon.recon, s.h2) == beacon.beacon;
  }

  function SecretSum(polys: seq<seq<int>>): int
    requires forall i :: 0 <= i < |polys| ==> polys[i] != []
  {
    if polys == [] then 0 else SecretSum(polys[..|polys| - 1]) + polys[|polys| - 1][0]
  }

  function ScaleAll(h: int, polys: seq<seq<int>>): (cs: seq<seq<int>>)
    ensures |cs| == |polys| && forall i :: 0 <= i < |polys| ==> cs[i] == Scale(h, polys[i])
  {
    seq(|polys|, i requires 0 <= i < |polys| => Scale(h, polys[i]))
  }

  lemma {:induction false} TotalSecret(h: int, polys: seq<seq<int>>, n: nat)
    requires n > 0 && forall i :: 0 <= i < |polys| ==> |polys[i]| == n
    ensures TotalPoly(ScaleAll(h, polys), n)[0] == h * SecretSum(polys)
  {
    hide Scale, Plus;
    if polys == [] {
      assert h * 0 == 0;
    } else {
      var k := |polys| - 1;
      TotalSecret(h, polys[..k], n);
      assert ScaleAll(h, polys)[..k] == ScaleAll(h, polys[..k]);
      PlusConstant(TotalPoly(ScaleAll(h, polys[..k]), n), Scale(h, polys[k]));
      ScaledConstant(h, polys[k]);
      assert h * SecretSum(polys[..k]) + h * polys[k][0] == h * (SecretSum(polys[..k]) + polys[k][0]);
    }
  }

  lemma BaseTimes(s: System, t: int)
    requires s.Valid()
    ensures Res(s.p, Base(s) * (s.h1 * t)) == Res(s.p, t * s.g1)
  {
    PositiveModulus(s);
    hide Res, Prime, Inv;
    var i := Inv(s.p, s.h1);
    InvInverts(s.p, s.h1);
    ResMul(s.p, s.h1 * i, 1, t * s.g1, t * s.g1);
    Shuffle(i, s.g1, s.h1, t);
  }

  lemma Shuffle(i: int, g: int, h: int, t: int)
    ensures (i * g) * (h * t) == (h * i) * (t * g) && 1 * (t * g) == t * g
  {
    Four(i, g, h, t);
    Four(h, i, t, g);
    assert (h * i) * (t * g) == (i * h) * (g * t);
  }

  ghost predicate AllKeys(s: System, sks: seq<int>)
    requires s.Valid()
  {
    |sks| == s.n && forall i :: 0 <= i < s.n ==> s.KeyOf(i, sks[i])
  }

  lemma CreatedSized(s: System, poly: seq<int>, rs: seq<int>, r: int, sharing: Sharing)
    requires s.Valid() && Created(s, poly, rs, r, sharing)
    ensures |sharing.encryptions| == |sharing.commitments| == |sharing.proofs| == s.n
  {}

  /** All dealers share and every sharing is verified. */
  method Deal(s: System, polys: seq<seq<int>>, rss: seq<seq<int>>, rs: seq<int>, qs: seq<seq<int>>)
    returns (pvec: seq<Sharing>, ok: bool)
    requires s.Valid() && |polys| == |rss| == |rs| == |qs|
    requires forall i :: 0 <= i < |polys| ==> |polys[i]| == s.f + 1 && |rss[i]| == s.n && |qs[i]| == s.n - s.f - 1
    ensures ok && AllConsistent(s, pvec, ScaleAll(s.h1, polys)) && |pvec| == |polys|
  {
    hide Created, Consistent, SharingOk, Scale, Prime, Res;
    pvec, ok := [], true;
    for i := 0 to |polys|
      invariant ok && |pvec| == i && Sized(pvec, s.n)
      invariant forall k :: 0 <= k < i ==> Consistent(s, pvec[k], Scale(s.h1, polys[k]))
    {
      var sharing := CreateSharing(s, polys[i], rss[i], rs[i]);
      var verified := VerifySharing(s, sharing, qs[i]);
      HonestSharingVerifies(s, polys[i], rss[i], rs[i], sharing, qs[i]);
      CreatedConsistent(s, polys[i], rss[i], rs[i], sharing);
      CreatedSized(s, polys[i], rss[i], rs[i], sharing);
      ok := ok && verified;
      pvec := pvec + [sharing];
    }
  }

  /** Every replica of the quorum decrypts, and every decryption is verified. */
  method DecryptAll(s: System, agg: Aggregate, sks: seq<int>, quorum: seq<nat>, ts: seq<int>)
    returns (decs: seq<Decryption>, ghost keys: seq<int>, ok: bool)
    requires s.Valid() && AllKeys(s, sks) && |agg.encryptions| == s.n && |ts| == |quorum|
    requires forall i :: 0 <= i < |quorum| ==> quorum[i] < s.n
    ensures ok && |decs| == |quorum| && AllOpened(s, agg, keys, decs)
    ensures forall i :: 0 <= i < |quorum| ==> decs[i].origin == quorum[i]
  {
    hide Prime, Res, Inv, Verify, Prove;
    decs, keys, ok := [], [], true;
    for i := 0 to |quorum|
      invariant ok && |decs| == |keys| == i
      invariant forall k :: 0 <= k < i ==> Opened(s, agg, keys[k], decs[k]) && decs[k].origin == quorum[k]
    {
      var id := quorum[i];
      assert s.KeyOf(id, sks[id]);
      var d := GenerateDecryption(s, agg.encryptions[id], sks[id], id, ts[i]);
      DecryptionGenerated(s, agg.encryptions[id], sks[id], id, ts[i]);
      ok := ok && DecryptionOk(s, agg.encryptions[d.origin], d);
      decs, keys := decs + [d], keys + [sks[id]];
    }
  }

  /**
   An honest run from end to end: for all keys, polynomials and random elements, every check passes, and the beacon
   carries the sum of the secrets.
   */
  method HonestRun(s: System, sks: seq<int>, polys: seq<seq<int>>, rss: seq<seq<int>>, rs: seq<int>, qs: seq<seq<int>>,
                   q: seq<int>, ids: seq<nat>, quorum: seq<nat>, ts: seq<int>)
    returns (beacon: Beacon, ok: bool)
    requires s.Valid() && AllKeys(s, sks)
    requires polys != [] && |polys| >= s.f && |polys| == |rss| == |rs| == |qs| == |ids|
    requires forall i :: 0 <= i < |polys| ==> |polys[i]| == s.f + 1 && |rss[i]| == s.n && |qs[i]| == s.n - s.f - 1
    requires |q| == s.n - s.f - 1
    requires |quorum| > s.f && |ts| == |quorum| && (forall i :: 0 <= i < |quorum| ==> quorum[i] < s.n)
    requires forall i, j :: 0 <= i < j < |quorum| ==> quorum[i] != quorum[j]
    ensures ok && beacon.recon == Res(s.p, SecretSum(polys) * s.g1)
  {
    hide System.Valid, AggConsistent, AllKeys, Res;
    var agg, made := MakeAggregate(s, polys, rss, rs, qs, q, ids);
    var verified;
    beacon, verified := OpenAggregate(s, agg, TotalPoly(ScaleAll(s.h1, polys), s.f + 1), sks, quorum, ts);
    SecretRecovered(s, polys);
    ok := made && verified;
  }

  lemma SecretRecovered(s: System, polys: seq<seq<int>>)
    requires s.Valid() && forall i :: 0 <= i < |polys| ==> |polys[i]| == s.f + 1
    ensures var c := TotalPoly(ScaleAll(s.h1, polys), s.f + 1);
      Res(s.p, Base(s) * c[0]) == Res(s.p, SecretSum(polys) * s.g1)
  {
    hide Prime, Res, Base;
    TotalSecret(s.h1, polys, s.f + 1);
    BaseTimes(s, SecretSum(polys));
  }

  /** The first half of a run: sharings, their aggregate, and its verification. */
  method MakeAggregate(s: System, polys: seq<seq<int>>, rss: seq<seq<int>>, rs: seq<int>, qs: seq<seq<int>>,
                       q: seq<int>, ids: seq<nat>)
    returns (agg: Aggregate, ok: bool)
    requires s.Valid()
    requires polys != [] && |polys| >= s.f && |polys| == |rss| == |rs| == |qs| == |ids|
    requires forall i :: 0 <= i < |polys| ==> |polys[i]| == s.f + 1 && |rss[i]| == s.n && |qs[i]| == s.n - s.f - 1
    requires |q| == s.n - s.f - 1
    ensures ok && AggConsistent(s, agg, TotalPoly(ScaleAll(s.h1, polys), s.f + 1))
  {
    hide Prime, Res, AggConsistent, AllConsistent, Aggregated, AggregationOk;
    var pvec, dealt := Deal(s, polys, rss, rs, qs);
    ghost var cs := ScaleAll(s.h1, polys);
    ConsistentSized(s, pvec, cs);
    agg := AggregateSharings(s.p, pvec, ids);
    AggregateConsistent(s, pvec, cs, ids, agg);
    AggregateAccepted(s, pvec, ids, agg, TotalPoly(cs, s.f + 1), q);
    var aggregated := VerifyAggregation(s, agg, q);
    ok := dealt && aggregated;
  }

  /** The second half: decryptions, the beacon, and its verification. */
  method OpenAggregate(s: System, agg: Aggregate, ghost c: seq<int>, sks: seq<int>, quorum: seq<nat>, ts: seq<int>)
    returns (beacon: Beacon, ok: bool)
    requires s.Valid() && AllKeys(s, sks) && AggConsistent(s, agg, c)
    requires |quorum| > s.f && |ts| == |quorum| && (forall i :: 0 <= i < |quorum| ==> quorum[i] < s.n)
    requires forall i, j :: 0 <= i < j < |quorum| ==> quorum[i] != quorum[j]
    ensures |c| > 0 && ok && beacon.recon == Res(s.p, Base(s) * c[0])
  {
    ConsistentParts(s, agg, c);
    hide Prime, Res, Base, Reconstructed, AggConsistent, AllOpened, AllKeys;
    var decs, decrypted;
    ghost var keys;
    decs, keys, decrypted := DecryptAll(s, agg, sks, quorum, ts);
    beacon := Reconstruct(s, decs);
    QuorumValue(s, agg, c, keys, decs);
    ResRes(s.p, Base(s) * c[0]);
    ConsistentRecon(s, agg, c, beacon.recon);
    var verified := VerifyBeacon(s, agg, beacon);
    ok := decrypted && verified;
  }

  lemma ConsistentSized(s: System, pvec: seq<Sharing>, cs: seq<seq<int>>)
    requires s.Valid() && AllConsistent(s, pvec, cs)
    ensures Sized(pvec, s.n) && (pvec != [] ==> |pvec[0].encryptions| == s.n)
  {}

  /**
   aggregate lets there be more ids than sharings, and does not count either; verify_aggregation accepts an aggregate of
   consistent sharings exactly when there is one id for each and at least f of them.
   */
  lemma AggregateAccepted(s: System, pvec: seq<Sharing>, ids: seq<nat>, agg: Aggregate, c: seq<int>, q: seq<int>)
    requires s.Valid() && Sized(pvec, s.n) && Aggregated(s.p, s.n, pvec, ids, agg) && AggConsistent(s, agg, c)
    requires |q| == s.n - s.f - 1
    ensures AggregationOk(s, agg, q) <==> |pvec| == |ids| && |ids| >= s.f
    ensures |agg.encryptions| == s.n
  {
    hide Prime, Res, Verify, Passes, AtZero, Fits;
    if |pvec| == |ids| && |ids| >= s.f {
      assert exists c :: AggConsistent(s, agg, c);
      AggregationDecides(s, agg);
      assert AlwaysOk(s, agg);
    }
  }

  /** Honest sharings aggregated with one id for each are accepted; with one id more they are rejected. */
  method SurplusId(s: System, polys: seq<seq<int>>, rss: seq<seq<int>>, rs: seq<int>, qs: seq<seq<int>>, q: seq<int>,
                   ids: seq<nat>, extra: nat)
    returns (exact: bool, surplus: bool)
    requires s.Valid()
    requires polys != [] && |polys| >= s.f && |polys| == |rss| == |rs| == |qs| == |ids|
    requires forall i :: 0 <= i < |polys| ==> |polys[i]| == s.f + 1 && |rss[i]| == s.n && |qs[i]| == s.n - s.f - 1
    requires |q| == s.n - s.f - 1
    ensures exact && !surplus
  {
    hide Prime, Res, AggConsistent, AllConsistent, Aggregated, AggregationOk;
    var pvec, dealt := Deal(s, polys, rss, rs, qs);
    ghost var cs := ScaleAll(s.h1, polys);
    ConsistentSized(s, pvec, cs);
    exact := Accept(s, pvec, cs, ids, q);
    surplus := Accept(s, pvec, cs, ids + [extra], q);
  }

  method Accept(s: System, pvec: seq<Sharing>, ghost cs: seq<seq<int>>, ids: seq<nat>, q: seq<int>) returns (ok: bool)
    requires s.Valid() && AllConsistent(s, pvec, cs) && pvec != [] && |pvec| <= |ids| && |q| == s.n - s.f - 1
    ensures ok <==> |pvec| == |ids| && |ids| >= s.f
  {
    hide Prime, Res, AggConsistent, AllConsistent, Aggregated, AggregationOk;
    ConsistentSized(s, pvec, cs);
    var agg := AggregateSharings(s.p, pvec, ids);
    AggregateConsistent(s, pvec, cs, ids, agg);
    AggregateAccepted(s, pvec, ids, agg, TotalPoly(cs, s.f + 1), q);
    ok := VerifyAggregation(s, agg, q);
  }

  lemma ConsistentRecon(s: System, agg: Aggregate, c: seq<int>, recon: int)
    requires s.Valid() && AggConsistent(s, agg, c) && Res(s.p, recon) == Res(s.p, Base(s) * c[0])
    ensures ReconOk(s, agg, recon)
  {
    hide Prime, Res, Verify, Fits, Inv;
    OnlyRecon(s.p, s.g1, s.h1, Inv(s.p, s.h1), GsSum(agg.decomposition), c[0], recon);
  }
}
