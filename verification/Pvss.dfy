/**
 Publicly verifiable secret sharing: the Context of pvss. Elements of all groups are exponents, the reduced pairing
 multiplies them, and the random choices of the source are parameters.
 */
module Pvss {
  import opened Field
  import opened Polynomials
  import opened PolyOps
  import opened Lagrange
  import opened Dleq

  /** What all participants share. */
  datatype System = System(
    p: nat, n: nat, f: nat, g1: int, h1: int, h2: int, pks: seq<int>,
    C1: Challenge, C2: Challenge, D: DualChallenge, pairing: (int, int) -> int)
  {
    /** At least two replicas beyond the degree, fewer than the field has elements, and generators that generate. */
    ghost predicate Valid() {
      && Prime(p) && f + 2 <= n < p && |pks| == n
      && Res(p, g1) != 0 && Res(p, h1) != 0
    }

    /** The key of replica i opens what is encrypted to its public key. */
    ghost predicate KeyOf(i: nat, sk: int)
      requires Valid()
    {
      i < n && Res(p, sk) != 0 && Res(p, pks[i]) == Res(p, sk * g1)
    }
  }

  datatype Decomposition = Decomposition(pi: Proof, gs: int)

  datatype Sharing = Sharing(encryptions: seq<int>, commitments: seq<int>, proofs: seq<DualProof>,
                             decomp: Decomposition)

  datatype Aggregate = Aggregate(encryptions: seq<int>, commitments: seq<int>, decomposition: seq<Decomposition>,
                                 ids: seq<nat>)

  datatype Decryption = Decryption(dec: int, pi: Proof, origin: nat)

  datatype Beacon = Beacon(recon: int, beacon: int)

  /** DecompositionProof::generate */
  function GenerateDecomposition(s: System, poly: seq<int>, r: int): Decomposition
    requires s.p > 0 && poly != []
  {
    var gs := Res(s.p, poly[0] * s.h1);
    Decomposition(Prove(s.p, s.C2, s.h1, gs, poly[0], r), gs)
  }

  /** decryption_t::generate */
  function GenerateDecryption(s: System, enc: int, sk: int, id: nat, r: int): Decryption
    requires Prime(s.p) && Res(s.p, sk) != 0
  {
    var dec := Res(s.p, Inv(s.p, sk) * enc);
    Decryption(dec, Prove(s.p, s.C1, dec, enc, sk, r), id)
  }

  /** decryption_t::verify */
  predicate DecryptionOk(s: System, enc: int, d: Decryption)
    requires s.p > 0
  {
    Verify(s.p, s.C1, d.pi, d.dec, enc)
  }

  /** Every generated decryption opens the encryption and verifies. */
  lemma DecryptionGenerated(s: System, enc: int, sk: int, id: nat, r: int)
    requires Prime(s.p) && Res(s.p, sk) != 0
    ensures var d := GenerateDecryption(s, enc, sk, id, r);
      DecryptionOk(s, enc, d) && Res(s.p, sk * d.dec) == Res(s.p, enc) && d.origin == id
  {
    Opens(s.p, enc, sk);
    var dec := Res(s.p, Inv(s.p, sk) * enc);
    Complete(s.p, s.C1, dec, enc, sk, r);
  }

  /**
   verify_decryption does not see a public key, so a decryption under any other key x passes as well. It opens the
   encryption only if x is the right key, or if there is nothing to open.
   */
  lemma DecryptionUnderAnyKey(s: System, enc: int, sk: int, x: int, id: nat, r: int)
    requires Prime(s.p) && Res(s.p, sk) != 0 && Res(s.p, x) != 0
    ensures var d := GenerateDecryption(s, enc, x, id, r);
      && DecryptionOk(s, enc, d)
      && (Res(s.p, sk * d.dec) == Res(s.p, enc) <==> Res(s.p, x) == Res(s.p, sk) || Res(s.p, enc) == 0)
  {
    DecryptionGenerated(s, enc, x, id, r);
    var d := GenerateDecryption(s, enc, x, id, r);
    hide *;
    OpensAlike(s.p, sk, x, d.dec, enc);
  }

  /** verify_decryption rejects: for given points and a given commitment no two answers pass. */
  lemma OneDecryptionAnswer(s: System, enc: int, d: Decryption, pi: int)
    requires Prime(s.p) && Res(s.p, d.dec) != 0
    requires DecryptionOk(s, enc, d) && DecryptionOk(s, enc, d.(pi := Proof(d.pi.gr, pi)))
    ensures Res(s.p, pi) == Res(s.p, d.pi.pi)
  {
    SameProduct(s.p, d.dec, pi, d.pi.pi);
  }

  /** Two answers to different challenges on one commitment give the key away. */
  lemma DecryptionSound(s: System, C: Challenge, enc: int, d: Decryption, d': Decryption)
    requires Prime(s.p) && d.dec == d'.dec && d.pi.gr == d'.pi.gr
    requires DecryptionOk(s, enc, d) && DecryptionOk(s.(C1 := C), enc, d')
    requires Res(s.p, s.C1(d.dec, enc, d.pi.gr) - C(d.dec, enc, d.pi.gr)) != 0
    ensures Res(s.p, enc)
         == Res(s.p, Extract(s.p, d.pi.pi, d'.pi.pi, s.C1(d.dec, enc, d.pi.gr), C(d.dec, enc, d.pi.gr)) * d.dec)
  {
    hide Res, Prime, Verify, Extract;
    Sound(s.p, s.C1, C, d.pi, d'.pi, d.dec, enc);
  }

  /** What passes verify_decryption is exactly what generate can give, under some key and with some random element. */
  lemma EveryDecryptionGenerated(s: System, enc: int, d: Decryption)
    requires Prime(s.p) && Res(s.p, enc) != 0 && Res(s.p, d.dec) != 0
    requires Reduced(s.p, d.dec) && Reduced(s.p, d.pi.gr) && Reduced(s.p, d.pi.pi)
    ensures DecryptionOk(s, enc, d)
       <==> exists x, r :: Res(s.p, x) != 0 && d == GenerateDecryption(s, enc, x, d.origin, r)
  {
    hide Res, Prime, Verify, Prove, Inv;
    PrimePositive(s.p);
    if DecryptionOk(s, enc, d) {
      var x := KeyBetween(s.p, enc, d.dec);
      EveryProofHonest(s.p, s.C1, d.pi, d.dec, enc, x);
      var r :| d.pi == Prove(s.p, s.C1, d.dec, enc, x, r);
      assert d == GenerateDecryption(s, enc, x, d.origin, r);
    }
    if x, r :| Res(s.p, x) != 0 && d == GenerateDecryption(s, enc, x, d.origin, r) {
      DecryptionGenerated(s, enc, x, d.origin, r);
    }
  }

  /** The key under which one point opens to another. */
  lemma KeyBetween(p: nat, enc: int, dec: int) returns (x: int)
    requires Prime(p) && Res(p, enc) != 0 && Res(p, dec) != 0
    ensures Res(p, x) != 0 && Res(p, enc) == Res(p, x * dec) && Res(p, Inv(p, x) * enc) == Res(p, dec)
  {
    hide Res, Prime, Inv;
    PrimePositive(p);
    x := NonceOf(p, dec, enc);
    ProductVanishes(p, x, dec);
    ResEqual(p, x * dec, enc);
    SmallResidues(p);
    assert Res(p, x) != 0;
    InvInverts(p, x);
    ResMul(p, Inv(p, x), Inv(p, x), enc, x * dec);
    ResMul(p, x * Inv(p, x), 1, dec, dec);
    assert Inv(p, x) * (x * dec) == (x * Inv(p, x)) * dec && 1 * dec == dec;
  }

  /** Decryptions of one encryption carry different commitments when their random elements differ. */
  lemma DecryptionNonceEnters(s: System, enc: int, sk: int, id: nat, r: int, r': int)
    requires Prime(s.p) && Res(s.p, sk) != 0 && Res(s.p, enc) != 0
    ensures var (d, d') := (GenerateDecryption(s, enc, sk, id, r), GenerateDecryption(s, enc, sk, id, r'));
      d.dec == d'.dec && (d.pi.gr == d'.pi.gr <==> Res(s.p, r) == Res(s.p, r'))
  {
    hide Res, Prime, Inv;
    PrimePositive(s.p);
    SmallResidues(s.p);
    var dec := Res(s.p, Inv(s.p, sk) * enc);
    Opens(s.p, enc, sk);
    ProductVanishes(s.p, sk, dec);
    SameProduct(s.p, dec, r, r');
  }

  lemma OpensAlike(p: nat, sk: int, x: int, dec: int, enc: int)
    requires Prime(p) && Res(p, sk) != 0 && Res(p, x) != 0 && Res(p, x * dec) == Res(p, enc)
    ensures p > 0 && (Res(p, sk * dec) == Res(p, enc) <==> Res(p, x) == Res(p, sk) || Res(p, enc) == 0)
  {
    hide *;
    ProductVanishes(p, x, dec);
    ProductVanishes(p, sk - x, dec);
    ResEqual(p, sk * dec, x * dec);
    ResEqual(p, sk, x);
    assert sk * dec - x * dec == (sk - x) * dec;
  }

  lemma Opens(p: nat, enc: int, sk: int)
    requires Prime(p) && Res(p, sk) != 0
    ensures Res(p, sk * Res(p, Inv(p, sk) * enc)) == Res(p, enc)
  {
    hide Res, Inv, Prime;
    PrimePositive(p);
    InvInverts(p, sk);
    OpensWith(p, enc, sk, Inv(p, sk));
  }

  lemma OpensWith(p: nat, enc: int, sk: int, i: int)
    requires p > 0 && Res(p, sk * i) == Res(p, 1)
    ensures Res(p, sk * Res(p, i * enc)) == Res(p, enc)
  {
    hide Res;
    ResRes(p, i * enc);
    ResMul(p, sk, sk, Res(p, i * enc), i * enc);
    ResMul(p, sk * i, 1, enc, enc);
    Moved(sk, i, enc);
  }

  lemma Moved(sk: int, i: int, enc: int)
    ensures sk * (i * enc) == (sk * i) * enc && 1 * enc == enc
  {}

  /** What create_sharing makes of a polynomial and the random elements drawn for the proofs. */
  ghost predicate Created(s: System, poly: seq<int>, rs: seq<int>, r: int, sharing: Sharing)
    requires s.Valid()
  {
    && |poly| == s.f + 1 && |rs| == s.n
    && |sharing.encryptions| == |sharing.commitments| == |sharing.proofs| == s.n
    && (forall i :: 0 <= i < s.n ==> ShareAt(s, poly, rs, sharing, i))
    && sharing.decomp == GenerateDecomposition(s, poly, r)
  }

  ghost predicate ShareAt(s: System, poly: seq<int>, rs: seq<int>, sharing: Sharing, i: nat)
    requires s.Valid() && i < s.n == |rs|
    requires |sharing.encryptions| == |sharing.commitments| == |sharing.proofs| == s.n
  {
    var x := Res(s.p, Eval(poly, i + 1));
    && sharing.commitments[i] == Res(s.p, x * s.h1)
    && sharing.encryptions[i] == Res(s.p, x * s.pks[i])
    && sharing.proofs[i]
       == ProveDual(s.p, s.D, s.pks[i], sharing.encryptions[i], s.h1, sharing.commitments[i], x, rs[i])
  }

  /**
   The commitments carry the values of c at 1, 2, .., n, the encryptions those values times the public keys, and gs is
   the constant term, with a proof that verifies.
   */
  ghost predicate Consistent(s: System, sharing: Sharing, c: seq<int>)
    requires s.Valid()
  {
    && |c| == s.f + 1 && |sharing.encryptions| == |sharing.commitments| == s.n
    && Fits(s.p, OneTo(s.n), sharing.commitments, c)
    && (forall i :: 0 <= i < s.n ==> Paired(s, sharing.encryptions, sharing.commitments, i))
    && Res(s.p, sharing.decomp.gs) == Res(s.p, c[0])
    && Verify(s.p, s.C2, sharing.decomp.pi, s.h1, sharing.decomp.gs)
  }

  /** The pairing check e(pk, com) = e(enc, h1). */
  predicate Paired(s: System, encryptions: seq<int>, commitments: seq<int>, i: nat)
    requires s.p > 0 && |encryptions| == |commitments| == s.n == |s.pks| && i < s.n
  {
    Res(s.p, s.pks[i] * commitments[i]) == Res(s.p, encryptions[i] * s.h1)
  }

  lemma SharePaired(p: nat, x: int, pk: int, h: int, com: int, enc: int)
    requires p > 0 && com == Res(p, x * h) && enc == Res(p, x * pk)
    ensures Res(p, pk * com) == Res(p, enc * h)
    ensures Res(p, com) == Res(p, x * h) && Res(p, enc) == Res(p, x * pk)
  {
    hide Res;
    ResRes(p, x * h);
    ResRes(p, x * pk);
    ResMul(p, pk, pk, com, x * h);
    ResMul(p, enc, x * pk, h, h);
    assert pk * (x * h) == (x * pk) * h;
  }

  lemma ShareValue(p: nat, poly: seq<int>, h: int, i: int, com: int)
    requires p > 0 && com == Res(p, Res(p, Eval(poly, i)) * h)
    ensures Res(p, com) == Res(p, Eval(Scale(h, poly), i))
  {
    hide Res, Eval, Scale;
    var e := Eval(poly, i);
    EvalScale(h, poly, i);
    ResRes(p, e);
    ResMul(p, Res(p, e), e, h, h);
    ResRes(p, Res(p, e) * h);
    assert e * h == h * e;
  }

  lemma ScaledConstant(h: int, c: seq<int>)
    requires c != []
    ensures Scale(h, c)[0] == h * c[0]
  {}

  /** A created sharing is consistent: its polynomial is the dealer's, in the exponent. */
  lemma CreatedConsistent(s: System, poly: seq<int>, rs: seq<int>, r: int, sharing: Sharing)
    requires s.Valid() && Created(s, poly, rs, r, sharing)
    ensures Consistent(s, sharing, Scale(s.h1, poly))
  {
    hide Res, Prime, Eval, ProveDual, Prove, Verify, Scale;
    var c := Scale(s.h1, poly);
    forall i | 0 <= i < s.n
      ensures Res(s.p, sharing.commitments[i]) == Res(s.p, Eval(c, OneTo(s.n)[i]))
      ensures Paired(s, sharing.encryptions, sharing.commitments, i)
    {
      assert ShareAt(s, poly, rs, sharing, i);
      ShareValue(s.p, poly, s.h1, i + 1, sharing.commitments[i]);
      SharePaired(s.p, Res(s.p, Eval(poly, i + 1)), s.pks[i], s.h1, sharing.commitments[i], sharing.encryptions[i]);
    }
    var gs := sharing.decomp.gs;
    ScaledConstant(s.h1, poly);
    assert s.h1 * poly[0] == poly[0] * s.h1;
    ResRes(s.p, poly[0] * s.h1);
    Complete(s.p, s.C2, s.h1, gs, poly[0], r);
  }

  /** What verify_sharing checks, with q as the polynomial the degree test draws. */
  ghost predicate SharingOk(s: System, sharing: Sharing, q: seq<int>)
    requires s.Valid()
  {
    && |sharing.encryptions| == |sharing.commitments| == |sharing.proofs| == s.n
    && Passes(s.p, OneTo(s.n), sharing.commitments, q)
    && (forall i :: 0 <= i < s.n ==>
          VerifyDual(s.p, s.D, sharing.proofs[i], s.pks[i], sharing.encryptions[i], s.h1, sharing.commitments[i]))
    && Res(s.p, sharing.decomp.gs) == SecretPoint(s, sharing.commitments)
    && Verify(s.p, s.C2, sharing.decomp.pi, s.h1, SecretPoint(s, sharing.commitments))
  }

  /** The commitments interpolated at zero. */
  function SecretPoint(s: System, commitments: seq<int>): int
    requires Prime(s.p) && s.f < |commitments|
  {
    Res(s.p, AtZero(s.p, OneTo(s.f + 1), commitments[..s.f + 1]))
  }

  lemma OneToNonzero(p: nat, n: nat)
    requires p > 0 && n < p
    ensures Nonzero(p, OneTo(n)) && Distinct(p, OneTo(n))
  {
    OneToDistinct(p, n);
    hide Res, Distinct;
    forall i | 0 <= i < n
      ensures Res(p, OneTo(n)[i]) != 0
    {
      SmallNonzero(p, i + 1);
    }
  }

  /** On a polynomial of degree f, the interpolated commitment is the constant term. */
  lemma SecretPointIs(s: System, commitments: seq<int>, c: seq<int>)
    requires s.Valid() && |commitments| == s.n && |c| == s.f + 1 && Fits(s.p, OneTo(s.n), commitments, c)
    ensures SecretPoint(s, commitments) == Res(s.p, c[0])
  {
    hide Res, Prime, Eval, AtZero, Distinct, Nonzero;
    PositiveModulus(s);
    OneToNonzero(s.p, s.f + 1);
    var xs, ys := OneTo(s.f + 1), commitments[..s.f + 1];
    forall i | 0 <= i < s.f + 1
      ensures Res(s.p, ys[i]) == Res(s.p, Eval(c, xs[i]))
    {
      assert xs[i] == OneTo(s.n)[i];
    }
    InterpolationRecovers(s.p, xs, ys, c);
  }

  lemma PositiveModulus(s: System)
    requires s.Valid()
    ensures s.p > 0 && Prime(s.p) && s.f + 2 <= s.n < s.p
  {}

  /** A created sharing passes verify_sharing, whatever polynomial the degree test draws. */
  lemma HonestSharingVerifies(s: System, poly: seq<int>, rs: seq<int>, r: int, sharing: Sharing, q: seq<int>)
    requires s.Valid() && Created(s, poly, rs, r, sharing) && |q| == s.n - s.f - 1
    ensures SharingOk(s, sharing, q)
  {
    hide Res, Prime, Eval, Prove, ProveDual, Verify, VerifyDual, Passes, Scale, AtZero, Distinct;
    PositiveModulus(s);
    var c := Scale(s.h1, poly);
    CreatedConsistent(s, poly, rs, r, sharing);
    SecretPointIs(s, sharing.commitments, c);
    OneToDistinct(s.p, s.n);
    LowDegreePasses(s.p, OneTo(s.n), sharing.commitments, c, q);
    forall i | 0 <= i < s.n
      ensures VerifyDual(s.p, s.D, sharing.proofs[i], s.pks[i], sharing.encryptions[i], s.h1, sharing.commitments[i])
    {
      assert ShareAt(s, poly, rs, sharing, i);
      var x := Res(s.p, Eval(poly, i + 1));
      SharePaired(s.p, x, s.pks[i], s.h1, sharing.commitments[i], sharing.encryptions[i]);
      CompleteDual(s.p, s.D, s.pks[i], sharing.encryptions[i], s.h1, sharing.commitments[i], x, rs[i]);
    }
    ResRes(s.p, poly[0] * s.h1);
  }

  predicate SharingSized(s: System, sharing: Sharing) {
    |sharing.encryptions| == |sharing.commitments| == |sharing.proofs| == s.n
  }

  ghost predicate AlwaysVerifies(s: System, sharing: Sharing)
    requires s.Valid()
  {
    forall q :: |q| == s.n - s.f - 1 ==> SharingOk(s, sharing, q)
  }

  /** All proofs verify, and the commitments lie on the polynomial c with gs as its constant term. */
  ghost predicate Deals(s: System, sharing: Sharing, c: seq<int>)
    requires s.Valid() && SharingSized(s, sharing)
  {
    && |c| == s.f + 1 && Fits(s.p, OneTo(s.n), sharing.commitments, c)
    && Res(s.p, sharing.decomp.gs) == Res(s.p, c[0])
    && ProofsVerify(s, sharing)
  }

  ghost predicate ProofsVerify(s: System, sharing: Sharing)
    requires s.Valid() && SharingSized(s, sharing)
  {
    && (forall i :: 0 <= i < s.n ==>
          VerifyDual(s.p, s.D, sharing.proofs[i], s.pks[i], sharing.encryptions[i], s.h1, sharing.commitments[i]))
    && Verify(s.p, s.C2, sharing.decomp.pi, s.h1, Res(s.p, sharing.decomp.gs))
  }

  lemma SharingParts(s: System, sharing: Sharing, q: seq<int>)
    requires s.Valid() && SharingSized(s, sharing)
    ensures SharingOk(s, sharing, q) <==>
      && Passes(s.p, OneTo(s.n), sharing.commitments, q) && ProofsVerify(s, sharing)
      && Res(s.p, sharing.decomp.gs) == SecretPoint(s, sharing.commitments)
  {
    hide Prime, Res, Passes, Verify, VerifyDual, SecretPoint;
  }

  /**
   A sharing passes verify_sharing for every drawn polynomial exactly when its commitments lie on one polynomial of
   degree f with gs as its constant term and all its proofs verify.
   */
  lemma SharingDecides(s: System, sharing: Sharing)
    requires s.Valid() && SharingSized(s, sharing)
    ensures AlwaysVerifies(s, sharing) <==> exists c :: Deals(s, sharing, c)
  {
    PositiveModulus(s);
    OneToDistinct(s.p, s.n);
    hide Prime, Res, Passes, Distinct, Fits, ProofsVerify, SharingOk, SecretPoint;
    var xs, coms := OneTo(s.n), sharing.commitments;
    if AlwaysVerifies(s, sharing) {
      forall q: seq<int> | |q| == s.n - s.f - 1
        ensures Passes(s.p, xs, coms, q)
      {
        assert SharingOk(s, sharing, q);
        SharingParts(s, sharing, q);
      }
      var c := PassingFits(s.p, xs, coms, s.f);
      SecretPointIs(s, coms, c);
      var q0 := seq(s.n - s.f - 1, _ => 0);
      assert SharingOk(s, sharing, q0);
      SharingParts(s, sharing, q0);
      assert Deals(s, sharing, c);
    }
    if c :| Deals(s, sharing, c) {
      SecretPointIs(s, coms, c);
      forall q: seq<int> | |q| == s.n - s.f - 1
        ensures SharingOk(s, sharing, q)
      {
        LowDegreePasses(s.p, xs, coms, c, q);
        SharingParts(s, sharing, q);
      }
    }
  }

  /** x is the share of replica i: its encryption and its commitment carry the same value. */
  ghost predicate ShareOf(s: System, sharing: Sharing, i: nat, x: int)
    requires s.Valid() && SharingSized(s, sharing) && i < s.n
  {
    Res(s.p, sharing.encryptions[i]) == Res(s.p, x * s.pks[i]) && Res(s.p, sharing.commitments[i]) == Res(s.p, x * s.h1)
  }

  ghost predicate SharesAre(s: System, sharing: Sharing, xs: seq<int>)
    requires s.Valid() && SharingSized(s, sharing)
  {
    |xs| == s.n && forall i :: 0 <= i < s.n ==> ShareOf(s, sharing, i, xs[i])
  }

  ghost predicate KnowsShares(s: System, sharing: Sharing)
    requires s.Valid() && SharingSized(s, sharing)
  {
    exists xs :: SharesAre(s, sharing, xs)
  }

  /** The prover of share i has answered two different challenges on the same commitments. */
  ghost predicate AnsweredTwice(s: System, sharing: Sharing, D: DualChallenge, proofs: seq<DualProof>, i: nat)
    requires s.Valid() && SharingSized(s, sharing) && i < s.n == |proofs|
  {
    var (proof, pk, enc, com) := (sharing.proofs[i], s.pks[i], sharing.encryptions[i], sharing.commitments[i]);
    && proof.gra == proofs[i].gra && proof.grb == proofs[i].grb
    && VerifyDual(s.p, s.D, proof, pk, enc, s.h1, com) && VerifyDual(s.p, D, proofs[i], pk, enc, s.h1, com)
    && Res(s.p, s.D(pk, enc, s.h1, com, proof.gra, proof.grb) - D(pk, enc, s.h1, com, proof.gra, proof.grb)) != 0
  }

  function ExtractedShare(s: System, sharing: Sharing, D: DualChallenge, proofs: seq<DualProof>, i: nat): int
    requires s.Valid() && SharingSized(s, sharing) && i < s.n == |proofs| && AnsweredTwice(s, sharing, D, proofs, i)
  {
    var (proof, pk, enc, com) := (sharing.proofs[i], s.pks[i], sharing.encryptions[i], sharing.commitments[i]);
    var c, c' := s.D(pk, enc, s.h1, com, proof.gra, proof.grb), D(pk, enc, s.h1, com, proof.gra, proof.grb);
    Extract(s.p, proof.pi, proofs[i].pi, c, c')
  }

  /** Whoever can answer twice knows the shares. */
  lemma SharesExtracted(s: System, sharing: Sharing, D: DualChallenge, proofs: seq<DualProof>)
    requires s.Valid() && SharingSized(s, sharing) && |proofs| == s.n
    requires forall i :: 0 <= i < s.n ==> AnsweredTwice(s, sharing, D, proofs, i)
    ensures KnowsShares(s, sharing)
  {
    hide Res, Prime, VerifyDual, Extract;
    PositiveModulus(s);
    var xs := seq(s.n, i requires 0 <= i < s.n => ExtractedShare(s, sharing, D, proofs, i));
    forall i | 0 <= i < s.n
      ensures ShareOf(s, sharing, i, xs[i])
    {
      assert AnsweredTwice(s, sharing, D, proofs, i);
      SoundDual(s.p, s.D, D, sharing.proofs[i], proofs[i], s.pks[i], sharing.encryptions[i], s.h1,
                sharing.commitments[i]);
    }
    assert SharesAre(s, sharing, xs);
  }

  lemma ValuePaired(p: nat, x: int, pk: int, h: int, com: int, enc: int)
    requires p > 0 && Res(p, com) == Res(p, x * h) && Res(p, enc) == Res(p, x * pk)
    ensures Res(p, pk * com) == Res(p, enc * h)
  {
    hide Res;
    ResMul(p, pk, pk, com, x * h);
    ResMul(p, enc, x * pk, h, h);
    assert pk * (x * h) == (x * pk) * h;
  }

  lemma SharesPaired(s: System, sharing: Sharing)
    requires s.Valid() && SharingSized(s, sharing) && KnowsShares(s, sharing)
    ensures forall i :: 0 <= i < s.n ==> Paired(s, sharing.encryptions, sharing.commitments, i)
  {
    hide Res, Prime;
    var xs :| SharesAre(s, sharing, xs);
    forall i | 0 <= i < s.n
      ensures Paired(s, sharing.encryptions, sharing.commitments, i)
    {
      assert ShareOf(s, sharing, i, xs[i]);
      ValuePaired(s.p, xs[i], s.pks[i], s.h1, sharing.commitments[i], sharing.encryptions[i]);
    }
  }

  /** A sharing that always verifies and whose dealer knows the shares carries one polynomial in all its parts. */
  lemma VerifiedConsistent(s: System, sharing: Sharing) returns (c: seq<int>)
    requires s.Valid() && SharingSized(s, sharing) && AlwaysVerifies(s, sharing) && KnowsShares(s, sharing)
    requires Res(s.p, sharing.decomp.gs) == sharing.decomp.gs
    ensures Consistent(s, sharing, c)
  {
    hide Res, Prime, Fits, AlwaysVerifies, KnowsShares, Verify, VerifyDual, Paired;
    SharingDecides(s, sharing);
    c :| Deals(s, sharing, c);
    SharesPaired(s, sharing);
  }

  /** Two accepted sharings with the same points and commitments, and different challenges, give the shares away. */
  lemma AcceptedTwice(s: System, sharing: Sharing, q: seq<int>, D: DualChallenge, proofs: seq<DualProof>, q': seq<int>)
    requires s.Valid() && SharingOk(s, sharing, q) && SharingOk(s.(D := D), sharing.(proofs := proofs), q')
    requires forall i :: 0 <= i < s.n ==> OtherChallenge(s, sharing, D, proofs, i)
    ensures KnowsShares(s, sharing)
  {
    hide Res, Prime, VerifyDual, Passes, Verify, SecretPoint;
    forall i | 0 <= i < s.n
      ensures AnsweredTwice(s, sharing, D, proofs, i)
    {
      assert OtherChallenge(s, sharing, D, proofs, i);
    }
    SharesExtracted(s, sharing, D, proofs);
  }

  ghost predicate OtherChallenge(s: System, sharing: Sharing, D: DualChallenge, proofs: seq<DualProof>, i: nat)
    requires s.Valid() && SharingSized(s, sharing) && i < s.n == |proofs|
  {
    var (proof, pk, enc, com) := (sharing.proofs[i], s.pks[i], sharing.encryptions[i], sharing.commitments[i]);
    && proof.gra == proofs[i].gra && proof.grb == proofs[i].grb
    && Res(s.p, s.D(pk, enc, s.h1, com, proof.gra, proof.grb) - D(pk, enc, s.h1, com, proof.gra, proof.grb)) != 0
  }

  /** A sharing as it is transmitted: every group and field element in its one representation. */
  predicate ReducedSharing(s: System, sharing: Sharing)
    requires s.p > 0 && SharingSized(s, sharing)
  {
    && (forall i :: 0 <= i < s.n ==> Reduced(s.p, sharing.encryptions[i]) && Reduced(s.p, sharing.commitments[i]))
    && (forall i :: 0 <= i < s.n ==> ReducedProof(s.p, sharing.proofs[i]))
    && Reduced(s.p, sharing.decomp.gs) && Reduced(s.p, sharing.decomp.pi.gr) && Reduced(s.p, sharing.decomp.pi.pi)
  }

  predicate ReducedProof(p: nat, proof: DualProof)
    requires p > 0
  {
    Reduced(p, proof.gra) && Reduced(p, proof.grb) && Reduced(p, proof.pi)
  }

  /** The polynomial in the field, from that in the exponent of h1. */
  function Unscaled(s: System, c: seq<int>): seq<int>
    requires s.Valid()
  {
    Scale(Inv(s.p, s.h1), c)
  }

  lemma UnscaledValue(p: nat, h: int, i: int, x: int, com: int, e: int)
    requires Prime(p) && p > 0 && Res(p, h) != 0 && i == Inv(p, h)
    requires Res(p, com) == Res(p, x * h) && Res(p, com) == Res(p, e)
    ensures Res(p, x) == Res(p, i * e)
  {
    hide Res, Prime, Inv;
    InvInverts(p, h);
    ResMul(p, i, i, e, x * h);
    ResMul(p, h * i, 1, x, x);
    assert i * (x * h) == (h * i) * x && 1 * x == x;
  }

  /** A share with the value of the polynomial, and a proof that passes, is one that the dealer can have made. */
  lemma ShareHonest(s: System, poly: seq<int>, sharing: Sharing, i: nat, x: int) returns (r: int)
    requires s.Valid() && SharingSized(s, sharing) && ReducedSharing(s, sharing) && i < s.n
    requires ShareOf(s, sharing, i, x) && Res(s.p, x) == Res(s.p, Eval(poly, i + 1))
    requires VerifyDual(s.p, s.D, sharing.proofs[i], s.pks[i], sharing.encryptions[i], s.h1, sharing.commitments[i])
    ensures ShareMade(s, poly, sharing, i, r)
  {
    hide Res, Prime, Eval, VerifyDual, ProveDual;
    PositiveModulus(s);
    var v := Res(s.p, Eval(poly, i + 1));
    ResRes(s.p, Eval(poly, i + 1));
    ResMul(s.p, x, v, s.pks[i], s.pks[i]);
    ResMul(s.p, x, v, s.h1, s.h1);
    assert ReducedProof(s.p, sharing.proofs[i]);
    EveryDualProofHonest(s.p, s.D, sharing.proofs[i], s.pks[i], sharing.encryptions[i], s.h1,
                         sharing.commitments[i], v);
    r :| sharing.proofs[i]
         == ProveDual(s.p, s.D, s.pks[i], sharing.encryptions[i], s.h1, sharing.commitments[i], v, r);
  }

  ghost predicate ShareMade(s: System, poly: seq<int>, sharing: Sharing, i: nat, r: int)
    requires s.Valid() && SharingSized(s, sharing) && i < s.n
  {
    var x := Res(s.p, Eval(poly, i + 1));
    && sharing.commitments[i] == Res(s.p, x * s.h1)
    && sharing.encryptions[i] == Res(s.p, x * s.pks[i])
    && sharing.proofs[i] == ProveDual(s.p, s.D, s.pks[i], sharing.encryptions[i], s.h1, sharing.commitments[i], x, r)
  }

  lemma SharesHonest(s: System, sharing: Sharing, c: seq<int>, xs: seq<int>) returns (rs: seq<int>)
    requires s.Valid() && SharingSized(s, sharing) && ReducedSharing(s, sharing)
    requires Deals(s, sharing, c) && SharesAre(s, sharing, xs)
    ensures |rs| == s.n && forall i :: 0 <= i < s.n ==> ShareMade(s, Unscaled(s, c), sharing, i, rs[i])
  {
    hide Res, Prime, Eval, VerifyDual, ProveDual, Inv, Scale, ShareMade, ReducedSharing, Verify;
    PositiveModulus(s);
    var poly := Unscaled(s, c);
    rs := [];
    for i := 0 to s.n
      invariant |rs| == i && forall k :: 0 <= k < i ==> ShareMade(s, poly, sharing, k, rs[k])
    {
      assert ShareOf(s, sharing, i, xs[i]) && OneTo(s.n)[i] == i + 1;
      EvalScale(Inv(s.p, s.h1), c, i + 1);
      UnscaledValue(s.p, s.h1, Inv(s.p, s.h1), xs[i], sharing.commitments[i], Eval(c, i + 1));
      var r := ShareHonest(s, poly, sharing, i, xs[i]);
      rs := rs + [r];
    }
  }

  lemma DecompositionHonest(s: System, sharing: Sharing, c: seq<int>) returns (r: int)
    requires s.Valid() && SharingSized(s, sharing) && ReducedSharing(s, sharing) && Deals(s, sharing, c)
    ensures c != [] && sharing.decomp == GenerateDecomposition(s, Unscaled(s, c), r)
  {
    hide Res, Prime, Verify, Prove, Inv, Scale, Eval, VerifyDual;
    PositiveModulus(s);
    var gs, i, decomp := sharing.decomp.gs, Inv(s.p, s.h1), sharing.decomp;
    var x := i * c[0];
    ScaledConstant(i, c);
    InvInverts(s.p, s.h1);
    ResMul(s.p, s.h1 * i, 1, c[0], c[0]);
    assert x * s.h1 == (s.h1 * i) * c[0] && 1 * c[0] == c[0] by {
      assert (i * c[0]) * s.h1 == (s.h1 * i) * c[0];
    }
    EveryProofHonest(s.p, s.C2, decomp.pi, s.h1, gs, x);
    r :| decomp.pi == Prove(s.p, s.C2, s.h1, gs, x, r);
  }

  lemma CreatedKnown(s: System, poly: seq<int>, rs: seq<int>, r: int, sharing: Sharing)
    requires s.Valid() && Created(s, poly, rs, r, sharing)
    ensures KnowsShares(s, sharing)
  {
    hide Res, Prime, Eval, ProveDual, Prove;
    PositiveModulus(s);
    var xs := seq(s.n, i requires 0 <= i < s.n => Res(s.p, Eval(poly, i + 1)));
    forall i | 0 <= i < s.n
      ensures ShareOf(s, sharing, i, xs[i])
    {
      assert ShareAt(s, poly, rs, sharing, i);
      SharePaired(s.p, xs[i], s.pks[i], s.h1, sharing.commitments[i], sharing.encryptions[i]);
    }
    assert SharesAre(s, sharing, xs);
  }

  /**
   A sharing passes verify_sharing for every drawn polynomial, and its dealer knows the shares, exactly when it is what
   create_sharing makes of some polynomial and some random elements.
   */
  lemma EverySharingHonest(s: System, sharing: Sharing)
    requires s.Valid() && SharingSized(s, sharing) && ReducedSharing(s, sharing)
    ensures AlwaysVerifies(s, sharing) && KnowsShares(s, sharing)
       <==> exists poly, rs, r :: Created(s, poly, rs, r, sharing)
  {
    hide Res, Prime, Eval, Prove, ProveDual, Verify, VerifyDual, Passes, Scale, Inv, Deals, ReducedSharing;
    hide SharingOk, GenerateDecomposition;
    if AlwaysVerifies(s, sharing) && KnowsShares(s, sharing) {
      SharingDecides(s, sharing);
      var c :| Deals(s, sharing, c);
      var xs :| SharesAre(s, sharing, xs);
      var rs := SharesHonest(s, sharing, c, xs);
      var r := DecompositionHonest(s, sharing, c);
      MakeCreated(s, sharing, c, rs, r);
    }
    if poly, rs, r :| Created(s, poly, rs, r, sharing) {
      CreatedKnown(s, poly, rs, r, sharing);
      forall q: seq<int> | |q| == s.n - s.f - 1
        ensures SharingOk(s, sharing, q)
      {
        HonestSharingVerifies(s, poly, rs, r, sharing, q);
      }
    }
  }

  lemma MakeCreated(s: System, sharing: Sharing, c: seq<int>, rs: seq<int>, r: int)
    requires s.Valid() && SharingSized(s, sharing) && Deals(s, sharing, c) && |rs| == s.n
    requires forall i :: 0 <= i < s.n ==> ShareMade(s, Unscaled(s, c), sharing, i, rs[i])
    requires c != [] && sharing.decomp == GenerateDecomposition(s, Unscaled(s, c), r)
    ensures Created(s, Unscaled(s, c), rs, r, sharing)
  {
    hide Res, Prime, Eval, Prove, ProveDual, Verify, VerifyDual, Inv, GenerateDecomposition;
    var poly := Unscaled(s, c);
    forall i | 0 <= i < s.n
      ensures ShareAt(s, poly, rs, sharing, i)
    {
      assert ShareMade(s, poly, sharing, i, rs[i]);
    }
  }

  /** Every random element enters its own proof: two sharings of a polynomial differ where their random elements do. */
  lemma NoncesEnter(s: System, poly: seq<int>, rs: seq<int>, r: int, sharing: Sharing,
                    rs': seq<int>, r': int, sharing': Sharing)
    requires s.Valid() && Created(s, poly, rs, r, sharing) && Created(s, poly, rs', r', sharing')
    ensures forall i :: 0 <= i < s.n ==>
      (sharing.proofs[i].grb == sharing'.proofs[i].grb <==> Res(s.p, rs[i]) == Res(s.p, rs'[i]))
    ensures sharing.decomp.pi.gr == sharing'.decomp.pi.gr <==> Res(s.p, r) == Res(s.p, r')
  {
    hide Res, Prime, Eval;
    PositiveModulus(s);
    forall i | 0 <= i < s.n
      ensures sharing.proofs[i].grb == sharing'.proofs[i].grb <==> Res(s.p, rs[i]) == Res(s.p, rs'[i])
    {
      assert ShareAt(s, poly, rs, sharing, i) && ShareAt(s, poly, rs', sharing', i);
      SameProduct(s.p, s.h1, rs[i], rs'[i]);
    }
    SameProduct(s.p, s.h1, r, r');
  }
}
