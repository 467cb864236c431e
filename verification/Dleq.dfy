/**
 Proofs of knowledge of a discrete logarithm, and of equality of two. Group elements are their exponents, so that
 scalar multiplication is multiplication in the field. The hash of the transcript to a challenge is any function of
 what is hashed, and the random element drawn by the prover is a parameter.
 */
module Dleq {
  import opened Field

  /** The challenge for g, gx and gr. */
  type Challenge = (int, int, int) -> int

  /** The challenge for g, gx, h, hx, gra and grb. */
  type DualChallenge = (int, int, int, int, int, int) -> int

  datatype Proof = Proof(gr: int, pi: int)

  datatype DualProof = DualProof(gra: int, grb: int, pi: int)

  function Prove(p: nat, C: Challenge, g: int, gx: int, x: int, r: int): Proof
    requires p > 0
  {
    var gr := Res(p, r * g);
    var c := C(g, gx, gr);
    Proof(gr, Res(p, r + x * c))
  }

  predicate Verify(p: nat, C: Challenge, proof: Proof, g: int, gx: int)
    requires p > 0
  {
    var c := C(g, gx, proof.gr);
    Res(p, proof.pi * g) == Res(p, proof.gr + c * gx)
  }

  function ProveDual(p: nat, D: DualChallenge, g: int, gx: int, h: int, hx: int, x: int, r: int): DualProof
    requires p > 0
  {
    var gra, grb := Res(p, r * g), Res(p, r * h);
    var c := D(g, gx, h, hx, gra, grb);
    DualProof(gra, grb, Res(p, r + x * c))
  }

  predicate VerifyDual(p: nat, D: DualChallenge, proof: DualProof, g: int, gx: int, h: int, hx: int)
    requires p > 0
  {
    var c := D(g, gx, h, hx, proof.gra, proof.grb);
    && Res(p, proof.pi * g) == Res(p, proof.gra + c * gx)
    && Res(p, proof.pi * h) == Res(p, proof.grb + c * hx)
  }

  /** The verification equation of an honest answer. */
  lemma Answer(p: nat, g: int, gx: int, x: int, r: int, c: int)
    requires p > 0 && Res(p, gx) == Res(p, x * g)
    ensures Res(p, Res(p, r + x * c) * g) == Res(p, Res(p, r * g) + c * gx)
  {
    hide Res;
    ResRes(p, r + x * c);
    ResMul(p, Res(p, r + x * c), r + x * c, g, g);
    ResRes(p, r * g);
    ResMul(p, c, c, gx, x * g);
    ResAdd(p, Res(p, r * g), r * g, c * gx, c * (x * g));
    assert (r + x * c) * g == r * g + c * (x * g) by {
      assert (x * c) * g == c * (x * g);
    }
  }

  lemma Complete(p: nat, C: Challenge, g: int, gx: int, x: int, r: int)
    requires p > 0 && Res(p, gx) == Res(p, x * g)
    ensures Verify(p, C, Prove(p, C, g, gx, x, r), g, gx)
  {
    hide Res;
    Answer(p, g, gx, x, r, C(g, gx, Res(p, r * g)));
  }

  lemma CompleteDual(p: nat, D: DualChallenge, g: int, gx: int, h: int, hx: int, x: int, r: int)
    requires p > 0 && Res(p, gx) == Res(p, x * g) && Res(p, hx) == Res(p, x * h)
    ensures VerifyDual(p, D, ProveDual(p, D, g, gx, h, hx, x, r), g, gx, h, hx)
  {
    hide Res;
    var c := D(g, gx, h, hx, Res(p, r * g), Res(p, r * h));
    Answer(p, g, gx, x, r, c);
    Answer(p, h, hx, x, r, c);
  }

  /** The logarithm that two answers to different challenges give away. */
  function Extract(p: nat, s: int, s': int, c: int, c': int): int
    requires Prime(p) && Res(p, c - c') != 0
  {
    (s - s') * Inv(p, c - c')
  }

  lemma ExtractStep(p: nat, g: int, gx: int, gr: int, s: int, s': int, c: int, c': int)
    requires Prime(p) && Res(p, c - c') != 0
    requires Res(p, s * g) == Res(p, gr + c * gx) && Res(p, s' * g) == Res(p, gr + c' * gx)
    ensures Res(p, gx) == Res(p, Extract(p, s, s', c, c') * g)
  {
    assert p > 0;
    var d, i := c - c', Inv(p, c - c');
    assert Extract(p, s, s', c, c') == (s - s') * i;
    hide Res, Inv, Prime, Extract;
    InvInverts(p, d);
    ResAdd(p, s * g, gr + c * gx, s' * g, gr + c' * gx);
    assert s * g - s' * g == (s - s') * g && (gr + c * gx) - (gr + c' * gx) == d * gx;
    ResMul(p, (s - s') * g, d * gx, i, i);
    ResMul(p, d * i, 1, gx, gx);
    Rearrange(s - s', g, i, d, gx);
  }

  lemma Rearrange(s: int, g: int, i: int, d: int, x: int)
    ensures (s * g) * i == (s * i) * g && (d * x) * i == (d * i) * x && 1 * x == x
  {}

  /** Special soundness: with the same commitment but another challenge, two accepted proofs give the logarithm away. */
  lemma Sound(p: nat, C: Challenge, C': Challenge, proof: Proof, proof': Proof, g: int, gx: int)
    requires Prime(p) && proof.gr == proof'.gr
    requires Res(p, C(g, gx, proof.gr) - C'(g, gx, proof.gr)) != 0
    requires Verify(p, C, proof, g, gx) && Verify(p, C', proof', g, gx)
    ensures Res(p, gx) == Res(p, Extract(p, proof.pi, proof'.pi, C(g, gx, proof.gr), C'(g, gx, proof.gr)) * g)
  {
    hide Res, Prime, Extract;
    ExtractStep(p, g, gx, proof.gr, proof.pi, proof'.pi, C(g, gx, proof.gr), C'(g, gx, proof.gr));
  }

  /** The same logarithm comes out for both pairs. */
  lemma SoundDual(p: nat, D: DualChallenge, D': DualChallenge, proof: DualProof, proof': DualProof,
                  g: int, gx: int, h: int, hx: int)
    requires Prime(p) && proof.gra == proof'.gra && proof.grb == proof'.grb
    requires var c, c' := D(g, gx, h, hx, proof.gra, proof.grb), D'(g, gx, h, hx, proof.gra, proof.grb);
      Res(p, c - c') != 0
    requires VerifyDual(p, D, proof, g, gx, h, hx) && VerifyDual(p, D', proof', g, gx, h, hx)
    ensures var c, c' := D(g, gx, h, hx, proof.gra, proof.grb), D'(g, gx, h, hx, proof.gra, proof.grb);
      var x := Extract(p, proof.pi, proof'.pi, c, c');
      Res(p, gx) == Res(p, x * g) && Res(p, hx) == Res(p, x * h)
  {
    hide Res, Prime, Extract;
    var c, c' := D(g, gx, h, hx, proof.gra, proof.grb), D'(g, gx, h, hx, proof.gra, proof.grb);
    ExtractStep(p, g, gx, proof.gra, proof.pi, proof'.pi, c, c');
    ExtractStep(p, h, hx, proof.grb, proof.pi, proof'.pi, c, c');
  }

  /** A proof as it is transmitted: elements of the group and of the field in their one representation. */
  predicate Reduced(p: nat, a: int)
    requires p > 0
  {
    Res(p, a) == a
  }

  /** The nonce that a commitment was made with. */
  lemma NonceOf(p: nat, g: int, gr: int) returns (r: int)
    requires Prime(p) && Res(p, g) != 0
    ensures Res(p, r * g) == Res(p, gr)
  {
    hide Res, Prime, Inv;
    PrimePositive(p);
    r := Inv(p, g) * gr;
    InvInverts(p, g);
    ResMul(p, g * Inv(p, g), 1, gr, gr);
    assert r * g == (g * Inv(p, g)) * gr && 1 * gr == gr;
  }

  /** What passes is the one answer to the commitment. */
  lemma OneAnswer(p: nat, g: int, gx: int, x: int, r: int, gr: int, c: int, pi: int)
    requires Prime(p) && Res(p, g) != 0 && Res(p, gx) == Res(p, x * g) && Res(p, r * g) == Res(p, gr)
    ensures p > 0 && (Res(p, pi * g) == Res(p, gr + c * gx) <==> Res(p, pi) == Res(p, r + x * c))
  {
    hide Res, Prime;
    PrimePositive(p);
    Answer(p, g, gx, x, r, c);
    ResRes(p, r * g);
    ResRes(p, gr);
    ResRes(p, r + x * c);
    ResAdd(p, Res(p, r * g), gr, c * gx, c * gx);
    var right := Res(p, r + x * c);
    if Res(p, pi) == Res(p, right) {
      ResMul(p, pi, right, g, g);
    }
    if Res(p, pi * g) == Res(p, right * g) {
      assert pi * g == g * pi && right * g == g * right;
      Cancel(p, g, pi, right);
    }
  }

  /** A proof passes exactly when an honest prover who knows the logarithm would give it for some random element. */
  lemma EveryProofHonest(p: nat, C: Challenge, proof: Proof, g: int, gx: int, x: int)
    requires Prime(p) && Res(p, g) != 0 && Res(p, gx) == Res(p, x * g)
    requires Reduced(p, proof.gr) && Reduced(p, proof.pi)
    ensures Verify(p, C, proof, g, gx) <==> exists r :: proof == Prove(p, C, g, gx, x, r)
  {
    hide Res, Prime;
    PrimePositive(p);
    if Verify(p, C, proof, g, gx) {
      var r := NonceOf(p, g, proof.gr);
      OneAnswer(p, g, gx, x, r, proof.gr, C(g, gx, proof.gr), proof.pi);
      assert proof == Prove(p, C, g, gx, x, r);
    }
    if r :| proof == Prove(p, C, g, gx, x, r) {
      Complete(p, C, g, gx, x, r);
    }
  }

  lemma EveryDualProofHonest(p: nat, D: DualChallenge, proof: DualProof, g: int, gx: int, h: int, hx: int, x: int)
    requires Prime(p) && Res(p, h) != 0 && Res(p, gx) == Res(p, x * g) && Res(p, hx) == Res(p, x * h)
    requires Reduced(p, proof.gra) && Reduced(p, proof.grb) && Reduced(p, proof.pi)
    ensures VerifyDual(p, D, proof, g, gx, h, hx) <==> exists r :: proof == ProveDual(p, D, g, gx, h, hx, x, r)
  {
    hide Res, Prime;
    PrimePositive(p);
    if VerifyDual(p, D, proof, g, gx, h, hx) {
      var r := NonceOf(p, h, proof.grb);
      var c := D(g, gx, h, hx, proof.gra, proof.grb);
      OneAnswer(p, h, hx, x, r, proof.grb, c, proof.pi);
      OneCommitment(p, g, gx, x, r, proof.gra, c, proof.pi);
      assert proof == ProveDual(p, D, g, gx, h, hx, x, r);
    }
    if r :| proof == ProveDual(p, D, g, gx, h, hx, x, r) {
      CompleteDual(p, D, g, gx, h, hx, x, r);
    }
  }

  /** The answer fixes the commitment. */
  lemma OneCommitment(p: nat, g: int, gx: int, x: int, r: int, gr: int, c: int, pi: int)
    requires p > 0 && Res(p, gx) == Res(p, x * g) && Res(p, pi) == Res(p, r + x * c)
    requires Res(p, pi * g) == Res(p, gr + c * gx)
    ensures Res(p, gr) == Res(p, r * g)
  {
    hide Res;
    ResMul(p, pi, r + x * c, g, g);
    ResMul(p, c, c, gx, x * g);
    ResAdd(p, gr + c * gx, (r + x * c) * g, c * gx, c * (x * g));
    assert (r + x * c) * g - c * (x * g) == r * g by {
      assert (x * c) * g == c * (x * g);
    }
    assert gr + c * gx - c * gx == gr;
  }

  lemma SameProduct(p: nat, g: int, r: int, r': int)
    requires Prime(p) && Res(p, g) != 0
    ensures p > 0 && (Res(p, r * g) == Res(p, r' * g) <==> Res(p, r) == Res(p, r'))
  {
    hide Res, Prime;
    PrimePositive(p);
    if Res(p, r) == Res(p, r') {
      ResMul(p, r, r', g, g);
    }
    if Res(p, r * g) == Res(p, r' * g) {
      assert r * g == g * r && r' * g == g * r';
      Cancel(p, g, r, r');
    }
  }

  /** The random element enters the commitment: other elements give other commitments. */
  lemma NonceEnters(p: nat, C: Challenge, g: int, gx: int, x: int, r: int, r': int)
    requires Prime(p) && Res(p, g) != 0
    ensures p > 0 && (Prove(p, C, g, gx, x, r).gr == Prove(p, C, g, gx, x, r').gr <==> Res(p, r) == Res(p, r'))
  {
    SameProduct(p, g, r, r');
  }

  lemma NonceEntersDual(p: nat, D: DualChallenge, g: int, gx: int, h: int, hx: int, x: int, r: int, r': int)
    requires Prime(p) && Res(p, h) != 0
    ensures p > 0
    ensures var (a, b) := (ProveDual(p, D, g, gx, h, hx, x, r), ProveDual(p, D, g, gx, h, hx, x, r'));
      && (a.grb == b.grb <==> Res(p, r) == Res(p, r'))
      && (Res(p, g) != 0 ==> (a.gra == b.gra <==> Res(p, r) == Res(p, r')))
  {
    PrimePositive(p);
    hide Res, Prime;
    SameProduct(p, h, r, r');
    if Res(p, g) != 0 {
      SameProduct(p, g, r, r');
    }
  }

  /** And it masks the logarithm: for a given challenge the answer for x is also that for any other x'. */
  lemma AnswerMasked(p: nat, C: Challenge, c: int, g: int, gx: int, x: int, r: int, gx': int, x': int) returns (r': int)
    requires p > 0 && forall a, b, d :: C(a, b, d) == c
    ensures Prove(p, C, g, gx', x', r').pi == Prove(p, C, g, gx, x, r).pi
  {
    hide Res;
    r' := r + x * c - x' * c;
    assert r' + x' * c == r + x * c;
  }

  lemma AnswerMaskedDual(p: nat, D: DualChallenge, c: int, g: int, gx: int, h: int, hx: int, x: int, r: int,
                         gx': int, hx': int, x': int)
    returns (r': int)
    requires p > 0 && forall a, b, d, e, i, j :: D(a, b, d, e, i, j) == c
    ensures ProveDual(p, D, g, gx', h, hx', x', r').pi == ProveDual(p, D, g, gx, h, hx, x, r).pi
  {
    hide Res;
    r' := r + x * c - x' * c;
    assert r' + x' * c == r + x * c;
  }
}
