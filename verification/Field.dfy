/**
 The prime field Fr. An element is an integer, and two integers stand for the same element when their residues
 modulo the prime p agree.
 */
module Field {

  ghost predicate Prime(p: nat) {
    p >= 2 && forall d :: 2 <= d < p ==> p % d != 0
  }

  lemma PrimePositive(p: nat)
    requires Prime(p)
    ensures p >= 2
  {}

  /** The canonical representative of an element. */
  function Res(p: nat, a: int): (r: int)
    requires p > 0
    ensures 0 <= r < p
  {
    a % p
  }

  lemma UniqueResidue(p: nat, a: int, k: int, r: int)
    requires p > 0 && 0 <= r < p && a == k * p + r
    ensures Res(p, a) == r
  {
    var d := a / p - k;
    assert a == p * (a / p) + a % p;
    assert d * p == r - a % p by {
      assert d * p == (a / p) * p - k * p;
    }
    assert d >= 1 ==> d * p >= p;
    assert d <= -1 ==> d * p <= -1 * p;
  }

  /** a and b differ by k times p. */
  lemma SameResidue(p: nat, a: int, b: int, k: int)
    requires p > 0 && a == b + k * p
    ensures Res(p, a) == Res(p, b)
  {
    assert b == p * (b / p) + b % p;
    assert a == (k + b / p) * p + b % p by {
      assert (k + b / p) * p == k * p + (b / p) * p;
    }
    UniqueResidue(p, a, k + b / p, b % p);
  }

  lemma Difference(p: nat, a: int, b: int) returns (k: int)
    requires p > 0 && Res(p, a) == Res(p, b)
    ensures a == b + k * p
  {
    k := a / p - b / p;
    assert k * p == (a / p) * p - (b / p) * p;
  }

  lemma ResAdd(p: nat, a: int, a': int, b: int, b': int)
    requires p > 0 && Res(p, a) == Res(p, a') && Res(p, b) == Res(p, b')
    ensures Res(p, a + b) == Res(p, a' + b') && Res(p, a - b) == Res(p, a' - b')
  {
    hide Res;
    var k := Difference(p, a, a');
    var m := Difference(p, b, b');
    assert (k + m) * p == k * p + m * p && (k - m) * p == k * p - m * p;
    SameResidue(p, a + b, a' + b', k + m);
    SameResidue(p, a - b, a' - b', k - m);
  }

  /** Two elements are equal exactly when their difference vanishes. */
  lemma ResEqual(p: nat, a: int, b: int)
    requires p > 0
    ensures Res(p, a) == Res(p, b) <==> Res(p, a - b) == 0
  {
    hide Res;
    ResRes(p, 0);
    if Res(p, a) == Res(p, b) {
      ResAdd(p, a, b, b, b);
    }
    if Res(p, a - b) == 0 {
      ResAdd(p, a - b, 0, b, b);
    }
  }

  lemma ResMul(p: nat, a: int, a': int, b: int, b': int)
    requires p > 0 && Res(p, a) == Res(p, a') && Res(p, b) == Res(p, b')
    ensures Res(p, a * b) == Res(p, a' * b')
  {
    hide Res;
    var k := Difference(p, a, a');
    var m := Difference(p, b, b');
    calc {
      a * b;
      (a' + k * p) * (b' + m * p);
      a' * b' + a' * (m * p) + (k * p) * b' + (k * p) * (m * p);
      a' * b' + (a' * m) * p + (k * b') * p + (k * m * p) * p;
      a' * b' + (a' * m + k * b' + k * m * p) * p;
    }
    SameResidue(p, a * b, a' * b', a' * m + k * b' + k * m * p);
  }

  lemma ResRes(p: nat, a: int)
    requires p > 0
    ensures Res(p, Res(p, a)) == Res(p, a)
    ensures 0 <= a < p ==> Res(p, a) == a
  {
    UniqueResidue(p, Res(p, a), 0, Res(p, a));
    if 0 <= a < p {
      UniqueResidue(p, a, 0, a);
    }
  }

  /** The inverse of a for 0 < a < p, by Euclid's rule: modulo p, a * -(p / a) is p % a. */
  function InvBelow(p: nat, a: nat): (r: int)
    requires Prime(p) && 0 < a < p
    ensures 0 <= r < p
    decreases a
  {
    if a == 1 then 1 else Res(p, (p - p / a) * InvBelow(p, p % a))
  }

  lemma EuclidStep(p: nat, a: nat, q: nat, r: nat, i: int)
    requires p == a * q + r
    ensures a * ((p - q) * i) == r * i + ((a - 1) * i) * p
  {
    calc {
      a * ((p - q) * i);
      (a * p - a * q) * i;
      (r + (a - 1) * p) * i;
      r * i + ((a - 1) * p) * i;
      r * i + ((a - 1) * i) * p;
    }
  }

  lemma InvStep(p: nat, a: nat, q: nat, r: nat, i: int, v: int)
    requires p > 0 && p == a * q + r && v == Res(p, (p - q) * i) && Res(p, r * i) == Res(p, 1)
    ensures Res(p, a * v) == Res(p, 1)
  {
    hide Res;
    ResRes(p, (p - q) * i);
    ResMul(p, a, a, v, (p - q) * i);
    EuclidStep(p, a, q, r, i);
    SameResidue(p, a * ((p - q) * i), r * i, (a - 1) * i);
  }

  lemma DivideBy(p: nat, a: nat)
    requires Prime(p) && 1 < a < p
    ensures 0 < p % a < a && p == a * (p / a) + p % a && p / a >= 0
  {}

  lemma {:induction false} InvBelowInverts(p: nat, a: nat)
    requires Prime(p) && 0 < a < p
    ensures Res(p, a * InvBelow(p, a)) == Res(p, 1)
    decreases a
  {
    if a > 1 {
      DivideBy(p, a);
      InvBelowInverts(p, p % a);
      hide Res, Prime;
      InvStep(p, a, p / a, p % a, InvBelow(p, p % a), InvBelow(p, a));
    }
  }

  /** inverse; the source asserts that its argument is not zero. */
  function Inv(p: nat, a: int): (r: int)
    requires Prime(p) && Res(p, a) != 0
    ensures 0 <= r < p
  {
    InvBelow(p, Res(p, a))
  }

  lemma InvInverts(p: nat, a: int)
    requires Prime(p) && Res(p, a) != 0
    ensures Res(p, a * Inv(p, a)) == Res(p, 1) == 1
  {
    var i := Inv(p, a);
    InvBelowInverts(p, Res(p, a));
    assert i == InvBelow(p, Res(p, a));
    hide Inv, InvBelow;
    ResRes(p, a);
    ResRes(p, 1);
    ResMul(p, a, Res(p, a), i, i);
  }

  /** A field has no zero divisors. */
  lemma NoZeroDivisors(p: nat, a: int, b: int)
    requires Prime(p) && Res(p, a) != 0 && Res(p, a * b) == 0
    ensures Res(p, b) == 0
  {
    hide Res, Prime, Inv;
    var i := Inv(p, a);
    InvInverts(p, a);
    ResRes(p, 0);
    ResMul(p, a * b, 0, i, i);
    assert (a * b) * i == (a * i) * b && 0 * i == 0 && 1 * b == b;
    ResMul(p, a * i, 1, b, b);
  }

  /** Equal products with a common nonzero factor. */
  lemma Cancel(p: nat, a: int, b: int, c: int)
    requires Prime(p) && Res(p, a) != 0 && Res(p, a * b) == Res(p, a * c)
    ensures Res(p, b) == Res(p, c)
  {
    hide Res, Prime;
    ResAdd(p, a * b, a * c, a * c, a * c);
    assert a * b - a * c == a * (b - c) && a * c - a * c == 0;
    ResRes(p, 0);
    NoZeroDivisors(p, a, b - c);
    ResAdd(p, b - c, 0, c, c);
    assert b - c + c == b && 0 + c == c;
  }
}
