/** A square root of x modulo CRC24B. */
module SquareRoot {
  import opened BitStrings
  import opened PolynomialRing
  import opened CyclicCode
  import opened SquaringMap
  import opened Polynomials

  ghost function Power(g: Bits, k: nat): (r: Bits)
    requires |g| > 0
    ensures |r| == |g|
  {
    TimesN(g, k, One(g))
  }

  lemma PowerBelowDegree(g: Bits, k: nat)
    requires k < |g|
    ensures Power(g, k) == Zeros(|g| - 1 - k) + [true] + Zeros(k)
  {
    var t := Zeros(|g| - 1 - k) + [true];
    assert One(g) == Zeros(k) + t;
    ShiftWithoutOverflow(g, k, t);
  }

  lemma {:induction false} MulByPower(g: Bits, k: nat, r: Bits)
    requires Residue(g, r)
    ensures Mul(g, r, Power(g, k)) == TimesN(g, k, r)
  {
    hide Mul, Times, Xor;
    if k == 0 {
      RemOfResidue(g, r);
    } else {
      MulByPower(g, k - 1, r);
      MulTimes(g, r, Power(g, k - 1));
    }
  }

  lemma SquareOfPower(g: Bits, k: nat)
    requires |g| > 0
    ensures Square(g, Power(g, k)) == Power(g, k + k)
  {
    MulByPower(g, k, Power(g, k));
    TimesNAdd(g, k, k, One(g));
  }

  ghost predicate OneHot(r: Bits, k: nat) {
    forall i :: 0 <= i < |r| ==> (r[i] <==> i == |r| - 1 - k)
  }

  lemma PowerIsOneHot(g: Bits, k: nat)
    requires k < |g|
    ensures OneHot(Power(g, k), k)
  {
    PowerBelowDegree(g, k);
  }

  lemma SumOfFive(g: Bits, a: Bits, b: Bits, c: Bits, d: Bits, e: Bits)
    requires |g| == |a| == |b| == |c| == |d| == |e| == 24
    requires OneHot(a, 23) && OneHot(b, 5) && OneHot(c, 0) && OneHot(d, 6) && OneHot(e, 1)
    requires forall i :: 0 <= i < 24 ==> (g[i] <==> i == 0 || i == 17 || i == 18 || i == 22 || i == 23)
    ensures g == Xor(Xor(Xor(Xor(a, b), c), d), e)
  {
  }

  lemma Crc24BTerms()
    ensures Power(Crc24B, 24) == Crc24B
    ensures Crc24B == Xor(Xor(Trinomial(), Power(Crc24B, 6)), Power(Crc24B, 1))
  {
    hide Power, OneHot, Xor, One;
    var g := Crc24B;
    PowerIsOneHot(g, 23);
    PowerIsOneHot(g, 6);
    PowerIsOneHot(g, 5);
    PowerIsOneHot(g, 1);
    PowerIsOneHot(g, 0);
    PowerOfDegree(g);
    SumOfFive(g, Power(g, 23), Power(g, 5), One(g), Power(g, 6), Power(g, 1));
  }

  lemma PowerOfDegree(g: Bits)
    requires |g| > 0
    ensures Power(g, |g|) == g && Power(g, 0) == One(g)
  {
    hide Times, One;
    XToTheDegree(g);
  }

  /** x^23 + x^5 + 1, the cofactor of x + 1 in CRC24B. */
  ghost function Trinomial(): (r: Bits)
    ensures |r| == 24
  {
    Xor(Xor(Power(Crc24B, 23), Power(Crc24B, 5)), One(Crc24B))
  }

  lemma TrinomialIsFixed()
    ensures Times(Crc24B, Trinomial()) == Trinomial()
  {
    var g, t := Crc24B, Trinomial();
    Crc24BTerms();
    TimesLinear(g, Xor(Power(g, 23), Power(g, 5)), One(g));
    TimesLinear(g, Power(g, 23), Power(g, 5));
    assert Times(g, One(g)) == Power(g, 1) by { assert One(g) == Power(g, 0); }
    FourTermsCancel(t, Power(g, 6), Power(g, 1));
  }

  lemma FourTermsCancel(t: Bits, a: Bits, b: Bits)
    requires |t| == |a| == |b|
    ensures Xor(Xor(Xor(Xor(t, a), b), a), b) == t
  {
  }

  lemma {:induction false} FixedByPowers(g: Bits, k: nat, t: Bits)
    requires Residue(g, t) && Times(g, t) == t
    ensures TimesN(g, k, t) == t
  {
    if k > 0 {
      FixedByPowers(g, k - 1, t);
    }
  }

  lemma TrinomialAbsorbsPowers(k: nat)
    ensures Mul(Crc24B, Power(Crc24B, k), Trinomial()) == Trinomial()
  {
    var g, t := Crc24B, Trinomial();
    ResiduesCommute(g, Power(g, k), t);
    MulByPower(g, k, t);
    TrinomialIsFixed();
    FixedByPowers(g, k, t);
  }

  lemma TrinomialIsIdempotent()
    ensures Square(Crc24B, Trinomial()) == Trinomial()
  {
    var g, t := Crc24B, Trinomial();
    MulXor(g, Xor(Power(g, 23), Power(g, 5)), One(g), t);
    MulXor(g, Power(g, 23), Power(g, 5), t);
    TrinomialAbsorbsPowers(23);
    TrinomialAbsorbsPowers(5);
    TrinomialAbsorbsPowers(0);
    XorSelf(t);
    XorZero(t);
  }

  /** x^23 + x^12 + x^5 + x^3 + 1 is a square root of x modulo CRC24B. */
  lemma Crc24BHasRootOfX() returns (s: Bits)
    ensures RootOfX(Crc24B, s)
  {
    var g, t := Crc24B, Trinomial();
    s := Xor(Xor(t, Power(g, 12)), Power(g, 3));
    SquareLinear(g, Xor(t, Power(g, 12)), Power(g, 3));
    SquareLinear(g, t, Power(g, 12));
    TrinomialIsIdempotent();
    SquareOfPower(g, 12);
    SquareOfPower(g, 3);
    Crc24BTerms();
    RootCancels(t, Power(g, 6), Power(g, 1));
    assert Times(g, One(g)) == Power(g, 1) by { assert One(g) == Power(g, 0); }
  }

  lemma RootCancels(t: Bits, a: Bits, b: Bits)
    requires |t| == |a| == |b|
    ensures Xor(Xor(t, Xor(Xor(t, a), b)), a) == b
  {
  }
}
