/** What the bit-serial remainder means: ordinary division of polynomials with a quotient. */
module Division {
  import opened BitStrings
  import opened PolynomialRing
  import opened CyclicCode

  /** The product q(x) * G(x), not reduced. */
  function Product(g: Bits, q: Bits): (w: Bits)
    ensures |w| == |q| + |g|
    decreases |q|
  {
    if q == [] then Zeros(|g|)
    else Xor(Product(g, q[..|q| - 1]) + [false], Zeros(|q| - 1) + Gate(q[|q| - 1], [true] + g))
  }

  /** The bits that leave the divider's register, one a step. */
  function Quotient(g: Bits, p: Bits): (q: Bits)
    requires |g| > 0
    ensures |q| == |p|
    decreases |p|
  {
    if p == [] then []
    else Quotient(g, p[..|p| - 1]) + [Rem(g, p[..|p| - 1])[0]]
  }

  lemma ProductSnoc(g: Bits, q: Bits, b: bool)
    ensures Product(g, q + [b]) == Xor(Product(g, q) + [false], Zeros(|q|) + Gate(b, [true] + g))
  {
    assert (q + [b])[..|q|] == q;
  }

  /** p(x) = quotient * G(x) + remainder. */
  lemma {:induction false} DivisionIdentity(g: Bits, p: Bits)
    requires |g| > 0
    ensures Zeros(|g|) + p == Xor(Product(g, Quotient(g, p)), Zeros(|p|) + Rem(g, p))
    decreases |p|
  {
    if p == [] {
      assert Zeros(|g|) + p == Zeros(|g|) == Zeros(0) + Zeros(|g|);
      XorSelf(Zeros(|g|));
    } else {
      var h, b := p[..|p| - 1], p[|p| - 1];
      assert p == h + [b];
      var r := Rem(g, h);
      DivisionIdentity(g, h);
      ProductSnoc(g, Quotient(g, h), r[0]);
      MulSnoc(g, h, b, One(g));
      DivisionStep(g, h, b, r, Product(g, Quotient(g, h)));
    }
  }

  lemma DivisionStep(g: Bits, h: Bits, b: bool, r: Bits, w: Bits)
    requires Residue(g, r) && |w| == |h| + |g|
    requires Zeros(|g|) + h == Xor(w, Zeros(|h|) + r)
    ensures Zeros(|g|) + (h + [b])
         == Xor(Xor(w + [false], Zeros(|h|) + Gate(r[0], [true] + g)),
                Zeros(|h| + 1) + Xor(Times(g, r), Gate(b, One(g))))
  {
    var s, n := Xor(Times(g, r), Gate(b, One(g))), |h|;
    var p, q := Gate(r[0], [true] + g), [false] + s;
    assert Xor(p, q) == r + [b];
    // t + (z p) + (z q) = t + z (r b) = (w + z r) b = (z h) b
    XorRight(w + [false], Zeros(n) + p, Zeros(n) + q);
    XorBehindZeros(n, p, q);
    XorAppend(w, Zeros(n) + r, b);
    assert Zeros(n) + q == Zeros(n + 1) + s;
    assert Zeros(n) + (r + [b]) == (Zeros(n) + r) + [b];
    assert Zeros(|g|) + (h + [b]) == (Zeros(|g|) + h) + [b];
  }

  lemma XorRight(a: Bits, b: Bits, c: Bits)
    requires |a| == |b| == |c|
    ensures Xor(Xor(a, b), c) == Xor(a, Xor(b, c))
  {
  }

  lemma XorBehindZeros(n: nat, a: Bits, b: Bits)
    requires |a| == |b|
    ensures Xor(Zeros(n) + a, Zeros(n) + b) == Zeros(n) + Xor(a, b)
  {
  }

  lemma XorAppend(a: Bits, c: Bits, b: bool)
    requires |a| == |c|
    ensures Xor(a + [false], c + [b]) == Xor(a, c) + [b]
  {
  }

  lemma RemOfGenerator(g: Bits)
    requires |g| > 0
    ensures Rem(g, [true] + g) == Zeros(|g|)
  {
    RemOfCodeword(g, [true], g);
    CrcIsShiftedRemainder(g, [true]);
    RemOfShort(g, [true]);
    assert One(g) == Zeros(|g| - 1) + [true];
    XToTheDegree(g);
    XorSelf(g);
  }

  lemma AddMultiple(g: Bits, w: Bits, k: nat, b: bool)
    requires |g| > 0 && |w| == k + |g| && Codeword(g, w)
    ensures Codeword(g, Xor(w + [false], Zeros(k) + Gate(b, [true] + g)))
  {
    var u, v := w + [false], Zeros(k) + Gate(b, [true] + g);
    MulXor(g, u, v, One(g));
    MulSnoc(g, w, false, One(g));
    TimesZero(g);
    RemOfLeadingZeros(g, k, Gate(b, [true] + g));
    RemOfGenerator(g);
    RemOfZeros(g, |g| + 1);
    XorZero(Zeros(|g|));
  }

  lemma RemOfZeros(g: Bits, k: nat)
    requires |g| > 0
    ensures Codeword(g, Zeros(k))
  {
    RemOfLeadingZeros(g, k, []);
    assert Zeros(k) + [] == Zeros(k);
  }

  lemma {:induction false} RemOfProduct(g: Bits, q: Bits)
    requires |g| > 0
    ensures Codeword(g, Product(g, q))
    decreases |q|
  {
    if q == [] {
      RemOfZeros(g, |g|);
    } else {
      var h, b := q[..|q| - 1], q[|q| - 1];
      assert q == h + [b];
      RemOfProduct(g, h);
      ProductSnoc(g, h, b);
      AddMultiple(g, Product(g, h), |h|, b);
    }
  }

  lemma NoRemainder(p: Bits, i: nat, j: nat)
    requires |p| == i + j
    ensures Xor(p, Zeros(i) + Zeros(j)) == p
  {
    assert Zeros(i) + Zeros(j) == Zeros(|p|);
    XorZero(p);
  }

  /** The codewords are exactly the multiples of the generator. */
  lemma CodewordIsMultiple(g: Bits, w: Bits)
    requires |g| > 0
    ensures Codeword(g, w) <==> exists q: Bits :: |q| == |w| && Zeros(|g|) + w == Product(g, q)
  {
    hide Rem, Product, Quotient;
    RemOfLeadingZeros(g, |g|, w);
    if Codeword(g, w) {
      var q := Quotient(g, w);
      DivisionIdentity(g, w);
      NoRemainder(Product(g, q), |w|, |g|);
    }
    if q: Bits :| |q| == |w| && Zeros(|g|) + w == Product(g, q) {
      RemOfProduct(g, q);
    }
  }
}
