/** Checking a code block stored one bit per byte.

    The byte-wise check divides M(x^8), not M(x). Squaring modulo the generator maps the
    remainder of M(x) to that of M(x^2), so the check never rejects a codeword; for CRC24B
    squaring is also one-to-one, so the check accepts nothing else. */
module OneBitPerByte {
  import opened BitStrings
  import opened PolynomialRing
  import opened CyclicCode
  import opened SquaringMap
  import opened Polynomials
  import opened SquareRoot

  lemma SpreadThrice(h: Bits, b: bool)
    ensures Spread(Spread(Spread(h + [b]))) == Spread(Spread(Spread(h))) + AsByte(b)
  {
    SpreadAppend(h, [b]);
    SpreadAppend(Spread(h), [false, b]);
    SpreadAppend(Spread(Spread(h)), [false, false, false, b]);
    assert Spread([b]) == [false, b];
    assert Spread([false, b]) == [false, false, false, b];
    assert Spread([false, false, false, b]) == AsByte(b);
  }

  /** A bit string stored one bit per byte reads back as M(x^8). */
  lemma {:induction false} FlattenAsBytes(p: Bits)
    ensures Flatten(AsBytes(p)) == Spread(Spread(Spread(p)))
    decreases |p|
  {
    if p != [] {
      var h, b := p[..|p| - 1], p[|p| - 1];
      assert p == h + [b];
      FlattenAsBytes(h);
      SpreadThrice(h, b);
      assert AsBytes(p) == AsBytes(h) + [AsByte(b)];
      assert AsBytes(p)[..|p| - 1] == AsBytes(h);
    }
  }

  lemma SpreadKeepsCodewords(g: Bits, p: Bits)
    requires |g| > 0 && Codeword(g, p)
    ensures Codeword(g, Spread(p))
  {
    RemOfSpread(g, p);
    MulZero(g, Zeros(|g|));
  }

  /** Where x has a square root, spreading does not make codewords either. */
  lemma SpreadReflectsCodewords(g: Bits, s: Bits, p: Bits)
    requires RootOfX(g, s) && Codeword(g, Spread(p))
    ensures Codeword(g, p)
  {
    RemOfSpread(g, p);
    MulZero(g, Zeros(|g|));
    SquaringIsInjective(g, s, Rem(g, p), Zeros(|g|));
  }

  /** No codeword is rejected, whatever the generator. */
  lemma CheckIsSound(g: Bits, p: Bits)
    requires Generator(g) && Codeword(g, p)
    ensures Crc(g, Flatten(AsBytes(p))) == Zeros(|g|)
  {
    FlattenAsBytes(p);
    SpreadKeepsCodewords(g, p);
    SpreadKeepsCodewords(g, Spread(p));
    SpreadKeepsCodewords(g, Spread(Spread(p)));
    CheckIsDivisibility(g, Flatten(AsBytes(p)));
  }

  /** For CRC24B the check on one bit per byte accepts exactly the codewords. */
  lemma CheckIsExact(p: Bits)
    ensures Crc(Crc24B, Flatten(AsBytes(p))) == Zeros(24) <==> Codeword(Crc24B, p)
  {
    var g := Crc24B;
    var s := Crc24BHasRootOfX();
    FlattenAsBytes(p);
    CheckIsDivisibility(g, Flatten(AsBytes(p)));
    if Codeword(g, p) {
      CheckIsSound(g, p);
    } else if Codeword(g, Flatten(AsBytes(p))) {
      SpreadReflectsCodewords(g, s, Spread(Spread(p)));
      SpreadReflectsCodewords(g, s, Spread(p));
      SpreadReflectsCodewords(g, s, p);
    }
  }
}
