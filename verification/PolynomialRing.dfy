/** Arithmetic in GF(2)[x] modulo a generator polynomial G of degree n.

    `g` holds the n low coefficients of G, highest power first; the leading one is implied.
    A residue is a register of n bits in the same order. */
module PolynomialRing {
  import opened BitStrings

  ghost predicate Residue(g: Bits, r: Bits) {
    |g| > 0 && |r| == |g|
  }

  /** x * r mod G: one step of a bit-serial divider fed with a zero. */
  function Times(g: Bits, r: Bits): (s: Bits)
    requires Residue(g, r)
    ensures |s| == |g|
  {
    Xor(r[1..] + [false], Gate(r[0], g))
  }

  function One(g: Bits): (r: Bits)
    requires |g| > 0
    ensures |r| == |g|
  {
    Zeros(|g| - 1) + [true]
  }

  /** p(x) * c mod G, by Horner's rule over the bits of p. */
  function Mul(g: Bits, p: Bits, c: Bits): (r: Bits)
    requires Residue(g, c)
    ensures |r| == |g|
    decreases |p|
  {
    if p == [] then Zeros(|g|)
    else Xor(Times(g, Mul(g, p[..|p| - 1], c)), Gate(p[|p| - 1], c))
  }

  /** Bit-serial division: the remainder of p(x) divided by G. */
  function Rem(g: Bits, p: Bits): (r: Bits)
    requires |g| > 0
    ensures |r| == |g|
  {
    Mul(g, p, One(g))
  }

  /** The polynomial p(x^2): a zero before each coefficient. */
  function Spread(p: Bits): (q: Bits)
    ensures |q| == 2 * |p|
  {
    seq(2 * |p|, i requires 0 <= i < 2 * |p| => i % 2 == 1 && p[i / 2])
  }

  lemma SpreadAppend(p: Bits, q: Bits)
    ensures Spread(p + q) == Spread(p) + Spread(q)
  {
    var n := 2 * |p|;
    forall i | 0 <= i < n + 2 * |q|
      ensures Spread(p + q)[i] == (Spread(p) + Spread(q))[i]
    {
      if i >= n {
        assert (i - n) / 2 == i / 2 - |p|;
      }
    }
  }

  lemma TimesLinear(g: Bits, a: Bits, b: Bits)
    requires Residue(g, a) && Residue(g, b)
    ensures Times(g, Xor(a, b)) == Xor(Times(g, a), Times(g, b))
  {
  }

  lemma TimesZero(g: Bits)
    requires |g| > 0
    ensures Times(g, Zeros(|g|)) == Zeros(|g|)
  {
  }

  lemma GateLinear(b: bool, c: Bits, d: Bits)
    requires |c| == |d|
    ensures Gate(b, Xor(c, d)) == Xor(Gate(b, c), Gate(b, d))
  {
  }

  lemma GateTimes(g: Bits, b: bool, c: Bits)
    requires Residue(g, c)
    ensures Gate(b, Times(g, c)) == Times(g, Gate(b, c))
  {
    TimesZero(g);
  }

  lemma {:induction false} MulLinear(g: Bits, p: Bits, c: Bits, d: Bits)
    requires Residue(g, c) && Residue(g, d)
    ensures Mul(g, p, Xor(c, d)) == Xor(Mul(g, p, c), Mul(g, p, d))
    decreases |p|
  {
    if p == [] {
      XorZero(Zeros(|g|));
    } else {
      var h, b := p[..|p| - 1], p[|p| - 1];
      MulLinear(g, h, c, d);
      TimesLinear(g, Mul(g, h, c), Mul(g, h, d));
      GateLinear(b, c, d);
      XorExchange(Times(g, Mul(g, h, c)), Times(g, Mul(g, h, d)), Gate(b, c), Gate(b, d));
    }
  }

  lemma {:induction false} MulTimes(g: Bits, p: Bits, c: Bits)
    requires Residue(g, c)
    ensures Mul(g, p, Times(g, c)) == Times(g, Mul(g, p, c))
    decreases |p|
  {
    if p == [] {
      TimesZero(g);
    } else {
      var h, b := p[..|p| - 1], p[|p| - 1];
      MulTimes(g, h, c);
      GateTimes(g, b, c);
      TimesLinear(g, Times(g, Mul(g, h, c)), Gate(b, c));
    }
  }

  lemma {:induction false} MulZero(g: Bits, p: Bits)
    requires |g| > 0
    ensures Mul(g, p, Zeros(|g|)) == Zeros(|g|)
    decreases |p|
  {
    if p != [] {
      MulZero(g, p[..|p| - 1]);
      TimesZero(g);
      XorZero(Zeros(|g|));
    }
  }

  /** Multiplication is commutative: p * (q * c) = q * (p * c). */
  lemma {:induction false} MulCommutes(g: Bits, p: Bits, q: Bits, c: Bits)
    requires Residue(g, c)
    ensures Mul(g, p, Mul(g, q, c)) == Mul(g, q, Mul(g, p, c))
    decreases |p|
  {
    if p == [] {
      MulZero(g, q);
    } else {
      var h, b := p[..|p| - 1], p[|p| - 1];
      MulCommutes(g, h, q, c);
      MulTimes(g, q, Mul(g, h, c));
      MulLinear(g, q, Times(g, Mul(g, h, c)), Gate(b, c));
      MulZero(g, q);
    }
  }

  lemma MulSnoc(g: Bits, h: Bits, b: bool, c: Bits)
    requires Residue(g, c)
    ensures Mul(g, h + [b], c) == Xor(Times(g, Mul(g, h, c)), Gate(b, c))
  {
    assert (h + [b])[..|h|] == h;
  }

  /** Squaring: over GF(2) the cross terms of p(x) * p(x) cancel, leaving p(x^2). */
  lemma {:induction false} SquareIsSpread(g: Bits, p: Bits)
    requires |g| > 0
    ensures Mul(g, p, Rem(g, p)) == Rem(g, Spread(p))
    decreases |p|
  {
    if p != [] {
      var h, b := p[..|p| - 1], p[|p| - 1];
      assert p == h + [b];
      SquareIsSpread(g, h);
      SquareSnoc(g, h, b);
      SpreadSnoc(g, h, b);
    }
  }

  lemma SquareSnoc(g: Bits, h: Bits, b: bool)
    requires |g| > 0
    ensures Mul(g, h + [b], Rem(g, h + [b]))
         == Xor(Times(g, Times(g, Mul(g, h, Rem(g, h)))), Gate(b, One(g)))
  {
    var r, one := Rem(g, h), One(g);
    var s, rb := Times(g, Mul(g, h, r)), Gate(b, r);
    var xr, ob := Times(g, r), Gate(b, one);
    MulSnoc(g, h, b, one);
    assert Mul(g, h, Xor(xr, ob)) == Xor(s, rb) by {
      MulLinear(g, h, xr, ob);
      MulTimes(g, h, r);
      if !b { MulZero(g, h); }
    }
    MulSnoc(g, h, b, Xor(xr, ob));
    TimesLinear(g, s, rb);
    GateTimes(g, b, r);
    GateLinear(b, xr, ob);
    CrossTermsCancel(Times(g, s), Gate(b, xr), Gate(b, ob));
  }

  lemma CrossTermsCancel(a: Bits, b: Bits, c: Bits)
    requires |a| == |b| == |c|
    ensures Xor(Xor(a, b), Xor(b, c)) == Xor(a, c)
  {
  }

  lemma SpreadSnoc(g: Bits, h: Bits, b: bool)
    requires |g| > 0
    ensures Rem(g, Spread(h + [b])) == Xor(Times(g, Times(g, Rem(g, Spread(h)))), Gate(b, One(g)))
  {
    hide Times, Rem, Xor;
    SpreadAppend(h, [b]);
    assert Spread([b]) == [false] + [b];
    assert Spread(h) + Spread([b]) == Spread(h) + [false] + [b];
    RemSnocTwice(g, Spread(h), b);
  }

  lemma RemSnocTwice(g: Bits, q: Bits, b: bool)
    requires |g| > 0
    ensures Rem(g, q + [false] + [b]) == Xor(Times(g, Times(g, Rem(g, q))), Gate(b, One(g)))
  {
    MulSnoc(g, q + [false], b, One(g));
    MulSnoc(g, q, false, One(g));
    XorZero(Times(g, Rem(g, q)));
  }

  /** r(x) * r(x) mod G for a residue r. */
  function Square(g: Bits, r: Bits): (s: Bits)
    requires Residue(g, r)
    ensures |s| == |g|
  {
    Mul(g, r, r)
  }

  /** x^k mod G times r. */
  function TimesN(g: Bits, k: nat, r: Bits): (s: Bits)
    requires Residue(g, r)
    ensures |s| == |g|
  {
    if k == 0 then r else Times(g, TimesN(g, k - 1, r))
  }

  lemma {:induction false} TimesNLinear(g: Bits, k: nat, a: Bits, b: Bits)
    requires Residue(g, a) && Residue(g, b)
    ensures TimesN(g, k, Xor(a, b)) == Xor(TimesN(g, k, a), TimesN(g, k, b))
  {
    hide Times, Xor;
    if k > 0 {
      TimesNLinear(g, k - 1, a, b);
      TimesLinear(g, TimesN(g, k - 1, a), TimesN(g, k - 1, b));
    }
  }

  lemma {:induction false} TimesNAdd(g: Bits, j: nat, k: nat, r: Bits)
    requires Residue(g, r)
    ensures TimesN(g, j + k, r) == TimesN(g, j, TimesN(g, k, r))
  {
    hide Times;
    if j > 0 {
      TimesNAdd(g, j - 1, k, r);
    }
  }

  /** While no one bit leaves the register, multiplying by x^k is a shift. */
  lemma {:induction false} ShiftWithoutOverflow(g: Bits, k: nat, t: Bits)
    requires |g| == k + |t| && |g| > 0
    ensures TimesN(g, k, Zeros(k) + t) == t + Zeros(k)
  {
    if k > 0 {
      var u := [false] + t;
      assert Zeros(k) + t == Zeros(k - 1) + u;
      ShiftWithoutOverflow(g, k - 1, u);
      var r := u + Zeros(k - 1);
      assert r[1..] + [false] == t + Zeros(k);
      XorZero(t + Zeros(k));
    }
  }

  /** Appending k zeros to the message multiplies the remainder by x^k. */
  lemma {:induction false} MulZerosAppended(g: Bits, p: Bits, k: nat, c: Bits)
    requires Residue(g, c)
    ensures Mul(g, p + Zeros(k), c) == TimesN(g, k, Mul(g, p, c))
  {
    if k == 0 {
      assert p + Zeros(0) == p;
    } else {
      var q := p + Zeros(k - 1);
      assert p + Zeros(k) == q + [false];
      MulZerosAppended(g, p, k - 1, c);
      MulSnoc(g, q, false, c);
      XorZero(Times(g, Mul(g, q, c)));
    }
  }

  /** A message shorter than the register is its own remainder. */
  lemma {:induction false} RemOfShort(g: Bits, t: Bits)
    requires |g| > 0 && |t| <= |g|
    ensures Rem(g, t) == Zeros(|g| - |t|) + t
    decreases |t|
  {
    if t == [] {
      assert Zeros(|g|) + t == Zeros(|g|);
    } else {
      var h, b := t[..|t| - 1], t[|t| - 1];
      assert t == h + [b];
      RemOfShort(g, h);
      MulSnoc(g, h, b, One(g));
      ShortStep(g, h, b);
    }
  }

  lemma ShortStep(g: Bits, h: Bits, b: bool)
    requires |h| < |g|
    ensures Xor(Times(g, Zeros(|g| - |h|) + h), Gate(b, One(g))) == Zeros(|g| - |h| - 1) + (h + [b])
  {
    var r := Zeros(|g| - |h|) + h;
    var s := Zeros(|g| - |h| - 1) + (h + [false]);
    assert r[1..] + [false] == s;
    XorZero(s);
    assert !b || Xor(s, One(g)) == Zeros(|g| - |h| - 1) + (h + [true]);
  }

  lemma RemOfResidue(g: Bits, r: Bits)
    requires Residue(g, r)
    ensures Rem(g, r) == r
  {
    RemOfShort(g, r);
    assert Zeros(0) + r == r;
  }

  /** Multiplication distributes over a sum of messages. */
  lemma {:induction false} MulXor(g: Bits, p: Bits, q: Bits, c: Bits)
    requires Residue(g, c) && |p| == |q|
    ensures Mul(g, Xor(p, q), c) == Xor(Mul(g, p, c), Mul(g, q, c))
    decreases |p|
  {
    if p == [] {
      XorZero(Zeros(|g|));
    } else {
      var h, b := p[..|p| - 1], p[|p| - 1];
      var k, d := q[..|q| - 1], q[|q| - 1];
      assert p == h + [b] && q == k + [d] && Xor(p, q) == Xor(h, k) + [b != d];
      MulXor(g, h, k, c);
      MulXorStep(g, h, k, b, d, c);
    }
  }

  lemma MulXorStep(g: Bits, h: Bits, k: Bits, b: bool, d: bool, c: Bits)
    requires Residue(g, c) && |h| == |k|
    requires Mul(g, Xor(h, k), c) == Xor(Mul(g, h, c), Mul(g, k, c))
    ensures Mul(g, Xor(h, k) + [b != d], c) == Xor(Mul(g, h + [b], c), Mul(g, k + [d], c))
  {
    MulSnoc(g, h, b, c);
    MulSnoc(g, k, d, c);
    MulSnoc(g, Xor(h, k), b != d, c);
    TimesXorStep(g, Mul(g, h, c), Mul(g, k, c), b, d, c);
  }

  lemma TimesXorStep(g: Bits, u: Bits, v: Bits, b: bool, d: bool, c: Bits)
    requires Residue(g, u) && Residue(g, v) && Residue(g, c)
    ensures Xor(Times(g, Xor(u, v)), Gate(b != d, c))
         == Xor(Xor(Times(g, u), Gate(b, c)), Xor(Times(g, v), Gate(d, c)))
  {
    TimesLinear(g, u, v);
    assert Gate(b != d, c) == Xor(Gate(b, c), Gate(d, c));
    XorExchange(Times(g, u), Times(g, v), Gate(b, c), Gate(d, c));
  }

  /** p(x) * c depends on p only through its remainder. */
  lemma MulByRemainder(g: Bits, p: Bits, c: Bits)
    requires Residue(g, c)
    ensures Mul(g, p, c) == Mul(g, c, Rem(g, p)) == Mul(g, Rem(g, p), c)
  {
    RemOfResidue(g, c);
    MulCommutes(g, p, c, One(g));
    RemOfResidue(g, Rem(g, p));
    MulCommutes(g, Rem(g, p), c, One(g));
  }

  /** The remainder of p(x^2) is the square of the remainder of p(x). */
  lemma RemOfSpread(g: Bits, p: Bits)
    requires |g| > 0
    ensures Rem(g, Spread(p)) == Square(g, Rem(g, p))
  {
    SquareIsSpread(g, p);
    MulByRemainder(g, p, Rem(g, p));
  }

  /** x^L mod G is the low part of G. */
  lemma XToTheDegree(g: Bits)
    requires |g| > 0
    ensures TimesN(g, |g|, One(g)) == g
  {
    assert One(g) == Zeros(|g| - 1) + [true];
    ShiftWithoutOverflow(g, |g| - 1, [true]);
    XorZero(g);
    assert ([true] + Zeros(|g| - 1))[1..] + [false] == Zeros(|g|);
  }
}
