/** The cyclic redundancy code of section 5.1 of 3GPP TS 38.212: parity bits that make
    message * x^L + parity divisible by the generator. */
module CyclicCode {
  import opened BitStrings
  import opened PolynomialRing

  /** The generator has degree |g| and constant term 1. */
  ghost predicate Generator(g: Bits) {
    |g| > 0 && g[|g| - 1]
  }

  /** The parity bits of a message: the remainder of p(x) * x^L. */
  function Crc(g: Bits, p: Bits): (r: Bits)
    requires |g| > 0
    ensures |r| == |g|
  {
    Rem(g, p + Zeros(|g|))
  }

  lemma CrcIsShiftedRemainder(g: Bits, p: Bits)
    requires |g| > 0
    ensures Crc(g, p) == TimesN(g, |g|, Rem(g, p))
  {
    MulZerosAppended(g, p, |g|, One(g));
  }

  /** Message and parity field: dividing the concatenation adds the field to the right parity. */
  lemma RemOfCodeword(g: Bits, p: Bits, t: Bits)
    requires |g| > 0 && |t| == |g|
    ensures Rem(g, p + t) == Xor(Crc(g, p), t)
  {
    var z, w := p + Zeros(|g|), Zeros(|p|) + t;
    ConcatIsXor(p, t);
    MulXor(g, z, w, One(g));
    RemOfLeadingZeros(g, |p|, t);
    RemOfResidue(g, t);
  }

  lemma {:induction false} RemOfLeadingZeros(g: Bits, k: nat, t: Bits)
    requires |g| > 0
    ensures Rem(g, Zeros(k) + t) == Rem(g, t)
    decreases |t|
  {
    if t == [] {
      assert Zeros(k) + t == [] + Zeros(k);
      MulZerosAppended(g, [], k, One(g));
      TimesNZero(g, k);
    } else {
      var h, b := t[..|t| - 1], t[|t| - 1];
      assert t == h + [b] && Zeros(k) + t == (Zeros(k) + h) + [b];
      RemOfLeadingZeros(g, k, h);
      MulSnoc(g, Zeros(k) + h, b, One(g));
      MulSnoc(g, h, b, One(g));
    }
  }

  lemma {:induction false} TimesNZero(g: Bits, k: nat)
    requires |g| > 0
    ensures TimesN(g, k, Zeros(|g|)) == Zeros(|g|)
  {
    if k > 0 {
      TimesNZero(g, k - 1);
      TimesZero(g);
    }
  }

  /** One step of the divider run backwards. */
  function Untimes(g: Bits, s: Bits): (r: Bits)
    requires Residue(g, s)
    ensures |r| == |g|
  {
    if s[|s| - 1] then [true] + Xor(s, g)[..|g| - 1] else [false] + s[..|g| - 1]
  }

  function UntimesN(g: Bits, k: nat, s: Bits): (r: Bits)
    requires Residue(g, s)
    ensures |r| == |g|
  {
    if k == 0 then s else Untimes(g, UntimesN(g, k - 1, s))
  }

  lemma UntimesInverts(g: Bits, r: Bits)
    requires Generator(g) && Residue(g, r)
    ensures Untimes(g, Times(g, r)) == r
  {
    var s, t := Times(g, r), r[1..] + [false];
    assert s == Xor(t, Gate(r[0], g));
    assert t[|g| - 1] == false && t[..|g| - 1] == r[1..];
    if r[0] {
      XorTwice(t, g);
      assert r == [true] + r[1..];
    } else {
      XorZero(t);
      assert r == [false] + r[1..];
    }
  }

  lemma XorTwice(a: Bits, b: Bits)
    requires |a| == |b|
    ensures Xor(Xor(a, b), b) == a
  {
  }

  lemma TimesNFirst(g: Bits, k: nat, r: Bits)
    requires Residue(g, r) && k > 0
    ensures TimesN(g, k, r) == TimesN(g, k - 1, Times(g, r))
  {
    TimesNAdd(g, k - 1, 1, r);
    assert TimesN(g, 1, r) == Times(g, TimesN(g, 0, r));
  }

  lemma {:induction false} UntimesNInverts(g: Bits, k: nat, r: Bits)
    requires Generator(g) && Residue(g, r)
    ensures UntimesN(g, k, TimesN(g, k, r)) == r
  {
    hide Times, Untimes;
    if k > 0 {
      var t := Times(g, r);
      TimesNFirst(g, k, r);
      UntimesNInverts(g, k - 1, t);
      UntimesInverts(g, r);
    }
  }

  lemma {:induction false} TimesNIsZero(g: Bits, k: nat, r: Bits)
    requires Generator(g) && Residue(g, r)
    ensures TimesN(g, k, r) == Zeros(|g|) <==> r == Zeros(|g|)
  {
    TimesNZero(g, k);
    UntimesNInverts(g, k, r);
    UntimesNInverts(g, k, Zeros(|g|));
  }

  /** A codeword is a bit string that the generator divides. */
  ghost predicate Codeword(g: Bits, w: Bits)
    requires |g| > 0
  {
    Rem(g, w) == Zeros(|g|)
  }

  /** Running the parity computation over a received word tests divisibility. */
  lemma CheckIsDivisibility(g: Bits, w: Bits)
    requires Generator(g)
    ensures Crc(g, w) == Zeros(|g|) <==> Codeword(g, w)
  {
    CrcIsShiftedRemainder(g, w);
    TimesNIsZero(g, |g|, Rem(g, w));
  }

  /** Add/check law: message and field form a codeword exactly when the field is the parity. */
  lemma CodewordLaw(g: Bits, p: Bits, t: Bits)
    requires |g| > 0 && |t| == |g|
    ensures Codeword(g, p + t) <==> t == Crc(g, p)
  {
    RemOfCodeword(g, p, t);
    XorIsZero(Crc(g, p), t);
  }

  /** A burst no longer than the register, wherever it falls, is never divisible. */
  lemma BurstIsNotCodeword(g: Bits, before: nat, burst: Bits, after: nat)
    requires Generator(g) && |burst| <= |g| && burst != Zeros(|burst|)
    ensures !Codeword(g, Zeros(before) + burst + Zeros(after))
  {
    MulZerosAppended(g, Zeros(before) + burst, after, One(g));
    RemOfLeadingZeros(g, before, burst);
    RemOfShort(g, burst);
    TimesNIsZero(g, after, Rem(g, burst));
    ZeroPadding(|g| - |burst|, burst);
  }

  /** Burst detection: flipping any such burst in a codeword is always noticed. */
  lemma BurstDetected(g: Bits, w: Bits, before: nat, burst: Bits, after: nat)
    requires Generator(g) && Codeword(g, w)
    requires |burst| <= |g| && burst != Zeros(|burst|) && |w| == before + |burst| + after
    ensures !Codeword(g, Xor(w, Zeros(before) + burst + Zeros(after)))
  {
    var e := Zeros(before) + burst + Zeros(after);
    BurstIsNotCodeword(g, before, burst, after);
    MulXor(g, w, e, One(g));
    XorZero(Rem(g, e));
  }

  lemma RemOfAppend(g: Bits, p: Bits, d: Bits)
    requires |g| > 0 && |d| <= |g|
    ensures Rem(g, p + d) == Xor(TimesN(g, |d|, Rem(g, p)), Zeros(|g| - |d|) + d)
  {
    var z, w := p + Zeros(|d|), Zeros(|p|) + d;
    ConcatIsXor(p, d);
    MulXor(g, z, w, One(g));
    MulZerosAppended(g, p, |d|, One(g));
    RemOfLeadingZeros(g, |p|, d);
    RemOfShort(g, d);
  }

  /** Feeding k more message bits into the top of the parity register. */
  lemma CrcOfAppend(g: Bits, p: Bits, d: Bits)
    requires |g| > 0 && |d| <= |g|
    ensures Crc(g, p + d) == TimesN(g, |d|, Xor(Crc(g, p), d + Zeros(|g| - |d|)))
  {
    hide Times, TimesN, Rem, Crc, Xor, Zeros;
    var n, k, r := |g|, |d|, Rem(g, p);
    var high, low := d + Zeros(n - k), Zeros(n - k) + d;
    CrcIsShiftedRemainder(g, p + d);
    CrcIsShiftedRemainder(g, p);
    RemOfAppend(g, p, d);
    TimesNLinear(g, n, TimesN(g, k, r), low);
    TimesNCommute(g, n, k, r);
    LowFirst(g, d, high, low);
    TimesNLinear(g, k, Crc(g, p), high);
  }

  lemma TimesNCommute(g: Bits, j: nat, k: nat, r: Bits)
    requires Residue(g, r)
    ensures TimesN(g, j, TimesN(g, k, r)) == TimesN(g, k, TimesN(g, j, r))
  {
    hide TimesN;
    TimesNAdd(g, j, k, r);
    TimesNAdd(g, k, j, r);
  }

  /** Bits fed in at the bottom pass through the whole register, those at the top do not. */
  lemma LowFirst(g: Bits, d: Bits, high: Bits, low: Bits)
    requires |g| > 0 && |d| <= |g| && high == d + Zeros(|g| - |d|) && low == Zeros(|g| - |d|) + d
    ensures TimesN(g, |g|, low) == TimesN(g, |d|, high)
  {
    hide TimesN;
    TimesNAdd(g, |d|, |g| - |d|, low);
    ShiftWithoutOverflow(g, |g| - |d|, d);
  }

  lemma CrcOfShort(g: Bits, d: Bits)
    requires |g| > 0 && |d| <= |g|
    ensures Crc(g, d) == TimesN(g, |d|, d + Zeros(|g| - |d|))
  {
    assert [] + d == d;
    CrcOfAppend(g, [], d);
    CrcIsShiftedRemainder(g, []);
    TimesNZero(g, |g|);
    XorZero(d + Zeros(|g| - |d|));
  }

  lemma LookUp(g: Bits, e: Bits, low: Bits)
    requires |g| > 0 && |e| + |low| == |g|
    ensures Xor(low + Zeros(|e|), Crc(g, e)) == TimesN(g, |e|, Xor(e + Zeros(|low|), Zeros(|e|) + low))
  {
    TimesNLinear(g, |e|, e + Zeros(|low|), Zeros(|e|) + low);
    CrcOfShort(g, e);
    ShiftWithoutOverflow(g, |e|, low);
    XorCommutes(Crc(g, e), low + Zeros(|e|));
  }

  /** One step of the table method: look up the byte that leaves the register. */
  lemma TableStep(g: Bits, high: Bits, low: Bits, d: Bits)
    requires |g| > 0 && |high| == |d| && |d| + |low| == |g|
    ensures Xor(low + Zeros(|d|), Crc(g, Xor(high, d)))
         == TimesN(g, |d|, Xor(high + low, d + Zeros(|low|)))
  {
    SplitXor(high, low, d);
    LookUp(g, Xor(high, d), low);
  }

  /** Zero padding a message and running the divider back over the padding gives its parity. */
  lemma BackOverPadding(g: Bits, p: Bits, k: nat)
    requires Generator(g)
    ensures UntimesN(g, k, Crc(g, p + Zeros(k))) == Crc(g, p)
  {
    hide Times, TimesN, UntimesN;
    CrcIsShiftedRemainder(g, p);
    CrcIsShiftedRemainder(g, p + Zeros(k));
    MulZerosAppended(g, p, k, One(g));
    TimesNCommute(g, k, |g|, Rem(g, p));
    UntimesNInverts(g, k, Crc(g, p));
  }

  lemma UntimesNStep(g: Bits, k: nat, s: Bits)
    requires Residue(g, s)
    ensures UntimesN(g, k + 1, s) == Untimes(g, UntimesN(g, k, s))
  {
  }

  lemma UntimesNZero(g: Bits, s: Bits)
    requires Residue(g, s)
    ensures UntimesN(g, 0, s) == s
  {
  }

  /** A received word passes the check exactly when its field is the parity of its data. */
  lemma CheckAcceptsParityOnly(g: Bits, p: Bits, t: Bits)
    requires Generator(g) && |t| == |g|
    ensures Crc(g, p + t) == Zeros(|g|) <==> t == Crc(g, p)
  {
    CheckIsDivisibility(g, p + t);
    CodewordLaw(g, p, t);
  }

  /** A codeword hit by one burst no longer than the register fails the check. */
  lemma CheckCatchesBurst(g: Bits, p: Bits, before: nat, burst: Bits, after: nat)
    requires Generator(g) && |burst| <= |g| && burst != Zeros(|burst|)
    requires |p| + |g| == before + |burst| + after
    ensures Crc(g, Xor(p + Crc(g, p), Zeros(before) + burst + Zeros(after))) != Zeros(|g|)
  {
    CodewordLaw(g, p, Crc(g, p));
    BurstDetected(g, p + Crc(g, p), before, burst, after);
    CheckIsDivisibility(g, Xor(p + Crc(g, p), Zeros(before) + burst + Zeros(after)));
  }

  /** What a non-zero initial register means: it is added to the first bits of the message. */
  lemma InitialValue(g: Bits, p: Bits, init: Bits)
    requires |g| > 0 && |init| == |g| <= |p|
    ensures Xor(Crc(g, p), TimesN(g, |p|, init)) == Crc(g, Xor(p, init + Zeros(|p| - |g|)))
  {
    hide Times, TimesN, Rem, Crc;
    var n, j := |g|, |p| - |g|;
    var e := init + Zeros(j);
    MulXor(g, p, e, One(g));
    RemIsMul(g, p);
    RemIsMul(g, e);
    RemIsMul(g, Xor(p, e));
    MulZerosAppended(g, init, j, One(g));
    RemIsMul(g, init);
    RemOfResidue(g, init);
    CrcIsShiftedRemainder(g, p);
    CrcIsShiftedRemainder(g, Xor(p, e));
    TimesNLinear(g, n, Rem(g, p), Rem(g, e));
    TimesNAdd(g, n, j, init);
  }

  lemma RemIsMul(g: Bits, p: Bits)
    requires |g| > 0
    ensures Rem(g, p) == Mul(g, p, One(g))
  {
  }
}
