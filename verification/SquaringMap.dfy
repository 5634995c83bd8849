/** When squaring modulo G is one-to-one: it is as soon as x itself has a square root. */
module SquaringMap {
  import opened BitStrings
  import opened PolynomialRing

  ghost predicate RootOfX(g: Bits, s: Bits) {
    Residue(g, s) && Square(g, s) == Times(g, One(g))
  }

  /** Products of residues commute. */
  lemma ResiduesCommute(g: Bits, a: Bits, b: Bits)
    requires Residue(g, a) && Residue(g, b)
    ensures Mul(g, a, b) == Mul(g, b, a)
  {
    MulByRemainder(g, a, b);
    RemOfResidue(g, a);
  }

  lemma SquareLinear(g: Bits, a: Bits, b: Bits)
    requires Residue(g, a) && Residue(g, b)
    ensures Square(g, Xor(a, b)) == Xor(Square(g, a), Square(g, b))
  {
    var c := Xor(a, b);
    MulXor(g, a, b, c);
    MulLinear(g, a, a, b);
    MulLinear(g, b, a, b);
    ResiduesCommute(g, a, b);
    CrossTermsCancel(Square(g, a), Mul(g, a, b), Square(g, b));
  }

  lemma SquareOfProduct(g: Bits, a: Bits, b: Bits)
    requires Residue(g, a) && Residue(g, b)
    ensures Square(g, Mul(g, a, b)) == Mul(g, Square(g, a), Square(g, b))
  {
    var c := Mul(g, a, b);
    // (a b)(a b) = a (b (a b)) = a (a (b b)) = (a a)(b b)
    ProductAssociates(g, a, b, c);
    MulCommutes(g, b, a, b);
    ProductAssociates(g, a, a, Square(g, b));
  }

  lemma ProductAssociates(g: Bits, a: Bits, b: Bits, c: Bits)
    requires Residue(g, a) && Residue(g, b) && Residue(g, c)
    ensures Mul(g, Mul(g, a, b), c) == Mul(g, a, Mul(g, b, c))
  {
    ResiduesCommute(g, Mul(g, a, b), c);
    MulCommutes(g, c, a, b);
    ResiduesCommute(g, b, c);
  }

  lemma SquareOfOne(g: Bits)
    requires |g| > 0
    ensures Square(g, One(g)) == One(g)
  {
    RemOfResidue(g, One(g));
  }

  /** If x has a root then so has every residue: z(x)^2 runs through all of them. */
  lemma {:induction false} RootExists(g: Bits, s: Bits, p: Bits) returns (z: Bits)
    requires RootOfX(g, s)
    ensures Residue(g, z) && Square(g, z) == Rem(g, p)
    decreases |p|
  {
    if p == [] {
      z := Zeros(|g|);
      MulZero(g, z);
    } else {
      var h, b := p[..|p| - 1], p[|p| - 1];
      var y := RootExists(g, s, h);
      var u, v := Mul(g, s, y), Gate(b, One(g));
      z := Xor(u, v);
      SquareLinear(g, u, v);
      SquareOfProduct(g, s, y);
      MulTimesOne(g, Square(g, y));
      SquareOfOne(g);
      MulZero(g, Zeros(|g|));
    }
  }

  lemma MulTimesOne(g: Bits, r: Bits)
    requires Residue(g, r)
    ensures Mul(g, Times(g, One(g)), r) == Times(g, r)
  {
    ResiduesCommute(g, Times(g, One(g)), r);
    MulTimes(g, r, One(g));
    RemOfResidue(g, r);
  }

  /** All words of n bits. */
  ghost function Words(n: nat): (s: set<Bits>)
    ensures forall w :: w in s ==> |w| == n
  {
    if n == 0 then {[]}
    else (set w | w in Words(n - 1) :: [false] + w) + (set w | w in Words(n - 1) :: [true] + w)
  }

  lemma {:induction false} WordsAreAll(w: Bits)
    ensures w in Words(|w|)
    decreases |w|
  {
    if w != [] {
      WordsAreAll(w[1..]);
      if w[0] {
        assert w == [true] + w[1..];
      } else {
        assert w == [false] + w[1..];
      }
    }
  }

  ghost function Squares(g: Bits, a: set<Bits>): set<Bits>
    requires forall r :: r in a ==> Residue(g, r)
  {
    set r | r in a :: Square(g, r)
  }

  lemma {:induction false} FewerSquares(g: Bits, a: set<Bits>)
    requires forall r :: r in a ==> Residue(g, r)
    ensures |Squares(g, a)| <= |a|
    decreases |a|
  {
    if a != {} {
      var r :| r in a;
      FewerSquares(g, a - {r});
      assert Squares(g, a) == Squares(g, a - {r}) + {Square(g, r)};
    }
  }

  /** A map of a finite set onto itself is one-to-one. */
  lemma SquaringIsInjective(g: Bits, s: Bits, a: Bits, b: Bits)
    requires RootOfX(g, s) && Residue(g, a) && Residue(g, b)
    requires Square(g, a) == Square(g, b)
    ensures a == b
  {
    if a != b {
      WordsAreAll(a);
      forall w | w in Words(|g|)
        ensures w in Squares(g, Words(|g|) - {a})
      {
        RootElsewhere(g, s, a, b, w);
      }
      NotOntoFromFewer(g, Words(|g|), a);
    }
  }

  lemma NotOntoFromFewer(g: Bits, all: set<Bits>, a: Bits)
    requires forall r :: r in all ==> Residue(g, r)
    requires a in all
    ensures !(all <= Squares(g, all - {a}))
  {
    FewerSquares(g, all - {a});
    if all <= Squares(g, all - {a}) {
      SubsetSize(all, Squares(g, all - {a}));
    }
  }

  lemma RootElsewhere(g: Bits, s: Bits, a: Bits, b: Bits, w: Bits)
    requires RootOfX(g, s) && Residue(g, a) && Residue(g, b) && Residue(g, w)
    requires Square(g, a) == Square(g, b) && a != b
    ensures w in Squares(g, Words(|g|) - {a})
  {
    hide Mul, Rem, Words;
    var z := RootExists(g, s, w);
    RemOfResidue(g, w);
    var y := if z == a then b else z;
    WordsAreAll(y);
    assert y in Words(|g|) - {a} && Square(g, y) == w;
  }

  lemma {:induction false} SubsetSize(a: set<Bits>, b: set<Bits>)
    requires a <= b
    ensures |a| <= |b|
    decreases |a|
  {
    if a != {} {
      var r :| r in a;
      SubsetSize(a - {r}, b - {r});
    }
  }
}
