/** Machine words and bit strings, most significant bit first.

    A C value of width n is the sequence of its n bits, so truncation, zero extension,
    shifts that drop bits, and bits that a program never masks off are all explicit. */
module BitStrings {

  type Bits = seq<bool>

  function Zeros(n: nat): (z: Bits)
    ensures |z| == n && forall i :: 0 <= i < n ==> !z[i]
  {
    seq(n, _ => false)
  }

  function Xor(a: Bits, b: Bits): (c: Bits)
    requires |a| == |b|
    ensures |c| == |a| && forall i :: 0 <= i < |a| ==> c[i] == (a[i] != b[i])
  {
    seq(|a|, i requires 0 <= i < |a| => a[i] != b[i])
  }

  /** The word `a`, or the zero word of the same width when `b` is off. */
  function Gate(b: bool, a: Bits): (c: Bits)
    ensures |c| == |a|
  {
    if b then a else Zeros(|a|)
  }

  lemma XorZero(a: Bits)
    ensures Xor(a, Zeros(|a|)) == a == Xor(Zeros(|a|), a)
  {
  }

  lemma XorSelf(a: Bits)
    ensures Xor(a, a) == Zeros(|a|)
  {
  }

  lemma XorCommutes(a: Bits, b: Bits)
    requires |a| == |b|
    ensures Xor(a, b) == Xor(b, a)
  {
  }

  /** (a + b) + (c + d) = (a + c) + (b + d) */
  lemma XorExchange(a: Bits, b: Bits, c: Bits, d: Bits)
    requires |a| == |b| == |c| == |d|
    ensures Xor(Xor(a, b), Xor(c, d)) == Xor(Xor(a, c), Xor(b, d))
  {
  }

  lemma XorIsZero(a: Bits, b: Bits)
    requires |a| == |b|
    ensures Xor(a, b) == Zeros(|a|) <==> a == b
  {
    if Xor(a, b) == Zeros(|a|) {
      assert forall i :: 0 <= i < |a| ==> !Xor(a, b)[i];
    }
    XorSelf(a);
  }

  lemma ZeroPadding(n: nat, a: Bits)
    ensures Zeros(n) + a == Zeros(n + |a|) <==> a == Zeros(|a|)
  {
    if Zeros(n) + a == Zeros(n + |a|) {
      forall i | 0 <= i < |a|
        ensures !a[i]
      {
        assert (Zeros(n) + a)[n + i] == a[i];
      }
    }
  }

  lemma ConcatIsXor(a: Bits, b: Bits)
    ensures a + b == Xor(a + Zeros(|b|), Zeros(|a|) + b)
  {
  }

  lemma SplitXor(high: Bits, low: Bits, d: Bits)
    requires |high| == |d|
    ensures Xor(high + low, d + Zeros(|low|)) == Xor(Xor(high, d) + Zeros(|low|), Zeros(|d|) + low)
  {
  }

  /** The n low bits of a number. */
  function FromNat(v: nat, n: nat): (w: Bits)
    ensures |w| == n
  {
    if n == 0 then [] else FromNat(v / 2, n - 1) + [v % 2 == 1]
  }

  /** The number a word stands for. */
  function Value(w: Bits): nat
    decreases |w|
  {
    if w == [] then 0 else 2 * Value(w[..|w| - 1]) + (if w[|w| - 1] then 1 else 0)
  }

  type Byte = b: Bits | |b| == 8 witness [false, false, false, false, false, false, false, false]

  /** The bits of a byte buffer in transmission order. */
  function Flatten(bytes: seq<Byte>): (w: Bits)
    ensures |w| == 8 * |bytes|
    decreases |bytes|
  {
    if bytes == [] then [] else Flatten(bytes[..|bytes| - 1]) + bytes[|bytes| - 1]
  }

  /** The byte a C program stores for one bit. */
  function AsByte(b: bool): Byte {
    Zeros(7) + [b]
  }

  /** A bit string stored one bit per byte. */
  function AsBytes(w: Bits): (bytes: seq<Byte>)
    ensures |bytes| == |w|
  {
    seq(|w|, i requires 0 <= i < |w| => AsByte(w[i]))
  }

  // ----- Word operations of C -----

  /** The n low bits: a conversion to an n-bit type, or masking with 2^n - 1. */
  function Low(w: Bits, n: nat): (r: Bits)
    requires n <= |w|
    ensures |r| == n
  {
    w[|w| - n..]
  }

  function Shl(w: Bits, k: nat): (r: Bits)
    requires k <= |w|
    ensures |r| == |w|
  {
    w[k..] + Zeros(k)
  }

  function Shr(w: Bits, k: nat): (r: Bits)
    requires k <= |w|
    ensures |r| == |w|
  {
    Zeros(k) + w[..|w| - k]
  }

  function And(a: Bits, b: Bits): (c: Bits)
    requires |a| == |b|
    ensures |c| == |a| && forall i :: 0 <= i < |a| ==> c[i] == (a[i] && b[i])
  {
    seq(|a|, i requires 0 <= i < |a| => a[i] && b[i])
  }

  function Or(a: Bits, b: Bits): (c: Bits)
    requires |a| == |b|
    ensures |c| == |a| && forall i :: 0 <= i < |a| ==> c[i] == (a[i] || b[i])
  {
    seq(|a|, i requires 0 <= i < |a| => a[i] || b[i])
  }

  /** Conversion of a signed value to a wider type. */
  function SignExtend(w: Bits, n: nat): (r: Bits)
    requires 0 < |w| <= n
    ensures |r| == n
  {
    seq(n - |w|, _ => w[0]) + w
  }

  /** Conversion of an unsigned value to a wider type. */
  function ZeroExtend(w: Bits, n: nat): (r: Bits)
    requires |w| <= n
    ensures |r| == n
  {
    Zeros(n - |w|) + w
  }

  function Ones(n: nat): (z: Bits)
    ensures |z| == n && forall i :: 0 <= i < n ==> z[i]
  {
    seq(n, _ => true)
  }

  function Pow2(n: nat): nat
    ensures Pow2(n) > 0
  {
    if n == 0 then 1 else 2 * Pow2(n - 1)
  }

  lemma {:induction false} LowOfFromNat(v: nat, n: nat, m: nat)
    requires m <= n
    ensures Low(FromNat(v, n), m) == FromNat(v, m)
  {
    if m > 0 {
      LowOfFromNat(v / 2, n - 1, m - 1);
    }
  }

  lemma {:induction false} ValueBound(w: Bits)
    ensures Value(w) < Pow2(|w|)
    decreases |w|
  {
    if w != [] {
      ValueBound(w[..|w| - 1]);
    }
  }

  lemma {:induction false} FromNatOfValue(w: Bits)
    ensures FromNat(Value(w), |w|) == w
    decreases |w|
  {
    if w != [] {
      var h := w[..|w| - 1];
      FromNatOfValue(h);
      assert Value(w) / 2 == Value(h) && (Value(w) % 2 == 1) == w[|w| - 1];
      assert w == h + [w[|w| - 1]];
    }
  }

  lemma {:induction false} FromNatZero(n: nat)
    ensures FromNat(0, n) == Zeros(n)
  {
    if n > 0 {
      FromNatZero(n - 1);
    }
  }

  lemma {:induction false} FromNatPow2(k: nat, n: nat)
    requires k < n
    ensures FromNat(Pow2(k), n) == Zeros(n - 1 - k) + [true] + Zeros(k)
  {
    if k == 0 {
      FromNatZero(n - 1);
    } else {
      FromNatPow2(k - 1, n - 1);
      assert Pow2(k) / 2 == Pow2(k - 1) && Pow2(k) % 2 == 0;
    }
  }

  lemma {:induction false} FromNatMask(k: nat, n: nat)
    requires k <= n
    ensures FromNat(Pow2(k) - 1, n) == Zeros(n - k) + Ones(k)
  {
    if k == 0 {
      FromNatZero(n);
    } else {
      FromNatMask(k - 1, n - 1);
      assert (Pow2(k) - 1) / 2 == Pow2(k - 1) - 1 && (Pow2(k) - 1) % 2 == 1;
    }
  }
}
