/** The generator polynomials of the transport chain (sections 5.1 and 5.2.2 of 3GPP TS 38.212). */
module Polynomials {
  import opened BitStrings
  import opened CyclicCode
  import opened CrcEngine

  /** x^24 + x^23 + x^18 + x^17 + x^14 + x^11 + x^10 + x^7 + x^6 + x^5 + x^4 + x^3 + x + 1 */
  const Crc24A: Bits :=
    [true, false, false, false, false, true, true, false] +
    [false, true, false, false, true, true, false, false] +
    [true, true, true, true, true, false, true, true]

  /** x^24 + x^23 + x^6 + x^5 + x + 1 */
  const Crc24B: Bits :=
    [true, false, false, false, false, false, false, false] +
    [false, false, false, false, false, false, false, false] +
    [false, true, true, false, false, false, true, true]

  /** x^16 + x^12 + x^5 + 1 */
  const Crc16: Bits :=
    [false, false, false, true, false, false, false, false] +
    [false, false, true, false, false, false, false, true]

  /** The 32-bit word a program writes for a generator of degree n. */
  function Word(g: Bits): (w: Bits)
    requires |g| <= 31
    ensures |w| == 32
  {
    Zeros(31 - |g|) + [true] + g
  }

  lemma WordHasDegree(g: Bits)
    requires |g| <= 31
    ensures HasDegree(Word(g), |g|) && Low(Word(g), |g|) == g
  {
  }

  lemma GeneratorsAreValid()
    ensures |Crc24A| == 24 && |Crc24B| == 24 && |Crc16| == 16
    ensures Generator(Crc24A) && Generator(Crc24B) && Generator(Crc16)
  {
  }

  function Bit(b: bool): nat {
    if b then 1 else 0
  }

  function NibbleValue(n: Bits): nat
    requires |n| == 4
  {
    8 * Bit(n[0]) + 4 * Bit(n[1]) + 2 * Bit(n[2]) + Bit(n[3])
  }

  function ByteValue(b: Byte): nat {
    16 * NibbleValue(b[..4]) + NibbleValue(b[4..])
  }

  lemma ValueSnoc(w: Bits, b: bool)
    ensures Value(w + [b]) == 2 * Value(w) + Bit(b)
  {
    assert (w + [b])[..|w|] == w;
  }

  lemma ValueAppendBits(w: Bits, a: bool, b: bool, c: bool, d: bool)
    ensures Value(w + [a, b, c, d]) == 16 * Value(w) + 8 * Bit(a) + 4 * Bit(b) + 2 * Bit(c) + Bit(d)
  {
    hide Value, Bit;
    ValueSnoc(w, a);
    ValueSnoc(w + [a], b);
    ValueSnoc(w + [a] + [b], c);
    ValueSnoc(w + [a] + [b] + [c], d);
    assert w + [a, b, c, d] == w + [a] + [b] + [c] + [d];
  }

  lemma ValueAppendNibble(w: Bits, n: Bits)
    requires |n| == 4
    ensures Value(w + n) == 16 * Value(w) + NibbleValue(n)
  {
    hide Value, Bit;
    assert n == [n[0], n[1], n[2], n[3]];
    ValueAppendBits(w, n[0], n[1], n[2], n[3]);
  }

  lemma ValueAppendByte(w: Bits, b: Byte)
    ensures Value(w + b) == 256 * Value(w) + ByteValue(b)
  {
    hide Value, NibbleValue;
    ValueAppendNibble(w, b[..4]);
    ValueAppendNibble(w + b[..4], b[4..]);
    assert w + b == (w + b[..4]) + b[4..];
  }

  lemma ValueOfBytes(a: Byte, b: Byte, c: Byte, d: Byte)
    ensures Value(a + b + c + d)
         == ((ByteValue(a) * 256 + ByteValue(b)) * 256 + ByteValue(c)) * 256 + ByteValue(d)
  {
    hide Value, ByteValue;
    ValueEmpty();
    assert [] + a == a;
    ValueAppendByte([], a);
    ValueAppendByte(a, b);
    ValueAppendByte(a + b, c);
    ValueAppendByte(a + b + c, d);
  }

  lemma ValueEmpty()
    ensures Value([]) == 0
  {
  }

  /** The words are the constants the modules are configured with. */
  lemma Crc24AValue()
    ensures Value(Word(Crc24A)) == 0x1864CFB
  {
    hide Value;
    WordOfThree(Crc24A[..8], Crc24A[8..16], Crc24A[16..], Crc24A);
  }

  lemma Crc24BValue()
    ensures Value(Word(Crc24B)) == 0x1800063
  {
    hide Value;
    WordOfThree(Crc24B[..8], Crc24B[8..16], Crc24B[16..], Crc24B);
  }

  lemma Crc16Value()
    ensures Value(Word(Crc16)) == 0x11021
  {
    hide Value;
    WordOfTwo(Crc16[..8], Crc16[8..], Crc16);
  }

  lemma WordOfTwo(a: Byte, b: Byte, g: Bits)
    requires g == a + b
    ensures Value(Word(g)) == (256 + ByteValue(a)) * 256 + ByteValue(b)
  {
    hide Value, ByteValue;
    ValueOfBytes(Zeros(8), AsByte(true), a, b);
    assert Word(g) == Zeros(8) + AsByte(true) + a + b;
    SmallBytes();
  }

  lemma SmallBytes()
    ensures ByteValue(Zeros(8)) == 0 && ByteValue(AsByte(true)) == 1
  {
    assert Zeros(8)[..4] == Zeros(8)[4..] == [false, false, false, false];
    assert AsByte(true)[..4] == [false, false, false, false] && AsByte(true)[4..] == [false, false, false, true];
  }

  lemma WordOfThree(a: Byte, b: Byte, c: Byte, g: Bits)
    requires g == a + b + c
    ensures Value(Word(g)) == ((256 + ByteValue(a)) * 256 + ByteValue(b)) * 256 + ByteValue(c)
  {
    hide Value;
    ValueOfBytes(AsByte(true), a, b, c);
    assert Word(g) == AsByte(true) + a + b + c;
  }
}
