/** Code block creation and checking (aloe_CreateCodeBlocks and aloe_5GCheckCRC). */
module CodeBlocks {
  import opened BitStrings
  import opened CyclicCode
  import opened CrcEngine
  import opened Polynomials
  import opened Rounding
  import opened Segmentation
  import opened OneBitPerByte

  const HISTOSZ: nat := 512

  /** The places of the bit buffers: eight times MAXINPUTBYTES. */
  const MAX_BITS: nat := 1000000

  // ----- What the blocks are -----

  /** Where block c of size k starts: c * k. */
  function Offset(k: nat, c: nat): nat {
    if c == 0 then 0 else Offset(k, c - 1) + k
  }

  lemma {:induction false} OffsetIsProduct(k: nat, c: nat)
    ensures Offset(k, c) == k * c
  {
    if c > 0 {
      OffsetIsProduct(k, c - 1);
      assert k * (c - 1) + k == k * c;
    }
  }

  /** One block: data, parity, filler zeros up to k bits. */
  function Block(g: Bits, data: Bits, k: nat): (w: Bits)
    requires |g| > 0 && |data| + |g| <= k
    ensures |w| == k
  {
    data + Crc(g, data) + Zeros(k - |data| - |g|)
  }

  /** The first c blocks of a payload cut into m-bit pieces. */
  function Blocks(g: Bits, payload: Bits, m: nat, k: nat, c: nat): (w: Bits)
    requires |g| > 0 && m + |g| <= k && Offset(m, c) <= |payload|
    ensures |w| == Offset(k, c)
  {
    if c == 0 then [] else
      Blocks(g, payload, m, k, c - 1) + Block(g, payload[Offset(m, c - 1)..Offset(m, c)], k)
  }

  /** The data fields of the first c received blocks. */
  function Data(w: Bits, m: nat, k: nat, c: nat): (d: Bits)
    requires m <= k && Offset(k, c) <= |w|
    ensures |d| == Offset(m, c)
  {
    if c == 0 then [] else
      Data(w, m, k, c - 1) + w[Offset(k, c - 1)..Offset(k, c - 1) + m]
  }

  /** The received blocks whose first k1 bits are not a codeword, in order. */
  ghost function Wrong(g: Bits, w: Bits, k1: nat, k: nat, c: nat): (s: seq<nat>)
    requires |g| > 0 && k1 <= k && Offset(k, c) <= |w|
    ensures |s| <= c && forall i :: 0 <= i < |s| ==> s[i] < c
  {
    if c == 0 then [] else
      Wrong(g, w, k1, k, c - 1)
      + (if Codeword(g, w[Offset(k, c - 1)..Offset(k, c - 1) + k1]) then [] else [c - 1])
  }

  /** Segmentation and checking are inverse: every block is accepted and the payload comes back. */
  lemma {:induction false} BlocksAreRight(g: Bits, payload: Bits, m: nat, k: nat, c: nat, w: Bits)
    requires |g| > 0 && m + |g| <= k && Offset(m, c) <= |payload| && Offset(k, c) <= |w|
    requires w[..Offset(k, c)] == Blocks(g, payload, m, k, c)
    ensures Wrong(g, w, m + |g|, k, c) == []
    ensures Data(w, m, k, c) == payload[..Offset(m, c)]
  {
    hide Crc, Codeword, Block, Blocks, Offset, Data, Wrong;
    if c == 0 {
      NoBlocks(g, w, m + |g|, m, k);
    } else {
      OneMoreOffset(m, c - 1);
      OneMoreOffset(k, c - 1);
      var n, o := Offset(k, c - 1), Offset(m, c - 1);
      var before, data := Blocks(g, payload, m, k, c - 1), payload[o..o + m];
      OneMoreBlock(g, payload, m, k, c - 1, data);
      LastBlock(g, before, data, k, w, n);
      BlocksAreRight(g, payload, m, k, c - 1, w);
      CodewordLaw(g, data, Crc(g, data));
      OneMoreChecked(g, w, m + |g|, k, c - 1, data + Crc(g, data));
      OneMoreKept(w, m, k, c - 1, data);
      assert payload[..o + m] == payload[..o] + data;
    }
  }

  lemma OneMoreOffset(k: nat, c: nat)
    ensures Offset(k, c + 1) == Offset(k, c) + k
  {
  }

  lemma OneMoreBlock(g: Bits, payload: Bits, m: nat, k: nat, c: nat, data: Bits)
    requires |g| > 0 && m + |g| <= k && Offset(m, c) + m <= |payload|
    requires data == payload[Offset(m, c)..Offset(m, c) + m]
    ensures Blocks(g, payload, m, k, c + 1) == Blocks(g, payload, m, k, c) + Block(g, data, k)
  {
    hide Block;
  }

  lemma LastBlock(g: Bits, before: Bits, data: Bits, k: nat, w: Bits, n: nat)
    requires |g| > 0 && |data| + |g| <= k && n == |before| && n + k <= |w|
    requires w[..n + k] == before + Block(g, data, k)
    ensures w[..n] == before
    ensures w[n..n + |data|] == data
    ensures w[n..n + (|data| + |g|)] == data + Crc(g, data)
  {
    hide Crc;
    var v := before + Block(g, data, k);
    assert v[..n + k] == v;
    SameSlice(w, v, 0, n, n + k);
    SameSlice(w, v, n, n + |data|, n + k);
    SameSlice(w, v, n, n + (|data| + |g|), n + k);
    BlockSlices(before, Block(g, data, k), data, Crc(g, data), Zeros(k - |data| - |g|));
  }

  lemma BlockSlices(before: Bits, block: Bits, data: Bits, parity: Bits, filler: Bits)
    requires block == data + parity + filler
    ensures var v, n := before + block, |before|;
      v[..n] == before && v[n..n + |data|] == data && v[n..n + (|data| + |parity|)] == data + parity
  {
    assert block[..|data| + |parity|] == data + parity;
  }

  /** n bits of w from position o on. */
  function Part(w: Bits, o: nat, n: nat): (p: Bits)
    requires o + n <= |w|
    ensures |p| == n
  {
    w[o..o + n]
  }

  /** The checked part of received block i is a codeword. */
  ghost predicate Good(g: Bits, w: Bits, k1: nat, k: nat, i: nat)
    requires |g| > 0
  {
    Offset(k, i) + k1 <= |w| && Codeword(g, Part(w, Offset(k, i), k1))
  }

  ghost predicate Increasing(s: seq<nat>) {
    forall i, j :: 0 <= i < j < |s| ==> s[i] < s[j]
  }

  /** The list of wrong blocks holds each block that is not a codeword once, in order. */
  lemma {:induction false} WrongIff(g: Bits, w: Bits, k1: nat, k: nat, c: nat)
    requires |g| > 0 && k1 <= k && Offset(k, c) <= |w|
    ensures Increasing(Wrong(g, w, k1, k, c))
    ensures forall i: nat :: i in Wrong(g, w, k1, k, c) <==> i < c && !Good(g, w, k1, k, i)
  {
    hide Codeword, Wrong, Offset;
    if c == 0 {
      NoBlocks(g, w, k1, k1, k);
    } else {
      OneMoreOffset(k, c - 1);
      WrongIff(g, w, k1, k, c - 1);
      var o := Offset(k, c - 1);
      OneMoreChecked(g, w, k1, k, c - 1, w[o..o + k1]);
    }
  }

  /** Blocks in order do not overlap. */
  lemma {:induction false} BlocksApart(k: nat, i: nat, j: nat)
    requires i < j
    ensures Offset(k, i) + k <= Offset(k, j)
  {
    if i + 1 < j {
      BlocksApart(k, i, j - 1);
    }
  }

  /** Data field i is the start of received block i. */
  lemma {:induction false} DataField(w: Bits, m: nat, k: nat, c: nat, i: nat)
    requires m <= k && Offset(k, c) <= |w| && i < c
    ensures Offset(m, i) + m <= Offset(m, c) && Offset(k, i) + k <= Offset(k, c)
    ensures Data(w, m, k, c)[Offset(m, i)..Offset(m, i) + m] == w[Offset(k, i)..Offset(k, i) + m]
    decreases c
  {
    hide Data, Offset;
    OneMoreOffset(m, c - 1);
    OneMoreOffset(k, c - 1);
    var n, o := Offset(m, c - 1), Offset(k, c - 1);
    OneMoreKept(w, m, k, c - 1, w[o..o + m]);
    var d := Data(w, m, k, c);
    if i < c - 1 {
      DataField(w, m, k, c - 1, i);
      assert d[..n] == Data(w, m, k, c - 1);
      SliceOfPrefix(d, Offset(m, i), Offset(m, i) + m, n);
    }
  }

  /** Sent block i is its piece of the payload, the parity of that, and zeros. */
  lemma {:induction false} WholeBlock(g: Bits, payload: Bits, m: nat, k: nat, c: nat, i: nat)
    requires |g| > 0 && m + |g| <= k && Offset(m, c) <= |payload| && i < c
    ensures Offset(m, i) + m <= Offset(m, c) && Offset(k, i) + k <= Offset(k, c)
    ensures var data := payload[Offset(m, i)..Offset(m, i) + m];
      Blocks(g, payload, m, k, c)[Offset(k, i)..Offset(k, i) + k] == data + Crc(g, data) + Zeros(k - m - |g|)
    decreases c
  {
    hide Crc, Block, Blocks, Offset;
    OneMoreOffset(m, c - 1);
    OneMoreOffset(k, c - 1);
    var n, o := Offset(k, c - 1), Offset(m, c - 1);
    var last := payload[o..o + m];
    OneMoreBlock(g, payload, m, k, c - 1, last);
    var w := Blocks(g, payload, m, k, c);
    if i < c - 1 {
      WholeBlock(g, payload, m, k, c - 1, i);
      assert w[..n] == Blocks(g, payload, m, k, c - 1);
      SliceOfPrefix(w, Offset(k, i), Offset(k, i) + k, n);
    } else {
      BlockParts(g, last, k);
      assert w[n..n + k] == Block(g, last, k);
    }
  }

  // ----- Bits and bytes -----

  method Byte2BitsLsbf(value: Byte, bits: array<bool>, off: nat, nofBits: nat)
    requires nofBits <= 8 && off + nofBits <= bits.Length
    modifies bits
    ensures bits[..] == old(bits[..off]) + value[..nofBits] + old(bits[off + nofBits..])
  {
    hide Written, Shr;
    ghost var before, w := bits[..], value[..nofBits];
    var i := 0;
    while i < 8
      invariant i <= nofBits
      invariant i == 0 ==> bits[..] == before
      invariant i > 0 ==> bits[..] == Written(before, off, w, i)
    {
      if i == nofBits { break; }
      TopBit(value, i);
      var bit := Shr(value, 8 - i - 1)[7];
      WriteNext(before, off, w, i);
      bits[off + i] := bit;
      i := i + 1;
    }
    WrittenAll(before, off, w);
  }

  lemma TopBit(value: Byte, i: nat)
    requires i < 8
    ensures Shr(value, 8 - i - 1)[7] == value[i]
  {
  }

  method Bits2ByteLsbf(bits: array<bool>, off: nat, nofBits: nat) returns (byte: Byte)
    requires nofBits <= 8 && off + nofBits <= bits.Length
    ensures byte == bits[off..off + nofBits] + Zeros(8 - nofBits)
  {
    hide Packed, Or, Shl, ZeroExtend;
    ghost var w := bits[off..off + nofBits];
    PackedNone(w, 8, 8);
    byte := Zeros(8);
    var i := 0;
    while i < 8
      invariant i <= nofBits
      invariant byte == Packed(w, i, 8, 8)
    {
      if i == nofBits { break; }
      OrBit(w, i, 8, 8);
      byte := Or(byte, Shl(ZeroExtend([bits[off + i]], 8), 8 - i - 1));
      i := i + 1;
    }
    PackedAll(w, 8, 8);
  }

  /** Input bytes to bits. */
  method UnpackAll(inBytes: array<Byte>, n: nat, bits: array<bool>)
    requires n <= inBytes.Length && 8 * n <= bits.Length
    modifies bits
    ensures bits[..8 * n] == Flatten(inBytes[..n])
    ensures bits[8 * n..] == old(bits[8 * n..])
  {
    FlattenEmpty();
    for i := 0 to n
      invariant bits[..8 * i] == Flatten(inBytes[..i])
      invariant bits[8 * n..] == old(bits[8 * n..])
    {
      ghost var before := bits[..];
      Byte2BitsLsbf(inBytes[i], bits, 8 * i, 8);
      assert inBytes[..i + 1] == inBytes[..i] + [inBytes[i]];
      FlattenAppend(inBytes[..i], inBytes[i]);
      assert bits[..8 * (i + 1)] == before[..8 * i] + inBytes[i];
    }
  }

  /** Bits to output bytes. */
  method PackAll(bits: array<bool>, n: nat, outBytes: array<Byte>)
    requires n <= outBytes.Length && 8 * n <= bits.Length
    modifies outBytes
    ensures Flatten(outBytes[..n]) == bits[..8 * n]
    ensures outBytes[n..] == old(outBytes[n..])
  {
    FlattenEmpty();
    for i := 0 to n
      invariant outBytes[n..] == old(outBytes[n..])
      invariant Flatten(outBytes[..i]) == bits[..8 * i]
    {
      ghost var before := outBytes[..i];
      var byte := Bits2ByteLsbf(bits, 8 * i, 8);
      outBytes[i] := byte;
      assert outBytes[..i + 1] == before + [byte];
      FlattenAppend(before, byte);
      assert bits[..8 * (i + 1)] == bits[..8 * i] + byte;
    }
  }

  lemma {:induction false} FlattenPrefix(bytes: seq<Byte>, i: nat)
    requires i <= |bytes|
    ensures Flatten(bytes[..i]) == Flatten(bytes)[..8 * i]
    decreases |bytes|
  {
    if i == |bytes| {
      assert bytes[..i] == bytes;
    } else {
      var h := bytes[..|bytes| - 1];
      FlattenPrefix(h, i);
      assert h[..i] == bytes[..i];
    }
  }

  /** Bytes with the given bits. */
  function ToBytes(w: Bits): (bytes: seq<Byte>)
    requires |w| % 8 == 0
    ensures 8 * |bytes| == |w|
    decreases |w|
  {
    if w == [] then [] else ToBytes(w[..|w| - 8]) + [w[|w| - 8..]]
  }

  lemma {:induction false} FlattenToBytes(w: Bits)
    requires |w| % 8 == 0
    ensures Flatten(ToBytes(w)) == w
    decreases |w|
  {
    if w != [] {
      var h, d := w[..|w| - 8], w[|w| - 8..];
      FlattenToBytes(h);
      FlattenAppend(ToBytes(h), d);
      assert w == h + d;
    }
  }

  // ----- Transmitter -----

  /** Filler zeros, data and parity of one block. */
  method FillBlock(bitsOut: array<bool>, off: nat, bitsIn: array<bool>, src: nat, m: nat, k: nat, crc: CrcParams)
    requires bitsOut != bitsIn && src + m <= bitsIn.Length && off + k <= bitsOut.Length
    requires crc.Uses(Crc24B) && 8 <= m <= MAX_LENGTH && m + 24 <= k
    modifies bitsOut, crc.data0
    ensures bitsOut[..off + k] == old(bitsOut[..off]) + Block(Crc24B, bitsIn[src..src + m], k)
    ensures crc.Uses(Crc24B)
  {
    hide Crc, Block, Zeros, CrcParams.Uses;
    ZeroAndCopy(bitsOut, off, bitsIn, src, m, k);
    ghost var data := bitsIn[src..src + m];
    ghost var filled := bitsOut[..];
    assert filled[off..off + m] == data by { Middle(filled, off, old(bitsOut[..off]), data, Zeros(k - m)); }
    AttachCrc(bitsOut, off, m, crc);
    AttachedBlock(filled, bitsOut[..], old(bitsOut[..off]), data, Crc(Crc24B, data), off, k);
    assert Block(Crc24B, data, k) == data + Crc(Crc24B, data) + Zeros(k - m - 24) by { BlockParts(Crc24B, data, k); }
  }

  lemma BlockParts(g: Bits, data: Bits, k: nat)
    requires |g| > 0 && |data| + |g| <= k
    ensures Block(g, data, k) == data + Crc(g, data) + Zeros(k - |data| - |g|)
  {
  }

  /** crc_attach with the code block generator. */
  method AttachCrc(bits: array<bool>, off: nat, m: nat, crc: CrcParams)
    requires crc.Uses(Crc24B) && 8 <= m <= MAX_LENGTH && off + m + 24 <= bits.Length
    modifies bits, crc.data0
    ensures bits[..] == old(bits[..off + m]) + Crc(Crc24B, old(bits[off..off + m])) + old(bits[off + m + 24..])
    ensures crc.Uses(Crc24B)
  {
    hide Crc;
    GeneratorsAreValid();
    var _ := crc.CrcAttach(bits, off, m);
  }

  /** initCodeBlock: none of the three set-up calls reports an error. */
  method InitCodeBlock(crc: CrcParams) returns (errors: int)
    requires crc.table.Length == 256 && crc.data0.Length == MAX_LENGTH
    modifies crc, crc.table
    ensures errors == 0 && crc.Uses(Crc24B)
  {
    hide Crc;
    GeneratorsAreValid();
    WordHasDegree(Crc24B);
    errors := 0;
    var error := crc.Init(Word(Crc24B), 24);
    crc.GenIsLow();
    if error != 0 { errors := errors + 1; }
    error := crc.SetInit(Zeros(64));
    if error != 0 { errors := errors + 1; }
    error := crc.SetXor(Zeros(64));
    if error != 0 { errors := errors + 1; }
  }

  /** memset and memcpy of one block. */
  method ZeroAndCopy(bitsOut: array<bool>, off: nat, bitsIn: array<bool>, src: nat, m: nat, k: nat)
    requires bitsOut != bitsIn && src + m <= bitsIn.Length && off + k <= bitsOut.Length && m <= k
    modifies bitsOut
    ensures bitsOut[..off + k] == old(bitsOut[..off]) + bitsIn[src..src + m] + Zeros(k - m)
  {
    forall i | m <= i < k {
      bitsOut[off + i] := false;
    }
    forall i | 0 <= i < m {
      bitsOut[off + i] := bitsIn[src + i];
    }
    ThreeParts(bitsOut[..], old(bitsOut[..off]), bitsIn[src..src + m], k);
  }

  lemma ThreeParts(s: Bits, before: Bits, data: Bits, k: nat)
    requires |data| <= k && |before| + k <= |s|
    requires forall i :: 0 <= i < |before| ==> s[i] == before[i]
    requires forall i :: 0 <= i < |data| ==> s[|before| + i] == data[i]
    requires forall i :: |before| + |data| <= i < |before| + k ==> !s[i]
    ensures s[..|before| + k] == before + data + Zeros(k - |data|)
  {
    var o, n := |before|, |before| + |data|;
    assert s[..o] == before;
    assert s[o..n] == data;
    assert s[n..o + k] == Zeros(k - |data|);
    assert s[..o + k] == s[..o] + s[o..n] + s[n..o + k];
  }

  lemma Middle(s: Bits, off: nat, a: Bits, b: Bits, c: Bits)
    requires |a| == off && |s| >= |a| + |b| + |c| && s[..|a| + |b| + |c|] == a + b + c
    ensures s[off..off + |b|] == b && s[..off + |b|] == a + b
  {
    var t := a + b + c;
    assert t[off..off + |b|] == b && t[..off + |b|] == a + b;
    assert s[..|t|][off..off + |b|] == s[off..off + |b|] && s[..|t|][..off + |b|] == s[..off + |b|];
  }

  lemma AttachedBlock(filled: Bits, s: Bits, a: Bits, data: Bits, parity: Bits, off: nat, k: nat)
    requires off == |a| && |data| + |parity| <= k && off + k <= |filled|
    requires filled[..off + k] == a + data + Zeros(k - |data|)
    requires s == filled[..off + |data|] + parity + filled[off + |data| + |parity|..]
    ensures s[..off + k] == a + (data + parity + Zeros(k - |data| - |parity|))
  {
    var m, n := off + |data|, off + |data| + |parity|;
    Middle(filled, off, a, data, Zeros(k - |data|));
    assert filled[n..][..off + k - n] == filled[..off + k][n..] == Zeros(off + k - n);
  }

  /** aloe_CreateCodeBlocks. `payload` is what the blocks carry: the input bits, then whatever the
      last positions of the uninitialised bit buffer hold when the blocks do not divide evenly. */
  method CreateCodeBlocks(inBytes: array<Byte>, outBytes: array<Byte>, info: CbInfo, crc: CrcParams)
    returns (outNumBytes: nat, ghost payload: Bits)
    requires info.Segmented() && info.B % 8 == 0 && info.B <= 125000
    requires crc.Uses(Crc24B)
    requires info.B / 8 <= inBytes.Length && info.CBsize * info.nofCBs / 8 <= outBytes.Length
    requires outBytes != crc.data0 && outBytes != inBytes && inBytes != crc.data0
    modifies outBytes, crc.data0
    ensures outNumBytes == info.CBsize * info.nofCBs / 8
    ensures outBytes[outNumBytes..] == old(outBytes[outNumBytes..])
    ensures |payload| == info.nofCBs * (info.K1 - info.L_CB)
    ensures payload[..info.B] == Flatten(inBytes[..info.B / 8])
    ensures Carries(Flatten(outBytes[..outNumBytes]), payload, info.K1 - info.L_CB, info.CBsize, info.nofCBs)
    ensures info.nofCBs == 1 ==> info.K1 <= 8 * outNumBytes
    ensures info.nofCBs == 1 ==>
      Flatten(outBytes[..outNumBytes]) == payload + Zeros(8 * outNumBytes - info.K1)
    ensures info.nofCBs > 1 ==>
      && |Flatten(outBytes[..outNumBytes])| == Offset(info.CBsize, info.nofCBs)
      && BlocksLaid(Flatten(outBytes[..outNumBytes]), payload, info.K1 - 24, info.CBsize, info.nofCBs)
  {
    hide Carries, Crc, CrcParams.Uses, Flatten, Offset, BlocksLaid;
    var M, K, C := info.K1 - info.L_CB, info.CBsize, info.nofCBs;
    var inBytesLength := info.B / 8;
    var bitsIn := new bool[MAX_BITS];
    UnpackAll(inBytes, inBytesLength, bitsIn);
    BufferBounds(M, K, C);
    payload := bitsIn[..C * M];
    PrefixOfPrefix(bitsIn[..], 8 * inBytesLength, C * M);
    outNumBytes := EmitBlocks(bitsIn, outBytes, M, K, C, crc);
    CarriesMeans(Flatten(outBytes[..outNumBytes]), payload, M, K, C);
  }

  /** Each of c blocks of k bits is its m bits of the payload, their CRC24B and zeros. */
  ghost predicate BlocksLaid(w: Bits, payload: Bits, m: nat, k: nat, c: nat)
    requires m + 24 <= k
  {
    forall i: nat :: i < c ==>
      && Offset(m, i) + m <= |payload| && Offset(k, i) + k <= |w|
      && BlockIs(w[Offset(k, i)..Offset(k, i) + k], payload[Offset(m, i)..Offset(m, i) + m])
  }

  ghost predicate BlockIs(block: Bits, data: Bits) {
    |data| + 24 <= |block| && block == data + Crc(Crc24B, data) + Zeros(|block| - |data| - 24)
  }

  /** The same bit by bit. */
  lemma {:induction false} CarriesMeans(w: Bits, payload: Bits, m: nat, k: nat, c: nat)
    requires c >= 1 && |payload| == c * m && (if c == 1 then m <= k && m % 8 == 0 else m + 24 <= k)
    requires Carries(w, payload, m, k, c)
    ensures c == 1 ==> m <= |w| && w == payload + Zeros(|w| - m)
    ensures c > 1 ==> |w| == Offset(k, c)
    ensures c > 1 ==> BlocksLaid(w, payload, m, k, c)
  {
    hide Crc, Blocks, Offset, BlocksLaid;
    if c == 1 {
      CutZeros(payload, k / 8 * 8 - m, k - m);
    } else {
      BlocksAreLaid(w, payload, m, k, c);
    }
  }

  lemma {:induction false} BlocksAreLaid(w: Bits, payload: Bits, m: nat, k: nat, c: nat)
    requires m + 24 <= k && Offset(m, c) <= |payload| && w == Blocks(Crc24B, payload, m, k, c)
    ensures BlocksLaid(w, payload, m, k, c)
  {
    hide Crc, Blocks, Offset, BlockIs, Zeros;
    forall i: nat | i < c
      ensures Offset(m, i) + m <= |payload| && Offset(k, i) + k <= |w|
      ensures BlockIs(w[Offset(k, i)..Offset(k, i) + k], payload[Offset(m, i)..Offset(m, i) + m])
    {
      WholeBlock(Crc24B, payload, m, k, c, i);
      ThisBlockIs(w[Offset(k, i)..Offset(k, i) + k], payload[Offset(m, i)..Offset(m, i) + m], k);
    }
  }

  lemma ThisBlockIs(block: Bits, data: Bits, k: nat)
    requires |block| == k && |data| + 24 <= k && block == data + Crc(Crc24B, data) + Zeros(k - |data| - 24)
    ensures BlockIs(block, data)
  {
    hide Crc, Zeros;
  }

  lemma CutZeros(a: Bits, i: nat, n: nat)
    requires i <= n
    ensures (a + Zeros(n))[..|a| + i] == a + Zeros(i)
  {
  }

  /** What the output bits are: the one block padded with zeros, or all the blocks. */
  ghost predicate Carries(w: Bits, payload: Bits, m: nat, k: nat, c: nat)
    requires |payload| == c * m && c >= 1 && if c == 1 then m <= k else m + 24 <= k
  {
    if c == 1 then
      w == (payload + Zeros(k - m))[..k / 8 * 8]
    else
      Offset(m, c) == |payload| && w == Blocks(Crc24B, payload, m, k, c)
  }

  method EmitBlocks(bitsIn: array<bool>, outBytes: array<Byte>, M: nat, K: nat, C: nat, crc: CrcParams)
    returns (outNumBytes: nat)
    requires 1 <= C <= 33 && C * M <= bitsIn.Length && K * C / 8 <= outBytes.Length
    requires if C == 1 then M <= K <= MAXCB_KCBG1 else 8 <= M && M + 24 <= K <= MAXCB_KCBG1 && K % 8 == 0
    requires crc.Uses(Crc24B) && outBytes != crc.data0
    modifies outBytes, crc.data0
    ensures outNumBytes == K * C / 8
    ensures Carries(Flatten(outBytes[..outNumBytes]), bitsIn[..C * M], M, K, C)
    ensures outBytes[outNumBytes..] == old(outBytes[outNumBytes..])
  {
    hide Crc, Blocks;
    if C > 1 {
      BufferBounds(M, K, C);
      var bitsOut := new bool[MAX_BITS];
      FillAll(bitsIn, bitsOut, M, K, C, crc);
      outNumBytes := K * C / 8;
      WholeBytes(K, C);
      PackAll(bitsOut, outNumBytes, outBytes);
    } else {
      outNumBytes := SingleBlock(bitsIn, outBytes, M, K);
    }
  }

  method SingleBlock(bitsIn: array<bool>, outBytes: array<Byte>, k1: nat, k: nat) returns (outNumBytes: nat)
    requires k1 <= k <= MAXCB_KCBG1 && k1 <= bitsIn.Length && k / 8 <= outBytes.Length
    modifies outBytes
    ensures outNumBytes == k / 8
    ensures Flatten(outBytes[..outNumBytes]) == (bitsIn[..k1] + Zeros(k - k1))[..k / 8 * 8]
    ensures outBytes[outNumBytes..] == old(outBytes[outNumBytes..])
  {
    hide Flatten, Zeros;
    var bitsCrc := new bool[MAXCB_KCBG1];
    forall i | 0 <= i < k1 {
      bitsCrc[i] := bitsIn[i];
    }
    forall i | k1 <= i < k {
      bitsCrc[i] := false;
    }
    ThreeParts(bitsCrc[..], [], bitsIn[..k1], k);
    ghost var block := bitsIn[..k1] + Zeros(k - k1);
    assert [] + bitsIn[..k1] == bitsIn[..k1];
    assert bitsCrc[..][..k] == block;
    outNumBytes := k / 8;
    PackAll(bitsCrc, outNumBytes, outBytes);
    PrefixOfPrefix(bitsCrc[..], 8 * outNumBytes, k);
    assert bitsCrc[..8 * outNumBytes] == bitsCrc[..][..8 * outNumBytes];
  }

  /** The loop over the blocks. */
  method FillAll(bitsIn: array<bool>, bitsOut: array<bool>, M: nat, K: nat, C: nat, crc: CrcParams)
    requires bitsIn != bitsOut && C * M <= bitsIn.Length && C * K <= bitsOut.Length
    requires crc.Uses(Crc24B) && 8 <= M <= MAX_LENGTH && M + 24 <= K
    modifies bitsOut, crc.data0
    ensures Offset(M, C) == C * M && Offset(K, C) == C * K
    ensures bitsOut[..C * K] == Blocks(Crc24B, bitsIn[..C * M], M, K, C)
  {
    hide Crc, Block, Blocks, Offset, CrcParams.Uses;
    OffsetIsProduct(M, C);
    OffsetIsProduct(K, C);
    OffsetIsProduct(M, 0);
    OffsetIsProduct(K, 0);
    GeneratorsAreValid();
    ghost var payload := bitsIn[..C * M];
    for k := 0 to C
      invariant Offset(M, k) <= C * M && Offset(K, k) <= C * K
      invariant bitsOut[..Offset(K, k)] == Blocks(Crc24B, payload, M, K, k)
    {
      var to, from := BlockStarts(K, M, k, C);
      OneMoreBlock(Crc24B, payload, M, K, k, bitsIn[from..from + M]);
      FillBlock(bitsOut, to, bitsIn, from, M, K, crc);
    }
  }

  lemma {:induction false} OffsetGrows(k: nat, i: nat, c: nat)
    requires i < c
    ensures Offset(k, i + 1) <= Offset(k, c)
  {
    if i + 1 < c {
      OffsetGrows(k, i, c - 1);
    }
  }

  lemma BufferBounds(M: nat, K: nat, C: nat)
    requires 1 <= C <= 33 && M <= K <= MAXCB_KCBG1
    ensures C * M <= C * K <= MAX_BITS && 1 * M == M && C * M + 7 <= MAX_BITS
  {
    assert 33 * MAXCB_KCBG1 <= MAX_BITS;
    Monotone(C, 33, K);
    Monotone(M, K, C);
  }

  lemma PrefixOfPrefix(w: Bits, i: nat, j: nat)
    requires i <= j <= |w|
    ensures w[..j][..i] == w[..i]
  {
  }

  lemma WholeBytes(K: nat, C: nat)
    requires K % 8 == 0
    ensures 8 * (K * C / 8) == K * C == C * K
  {
    assert K * C == 8 * (K / 8 * C);
  }

  // ----- Receiver -----

  class CbStatist {
    var nofWrongCBCRCs: nat
    const wrongCBCRC: array<nat>
    const histowrongCBCRC: array<nat>

    constructor ()
      ensures wrongCBCRC.Length == histowrongCBCRC.Length == HISTOSZ && wrongCBCRC != histowrongCBCRC
      ensures fresh(wrongCBCRC) && fresh(histowrongCBCRC)
    {
      nofWrongCBCRCs := 0;
      wrongCBCRC := new nat[HISTOSZ](_ => 0);
      histowrongCBCRC := new nat[HISTOSZ](_ => 0);
    }

    ghost predicate Valid() {
      wrongCBCRC.Length == histowrongCBCRC.Length == HISTOSZ && wrongCBCRC != histowrongCBCRC
    }

    /** Note block k as wrong, the j-th of this call. */
    method Count(j: nat, k: nat)
      requires Valid() && j < HISTOSZ && k < HISTOSZ
      modifies this`nofWrongCBCRCs, wrongCBCRC, histowrongCBCRC
      ensures nofWrongCBCRCs == old(nofWrongCBCRCs) + 1
      ensures wrongCBCRC[..] == old(wrongCBCRC[..])[j := k]
      ensures histowrongCBCRC[..] == old(histowrongCBCRC[..])[k := old(histowrongCBCRC[k]) + 1]
    {
      wrongCBCRC[j] := k;
      nofWrongCBCRCs := nofWrongCBCRCs + 1;
      histowrongCBCRC[k] := histowrongCBCRC[k] + 1;
    }
  }

  /** The statistics after the blocks `bad` were found wrong, each counted once. */
  ghost predicate Counted(nof: nat, list: seq<nat>, histo: seq<nat>,
                          nof0: nat, list0: seq<nat>, histo0: seq<nat>, bad: seq<nat>)
  {
    && nof == nof0 + |bad|
    && |bad| <= |list0| && list == bad + list0[|bad|..]
    && |histo| == |histo0|
    && forall b :: 0 <= b < |histo| ==> histo[b] == histo0[b] + (if b in bad then 1 else 0)
  }

  lemma CountOne(nof: nat, list: seq<nat>, histo: seq<nat>,
                 nof0: nat, list0: seq<nat>, histo0: seq<nat>, bad: seq<nat>, k: nat)
    requires Counted(nof, list, histo, nof0, list0, histo0, bad)
    requires |bad| < |list| && k < |histo| && k !in bad
    ensures Counted(nof + 1, list[|bad| := k], histo[k := histo[k] + 1], nof0, list0, histo0, bad + [k])
  {
    assert list[|bad| := k] == (bad + [k]) + list0[|bad| + 1..];
  }

  /** check_CRC on a block stored one bit per char is zero exactly for codewords. */
  method CheckBits(block: Bits, crc: CrcParams) returns (value: Bits)
    requires |block| <= MAX_LENGTH && crc.Uses(Crc24B)
    modifies crc.data0
    ensures |value| == 32 && (value == Zeros(32) <==> Codeword(Crc24B, block))
  {
    hide Crc, Codeword;
    value := crc.CheckCrc(AsBytes(block));
    CheckIsExact(block);
    ZeroPadding(8, Crc(Crc24B, Flatten(AsBytes(block))));
  }

  /** The loop of aloe_5GCheckCRC over the blocks: check each one bit per char, keep its data. */
  method CheckBlocks(bits: array<bool>, aux: array<bool>, K: nat, K1: nat, M: nat, C: nat,
                     stat: CbStatist, crc: CrcParams)
    requires bits != aux && Offset(K, C) <= bits.Length && Offset(M, C) <= aux.Length
    requires M <= K1 <= K <= MAXCB_KCBG1 && C <= HISTOSZ
    requires stat.Valid() && crc.Uses(Crc24B)
    modifies stat`nofWrongCBCRCs, stat.wrongCBCRC, stat.histowrongCBCRC, aux, crc.data0
    ensures aux[..Offset(M, C)] == Data(bits[..], M, K, C)
    ensures Counted(stat.nofWrongCBCRCs, stat.wrongCBCRC[..], stat.histowrongCBCRC[..],
                    old(stat.nofWrongCBCRCs), old(stat.wrongCBCRC[..]), old(stat.histowrongCBCRC[..]),
                    Wrong(Crc24B, bits[..], K1, K, C))
  {
    hide Crc, Codeword, CrcParams.Uses, Counted, Offset, Data, Wrong;
    ghost var w := bits[..];
    var j := 0;
    CountedNone(stat.nofWrongCBCRCs, stat.wrongCBCRC[..], stat.histowrongCBCRC[..]);
    NoBlocks(Crc24B, w, K1, M, K);
    for k := 0 to C
      invariant Offset(M, k) <= Offset(M, C) && Offset(K, k) <= Offset(K, C)
      invariant j == |Wrong(Crc24B, w, K1, K, k)|
      invariant aux[..Offset(M, k)] == Data(w, M, K, k)
      invariant Counted(stat.nofWrongCBCRCs, stat.wrongCBCRC[..], stat.histowrongCBCRC[..],
                        old(stat.nofWrongCBCRCs), old(stat.wrongCBCRC[..]), old(stat.histowrongCBCRC[..]),
                        Wrong(Crc24B, w, K1, K, k))
    {
      var from, to := BlockStarts(K, M, k, C);
      var block := bits[from..from + K1];
      OneMoreChecked(Crc24B, w, K1, K, k, block);
      OneMoreKept(w, M, K, k, block[..M]);
      j := CountBlock(block, k, j, stat, crc, Wrong(Crc24B, w, K1, K, k),
                      old(stat.nofWrongCBCRCs), old(stat.wrongCBCRC[..]), old(stat.histowrongCBCRC[..]));
      assert bits[from..from + M] == block[..M];
      CopyBits(bits, from, aux, to, M);
    }
  }

  /** The pointers bitsOUT + k*K and bitsOUTaux + k*M. */
  method BlockStarts(K: nat, M: nat, k: nat, C: nat) returns (from: nat, to: nat)
    requires k < C
    ensures from == Offset(K, k) && to == Offset(M, k)
    ensures Offset(K, k + 1) == from + K <= Offset(K, C) && Offset(M, k + 1) == to + M <= Offset(M, C)
  {
    from, to := k * K, k * M;
    OffsetIsProduct(M, k);
    OffsetIsProduct(K, k);
    OffsetGrows(M, k, C);
    OffsetGrows(K, k, C);
  }

  lemma NoBlocks(g: Bits, w: Bits, k1: nat, m: nat, k: nat)
    requires |g| > 0 && m <= k1 <= k
    ensures Offset(m, 0) == Offset(k, 0) == 0
    ensures Wrong(g, w, k1, k, 0) == [] && Data(w, m, k, 0) == []
  {
  }

  lemma OneMoreChecked(g: Bits, w: Bits, k1: nat, k: nat, c: nat, block: Bits)
    requires |g| > 0 && k1 <= k && Offset(k, c) + k <= |w|
    requires block == w[Offset(k, c)..Offset(k, c) + k1]
    ensures Wrong(g, w, k1, k, c + 1)
         == if Codeword(g, block) then Wrong(g, w, k1, k, c) else Wrong(g, w, k1, k, c) + [c]
  {
    hide Codeword;
  }

  lemma OneMoreKept(w: Bits, m: nat, k: nat, c: nat, data: Bits)
    requires m <= k && Offset(k, c) + k <= |w|
    requires data == w[Offset(k, c)..Offset(k, c) + m]
    ensures Data(w, m, k, c + 1) == Data(w, m, k, c) + data
  {
  }

  /** Check one block and note it if it is wrong. */
  method CountBlock(block: Bits, k: nat, j: nat, stat: CbStatist, crc: CrcParams,
                    ghost bad: seq<nat>, ghost nof0: nat, ghost list0: seq<nat>, ghost histo0: seq<nat>)
    returns (j': nat)
    requires |block| <= MAX_LENGTH && j == |bad| <= k < HISTOSZ && k !in bad
    requires stat.Valid() && crc.Uses(Crc24B)
    requires Counted(stat.nofWrongCBCRCs, stat.wrongCBCRC[..], stat.histowrongCBCRC[..], nof0, list0, histo0, bad)
    modifies stat`nofWrongCBCRCs, stat.wrongCBCRC, stat.histowrongCBCRC, crc.data0
    ensures var bad' := if Codeword(Crc24B, block) then bad else bad + [k];
      && j' == |bad'|
      && Counted(stat.nofWrongCBCRCs, stat.wrongCBCRC[..], stat.histowrongCBCRC[..], nof0, list0, histo0, bad')
  {
    hide Crc, Codeword, CrcParams.Uses, Counted;
    j' := j;
    var value := CheckBits(block, crc);
    if value != Zeros(32) {
      CountOne(stat.nofWrongCBCRCs, stat.wrongCBCRC[..], stat.histowrongCBCRC[..], nof0, list0, histo0, bad, k);
      stat.Count(j, k);
      j' := j + 1;
    }
  }

  lemma CountedNone(nof: nat, list: seq<nat>, histo: seq<nat>)
    ensures Counted(nof, list, histo, nof, list, histo, [])
  {
  }

  method CopyBits(src: array<bool>, from: nat, dst: array<bool>, to: nat, n: nat)
    requires src != dst && from + n <= src.Length && to + n <= dst.Length
    modifies dst
    ensures dst[..to + n] == old(dst[..to]) + src[from..from + n]
  {
    forall i | 0 <= i < n {
      dst[to + i] := src[from + i];
    }
  }

  /** The output starts with the data field of the block, or of all the blocks. */
  ghost predicate Received(w: Bits, out: Bits, m: nat, k: nat, c: nat) {
    && m <= k && Offset(k, c) <= |w| && Offset(m, c) <= |out|
    && out[..Offset(m, c)] == if c == 1 then w[..m] else Data(w, m, k, c)
  }

  /** A single block carries no CRC of its own and is never counted wrong. */
  ghost function WrongBlocks(w: Bits, k1: nat, k: nat, c: nat): seq<nat>
    requires k1 <= k && Offset(k, c) <= |w|
  {
    if c == 1 then [] else Wrong(Crc24B, w, k1, k, c)
  }

  /** What a call of aloe_5GCheckCRC leaves behind; of the received bits it uses c * k. */
  ghost predicate Checked(input: seq<Byte>, output: seq<Byte>, m: nat, k1: nat, k: nat, c: nat,
                          nof: nat, list: seq<nat>, histo: seq<nat>, nof0: nat, list0: seq<nat>, histo0: seq<nat>)
  {
    && m <= k1 <= k && Offset(k, c) <= 8 * |input|
    && Received(Flatten(input)[..Offset(k, c)], Flatten(output), m, k, c)
    && Counted(nof, list, histo, nof0, list0, histo0, WrongBlocks(Flatten(input)[..Offset(k, c)], k1, k, c))
  }

  /** Only the first c * k received bits decide. */
  lemma {:induction false} SamePrefix(g: Bits, v: Bits, w: Bits, m: nat, k1: nat, k: nat, c: nat)
    requires |g| > 0 && m <= k1 <= k && Offset(k, c) <= |v| && Offset(k, c) <= |w|
    requires v[..Offset(k, c)] == w[..Offset(k, c)]
    ensures Data(v, m, k, c) == Data(w, m, k, c) && Wrong(g, v, k1, k, c) == Wrong(g, w, k1, k, c)
  {
    hide Codeword, Data, Wrong, Offset;
    if c == 0 {
      NoBlocks(g, v, k1, m, k);
      NoBlocks(g, w, k1, m, k);
    } else {
      OneMoreOffset(k, c - 1);
      var o := Offset(k, c - 1);
      SameSlice(v, w, 0, o, o + k);
      SameSlice(v, w, o, o + k1, o + k);
      SameSlice(v, w, o, o + m, o + k);
      SamePrefix(g, v, w, m, k1, k, c - 1);
      OneMoreChecked(g, v, k1, k, c - 1, v[o..o + k1]);
      OneMoreChecked(g, w, k1, k, c - 1, w[o..o + k1]);
      OneMoreKept(v, m, k, c - 1, v[o..o + m]);
      OneMoreKept(w, m, k, c - 1, w[o..o + m]);
    }
  }

  lemma SliceOfPrefix(w: Bits, i: nat, j: nat, n: nat)
    requires i <= j <= n <= |w|
    ensures w[..n][i..j] == w[i..j]
  {
  }

  lemma SameSlice(v: Bits, w: Bits, i: nat, j: nat, n: nat)
    requires i <= j <= n <= |v| && n <= |w| && v[..n] == w[..n]
    ensures v[i..j] == w[i..j]
    ensures i == 0 ==> v[..j] == w[..j]
  {
    assert v[..n][i..j] == v[i..j] && w[..n][i..j] == w[i..j];
  }

  lemma {:induction false} OnlyPrefixDecides(v: Bits, w: Bits, out: Bits, m: nat, k1: nat, k: nat, c: nat)
    requires c >= 1 && m <= k1 <= k && Offset(k, c) <= |v| && w == v[..Offset(k, c)]
    requires Received(v, out, m, k, c)
    ensures Received(w, out, m, k, c) && WrongBlocks(w, k1, k, c) == WrongBlocks(v, k1, k, c)
  {
    hide Offset, Data, Wrong;
    assert w[..Offset(k, c)] == w;
    SamePrefix(Crc24B, v, w, m, k1, k, c);
    if c == 1 {
      assert Offset(k, 1) == k by { OffsetIsProduct(k, 1); }
      PrefixOfPrefix(v, m, k);
    }
  }

  /** The loop reads n bytes. Those behind the end of the array are whatever the memory holds there. */
  method UnpackBeyond(inBytes: array<Byte>, beyond: nat -> Byte, n: nat, bits: array<bool>)
    requires 8 * n <= bits.Length
    modifies bits
    ensures n <= inBytes.Length ==> bits[..8 * n] == Flatten(inBytes[..n])
    ensures n > inBytes.Length ==> bits[..8 * inBytes.Length] == Flatten(inBytes[..])
  {
    hide Flatten;
    FlattenEmpty();
    for i := 0 to n
      invariant i <= inBytes.Length ==> bits[..8 * i] == Flatten(inBytes[..i])
      invariant i > inBytes.Length ==> bits[..8 * inBytes.Length] == Flatten(inBytes[..])
    {
      ghost var before := bits[..];
      var byte := if i < inBytes.Length then inBytes[i] else beyond(i);
      Byte2BitsLsbf(byte, bits, 8 * i, 8);
      assert bits[..8 * (i + 1)] == before[..8 * i] + byte;
      if i < inBytes.Length {
        assert inBytes[..i + 1] == inBytes[..i] + [inBytes[i]];
        FlattenAppend(inBytes[..i], inBytes[i]);
      } else {
        assert inBytes[..inBytes.Length] == inBytes[..];
        PrefixOfPrefix(bits[..], 8 * inBytes.Length, 8 * i);
        PrefixOfPrefix(before, 8 * inBytes.Length, 8 * i);
      }
    }
  }

  /** aloe_5GCheckCRC. The loop unpacks K * C bytes, eight times what arrived; `beyond` is what it reads
      behind the buffer, and the bit buffer has MAX_BITS places or as many more as it writes. */
  method CheckCodeBlocks(inBytes: array<Byte>, beyond: nat -> Byte, outBytes: array<Byte>, info: CbInfo,
                         stat: CbStatist, crc: CrcParams)
    returns (nofOutBytes: nat, ghost bad: seq<nat>)
    requires info.Shaped() && info.nofCBs <= 33
    requires info.CBsize * info.nofCBs <= 8 * inBytes.Length
    requires CeilDiv(info.nofCBs * (info.K1 - info.L_CB), 8) <= outBytes.Length
    requires stat.Valid() && crc.Uses(Crc24B)
    requires outBytes != inBytes && outBytes != crc.data0 && inBytes != crc.data0
    modifies stat`nofWrongCBCRCs, stat.wrongCBCRC, stat.histowrongCBCRC, outBytes, crc.data0
    ensures nofOutBytes == CeilDiv(info.nofCBs * (info.K1 - info.L_CB), 8)
    ensures outBytes[nofOutBytes..] == old(outBytes[nofOutBytes..])
    ensures Checked(inBytes[..], outBytes[..], info.K1 - info.L_CB, info.K1, info.CBsize, info.nofCBs,
                    stat.nofWrongCBCRCs, stat.wrongCBCRC[..], stat.histowrongCBCRC[..],
                    old(stat.nofWrongCBCRCs), old(stat.wrongCBCRC[..]), old(stat.histowrongCBCRC[..]))
    ensures Increasing(bad) && forall i: nat :: i in bad <==>
      info.nofCBs > 1 && i < info.nofCBs && !Good(Crc24B, Flatten(inBytes[..]), info.K1, info.CBsize, i)
    ensures stat.nofWrongCBCRCs == old(stat.nofWrongCBCRCs) + |bad|
    ensures |bad| <= HISTOSZ && stat.wrongCBCRC[..] == bad + old(stat.wrongCBCRC[..])[|bad|..]
    ensures forall i :: 0 <= i < HISTOSZ ==>
      stat.histowrongCBCRC[i] == old(stat.histowrongCBCRC[i]) + if i in bad then 1 else 0
    ensures FieldsKept(Flatten(inBytes[..]), Flatten(outBytes[..]), info.K1 - info.L_CB, info.CBsize, info.nofCBs)
  {
    hide Crc, CrcParams.Uses, Checked, CeilDiv, Offset, Flatten, Good, Increasing, FieldsKept;
    var K, C, K1, M := info.CBsize, info.nofCBs, info.K1, info.K1 - info.L_CB;
    BufferBounds(M, K, C);
    OffsetIsProduct(K, C);
    OffsetIsProduct(M, C);
    nofOutBytes := UnpackAndCheck(inBytes, beyond, outBytes, K, K1, M, C, K * C, C * M, stat, crc);
    bad := CheckedMeans(inBytes[..], outBytes[..], M, K1, K, C,
                        stat.nofWrongCBCRCs, stat.wrongCBCRC[..], stat.histowrongCBCRC[..],
                        old(stat.nofWrongCBCRCs), old(stat.wrongCBCRC[..]), old(stat.histowrongCBCRC[..]));
  }

  lemma CheckedInPrefix(input: seq<Byte>, output: seq<Byte>, i: nat, m: nat, k1: nat, k: nat, c: nat,
                        nof: nat, list: seq<nat>, histo: seq<nat>, nof0: nat, list0: seq<nat>, histo0: seq<nat>)
    requires i <= |output| && Checked(input, output[..i], m, k1, k, c, nof, list, histo, nof0, list0, histo0)
    ensures Checked(input, output, m, k1, k, c, nof, list, histo, nof0, list0, histo0)
  {
    hide Data, Counted, WrongBlocks, Flatten;
    FlattenPrefix(output, i);
    PrefixOfPrefix(Flatten(output), Offset(m, c), 8 * i);
  }

  /** The first m bits of each of c received blocks of k bits follow each other in the output. */
  ghost predicate FieldsKept(input: Bits, output: Bits, m: nat, k: nat, c: nat) {
    forall i: nat :: i < c ==>
      && Offset(m, i) + m <= |output| && Offset(k, i) + m <= |input|
      && output[Offset(m, i)..Offset(m, i) + m] == input[Offset(k, i)..Offset(k, i) + m]
  }

  /** The blocks that are no codewords are noted in order, once each in count, list and histogram; one block
      alone is never noted. Every data field is handed on, whatever was noted. */
  lemma {:induction false} CheckedMeans(input: seq<Byte>, output: seq<Byte>, m: nat, k1: nat, k: nat, c: nat,
                                        nof: nat, list: seq<nat>, histo: seq<nat>,
                                        nof0: nat, list0: seq<nat>, histo0: seq<nat>)
    returns (bad: seq<nat>)
    requires c >= 1 && Checked(input, output, m, k1, k, c, nof, list, histo, nof0, list0, histo0)
    ensures Increasing(bad)
    ensures forall i: nat :: i in bad <==> c > 1 && i < c && !Good(Crc24B, Flatten(input), k1, k, i)
    ensures nof == nof0 + |bad| && |bad| <= |list0| && list == bad + list0[|bad|..]
    ensures |histo| == |histo0| && forall i :: 0 <= i < |histo| ==> histo[i] == histo0[i] + if i in bad then 1 else 0
    ensures FieldsKept(Flatten(input), Flatten(output), m, k, c)
  {
    hide Flatten, Offset, Wrong, Data, Good;
    var w := Flatten(input)[..Offset(k, c)];
    bad := WrongBlocks(w, k1, k, c);
    if c > 1 {
      WrongIff(Crc24B, w, k1, k, c);
      forall i: nat | i < c
        ensures Good(Crc24B, w, k1, k, i) <==> Good(Crc24B, Flatten(input), k1, k, i)
      {
        GoodInPrefix(Crc24B, Flatten(input), k1, k, c, i);
      }
    }
    forall i: nat | i < c
      ensures Offset(m, i) + m <= 8 * |output| && Offset(k, i) + m <= 8 * |input|
      ensures Flatten(output)[Offset(m, i)..Offset(m, i) + m] == Flatten(input)[Offset(k, i)..Offset(k, i) + m]
    {
      FieldOut(Flatten(input), Flatten(output), m, k, c, i);
    }
  }

  lemma {:induction false} GoodInPrefix(g: Bits, w: Bits, k1: nat, k: nat, c: nat, i: nat)
    requires |g| > 0 && k1 <= k && Offset(k, c) <= |w| && i < c
    ensures Good(g, w[..Offset(k, c)], k1, k, i) <==> Good(g, w, k1, k, i)
  {
    hide Codeword;
    BlocksApart(k, i, c);
    SliceOfPrefix(w, Offset(k, i), Offset(k, i) + k1, Offset(k, c));
  }

  lemma {:induction false} FieldOut(w: Bits, out: Bits, m: nat, k: nat, c: nat, i: nat)
    requires i < c && m <= k && Offset(k, c) <= |w| && Received(w[..Offset(k, c)], out, m, k, c)
    ensures Offset(m, i) + m <= |out| && Offset(k, i) + m <= |w|
    ensures out[Offset(m, i)..Offset(m, i) + m] == w[Offset(k, i)..Offset(k, i) + m]
  {
    hide Data, Offset;
    var v := w[..Offset(k, c)];
    DataField(v, m, k, c, i);
    SliceOfPrefix(w, Offset(k, i), Offset(k, i) + m, Offset(k, c));
    SliceOfPrefix(out, Offset(m, i), Offset(m, i) + m, Offset(m, c));
    if c == 1 {
      OffsetIsProduct(k, 0);
      OffsetIsProduct(m, 0);
      OffsetIsProduct(m, 1);
      assert v[..m] == v[0..m];
      assert out[..Offset(m, 1)] == v[..m];
    }
  }

  method UnpackAndCheck(inBytes: array<Byte>, beyond: nat -> Byte, outBytes: array<Byte>, K: nat, K1: nat, M: nat,
                        C: nat, total: nat, nofOutBits: nat, stat: CbStatist, crc: CrcParams)
    returns (nofOutBytes: nat)
    requires 1 <= C <= 33 && M <= K1 <= K <= MAXCB_KCBG1 && total == Offset(K, C) <= 8 * inBytes.Length
    requires nofOutBits == Offset(M, C) && nofOutBits + 7 <= MAX_BITS && CeilDiv(nofOutBits, 8) <= outBytes.Length
    requires stat.Valid() && crc.Uses(Crc24B)
    requires outBytes != inBytes && outBytes != crc.data0 && inBytes != crc.data0
    modifies stat`nofWrongCBCRCs, stat.wrongCBCRC, stat.histowrongCBCRC, outBytes, crc.data0
    ensures nofOutBytes == CeilDiv(nofOutBits, 8)
    ensures outBytes[nofOutBytes..] == old(outBytes[nofOutBytes..])
    ensures Checked(inBytes[..], outBytes[..], M, K1, K, C,
                    stat.nofWrongCBCRCs, stat.wrongCBCRC[..], stat.histowrongCBCRC[..],
                    old(stat.nofWrongCBCRCs), old(stat.wrongCBCRC[..]), old(stat.histowrongCBCRC[..]))
  {
    hide Crc, CrcParams.Uses, Counted, CeilDiv, Received, WrongBlocks, Flatten, Offset;
    var places := if 8 * total <= MAX_BITS then MAX_BITS else 8 * total;
    var bits := new bool[places];
    UnpackBeyond(inBytes, beyond, total, bits);
    ghost var w := Flatten(inBytes[..])[..total];
    UnpackedPrefix(inBytes[..], bits[..], total);
    nofOutBytes := CheckAndKeep(bits, outBytes, K, K1, M, C, nofOutBits, stat, crc);
    OnlyPrefixDecides(bits[..], w, Flatten(outBytes[..nofOutBytes]), M, K1, K, C);
    CheckedInPrefix(inBytes[..], outBytes[..], nofOutBytes, M, K1, K, C,
                    stat.nofWrongCBCRCs, stat.wrongCBCRC[..], stat.histowrongCBCRC[..],
                    old(stat.nofWrongCBCRCs), old(stat.wrongCBCRC[..]), old(stat.histowrongCBCRC[..]));
  }

  lemma UnpackedPrefix(bytes: seq<Byte>, bits: Bits, n: nat)
    requires n <= 8 * |bytes| && 8 * n <= |bits|
    requires n <= |bytes| ==> bits[..8 * n] == Flatten(bytes[..n])
    requires n > |bytes| ==> bits[..8 * |bytes|] == Flatten(bytes)
    ensures |bits| >= n && bits[..n] == Flatten(bytes)[..n]
  {
    hide Flatten;
    if n <= |bytes| {
      FlattenPrefix(bytes, n);
      PrefixOfPrefix(Flatten(bytes), n, 8 * n);
      PrefixOfPrefix(bits, n, 8 * n);
    } else {
      PrefixOfPrefix(bits, n, 8 * |bytes|);
    }
  }

  method CheckAndKeep(bits: array<bool>, outBytes: array<Byte>, K: nat, K1: nat, M: nat, C: nat, nofOutBits: nat,
                      stat: CbStatist, crc: CrcParams) returns (nofOutBytes: nat)
    requires 1 <= C <= 33 && M <= K1 <= K <= MAXCB_KCBG1 && Offset(K, C) <= bits.Length
    requires nofOutBits == Offset(M, C) && nofOutBits + 7 <= MAX_BITS && CeilDiv(nofOutBits, 8) <= outBytes.Length
    requires stat.Valid() && crc.Uses(Crc24B) && outBytes != crc.data0
    modifies stat`nofWrongCBCRCs, stat.wrongCBCRC, stat.histowrongCBCRC, outBytes, crc.data0
    ensures nofOutBytes == CeilDiv(nofOutBits, 8)
    ensures outBytes[nofOutBytes..] == old(outBytes[nofOutBytes..])
    ensures Received(bits[..], Flatten(outBytes[..nofOutBytes]), M, K, C)
    ensures Counted(stat.nofWrongCBCRCs, stat.wrongCBCRC[..], stat.histowrongCBCRC[..],
                    old(stat.nofWrongCBCRCs), old(stat.wrongCBCRC[..]), old(stat.histowrongCBCRC[..]),
                    WrongBlocks(bits[..], K1, K, C))
  {
    hide Crc, CrcParams.Uses, Counted, CeilDiv, Data, Wrong, Offset, Flatten;
    OffsetIsProduct(K, 1);
    OffsetIsProduct(M, 1);
    var aux := new bool[MAX_BITS];
    if C > 1 {
      CheckBlocks(bits, aux, K, K1, M, C, stat, crc);
    } else {
      CopyBits(bits, 0, aux, 0, M);
      CountedNone(stat.nofWrongCBCRCs, stat.wrongCBCRC[..], stat.histowrongCBCRC[..]);
    }
    nofOutBytes := CeilDiv(nofOutBits, 8);
    PackAll(aux, nofOutBytes, outBytes);
    PrefixOfPrefix(aux[..], nofOutBits, 8 * nofOutBytes);
  }
}
