/** The table-driven CRC of 5G_CODE_BLOCK_functions.c. An `unsigned long` is a 64-bit word,
    an `int` or `unsigned int` a 32-bit word and a `char` a byte. */
module CrcEngine {
  import opened BitStrings
  import opened PolynomialRing
  import opened CyclicCode

  const MAX_LENGTH: nat := 1024 * 16

  /** The leading term of the polynomial word is x^order; 32-bit words have no room for x^32. */
  ghost predicate HasDegree(poly: Bits, order: nat) {
    && |poly| == 32 && order < 32
    && poly == Zeros(31 - order) + [true] + Low(poly, order)
  }

  class CrcParams {
    const table: array<Bits>
    const data0: array<Byte>
    var polynom: Bits
    var order: nat
    var crcinit: Bits
    var crcxor: Bits
    var crcmask: Bits
    var crchighbit: Bits

    constructor ()
      ensures fresh(table) && fresh(data0)
      ensures table.Length == 256 && data0.Length == MAX_LENGTH
    {
      table := new Bits[256];
      data0 := new Byte[MAX_LENGTH];
    }

    /** The generator in use: the low bits of the polynomial as the 64-bit register sees it. */
    ghost function Gen(): (g: Bits)
      requires |polynom| == 32 && order <= 64
      reads this
    {
      Low(SignExtend(polynom, 64), order)
    }

    lemma GenIsLow()
      requires |polynom| == 32 && order <= 32
      ensures Gen() == Low(polynom, order)
    {
    }

    ghost predicate Masks()
      reads this
    {
      && |polynom| == 32 && 8 <= order <= 64 && order % 8 == 0
      && crcmask == Zeros(64 - order) + Ones(order)
      && crchighbit == Zeros(64 - order) + [true] + Zeros(order - 1)
      && |crcinit| == 64 && |crcxor| == 64
      && crcinit == And(crcinit, crcmask) && crcxor == And(crcxor, crcmask)
      && table.Length == 256 && data0.Length == MAX_LENGTH
    }

    /** Parameters ready for use: every table entry is the parity of its index byte. */
    ghost predicate Valid()
      reads this, table
    {
      && Masks()
      && forall i :: 0 <= i < 256 ==> table[i] == ZeroExtend(Crc(Gen(), FromNat(i, 8)), 64)
    }

    /** The configuration the transport chain uses: initial value and final xor are zero. */
    ghost predicate Plain()
      reads this, table
    {
      Valid() && crcinit == Zeros(64) && crcxor == Zeros(64)
    }

    /** Ready for generator g, with its leading term in the polynomial word. */
    ghost predicate Uses(g: Bits)
      reads this, table
    {
      Plain() && Gen() == g && HasDegree(polynom, order)
    }

    method GenCrcTable()
      requires Masks()
      modifies table
      ensures Valid()
    {
      hide Crc;
      for i := 0 to 256
        invariant Masks()
        invariant forall e :: 0 <= e < i ==> table[e] == ZeroExtend(Crc(Gen(), FromNat(e, 8)), 64)
      {
        var crc := TableEntry(i);
        table[i] := crc;
      }
    }

    /** The inner loop: divide the index byte, one bit at a time. */
    method TableEntry(i: nat) returns (crc: Bits)
      requires Masks()
      ensures crc == ZeroExtend(Crc(Gen(), FromNat(i, 8)), 64)
    {
      var ord := order - 8;
      crc := Shl(FromNat(i, 64), ord);
      ghost var top := FromNat(i, 8) + Zeros(ord);
      LowOfShifted(i, order);
      for j := 0 to 8
        invariant |crc| == 64 && Low(crc, order) == TimesN(Gen(), j, top)
      {
        DividerStep(crc, order, polynom);
        TestHighBit(crc, order);
        var bit := And(crc, crchighbit);
        crc := Shl(crc, 1);
        if bit != Zeros(64) {
          crc := Xor(crc, SignExtend(polynom, 64));
        }
      }
      CrcOfShort(Gen(), FromNat(i, 8));
      MaskKeepsLow(crc, order);
      crc := And(crc, crcmask);
    }
  
    /** Returns 0, or -1 when the value does not fit the register; it is stored either way. */
    method SetInit(v: Bits) returns (error: int)
      requires |v| == 64 == |crcmask|
      modifies this`crcinit
      ensures crcinit == v && (error == 0 <==> v == And(v, crcmask)) && (error == 0 || error == -1)
    {
      crcinit := v;
      error := if crcinit != And(crcinit, crcmask) then -1 else 0;
    }

    method SetXor(v: Bits) returns (error: int)
      requires |v| == 64 == |crcmask|
      modifies this`crcxor
      ensures crcxor == v && (error == 0 <==> v == And(v, crcmask)) && (error == 0 || error == -1)
    {
      crcxor := v;
      error := if crcxor != And(crcxor, crcmask) then -1 else 0;
    }

    /** Set up for a polynomial; orders that are not whole bytes are refused. */
    method Init(poly: Bits, ord: nat) returns (error: int)
      requires |poly| == 32 && 1 <= ord <= 64
      requires table.Length == 256 && data0.Length == MAX_LENGTH
      modifies this, table
      ensures polynom == poly && order == ord
      ensures error == (if ord % 8 == 0 then 0 else -1)
      ensures error == 0 ==> Plain()
    {
      hide Crc, FromNat;
      polynom, order := poly, ord;
      crcinit, crcxor := Zeros(64), Zeros(64);
      crcmask := FromNat((Pow2(ord - 1) - 1) * 2 + 1, 64);
      crchighbit := FromNat(Pow2(ord - 1), 64);
      assert crcmask == Zeros(64 - ord) + Ones(ord) by { FromNatMask(ord, 64); }
      assert crchighbit == Zeros(64 - ord) + [true] + Zeros(ord - 1) by { FromNatPow2(ord - 1, 64); }
      assert And(Zeros(64), crcmask) == Zeros(64);
      if ord % 8 != 0 {
        return -1;
      }
      error := SetInit(crcxor);
      if error != 0 {
        return -1;
      }
      error := SetXor(crcxor);
      if error != 0 {
        return -1;
      }
      GenCrcTable();
    }

    /** Table CRC over the first `length` bytes of data0; the register is never masked inside the loop. */
    method CrcTable(length: nat) returns (crc: Bits)
      requires Valid() && length <= data0.Length
      ensures crc == ZeroExtend(Parity(data0[..length]), 64)
      ensures crc == ZeroExtend(Xor(Xor(Crc(Gen(), Flatten(data0[..length])),
                                        TimesN(Gen(), 8 * length, Low(crcinit, order))), Low(crcxor, order)), 64)
    {
      hide TimesN, Crc;
      var ord := order - 8;
      crc := crcinit;
      Seed();
      for k := 0 to length
        invariant |crc| == 64 && Low(crc, order) == Register(data0[..k])
      {
        var index := Xor(Low(Shr(crc, ord), 8), data0[k]);
        ValueBound(index);
        assert Pow2(8) == 256;
        RegisterStep(crc, data0[..k], data0[k]);
        assert data0[..k + 1] == data0[..k] + [data0[k]];
        crc := Xor(Shl(crc, 8), table[Value(index)]);
      }
      FinalXor(crc);
      crc := And(Xor(crc, crcxor), crcmask);
    }

    /** Run the divider backwards. */
    method ReverseCrcBit(value: Bits, nbits: nat) returns (crc: Bits)
      requires Valid() && HasDegree(polynom, order)
      requires |value| == 32 && value == ZeroExtend(Low(value, order), 32)
      ensures crc == ZeroExtend(Xor(UntimesN(Gen(), nbits, Low(value, order)), Low(crcxor, order)), 64)
    {
      hide UntimesN, Untimes, Crc;
      var v := value;
      ghost var r := Low(value, order);
      UntimesNZero(Gen(), r);
      for m := 0 to nbits
        invariant |r| == order && v == ZeroExtend(r, 32)
        invariant r == UntimesN(Gen(), m, Low(value, order))
      {
        BackwardStep(polynom, order, r);
        GenIsLow();
        UntimesNStep(Gen(), m, Low(value, order));
        if v[31] {
          v := Shr(Xor(v, polynom), 1);
        } else {
          v := Shr(v, 1);
        }
        r := Untimes(Gen(), r);
      }
      assert Low(ZeroExtend(v, 64), order) == r;
      FinalXor(ZeroExtend(v, 64));
      crc := And(Xor(ZeroExtend(v, 64), crcxor), crcmask);
    }

    /** Whole bytes of a bit buffer into data0; `pter` ends behind the last one read. */
    method PackBytes(buf: array<bool>, off: nat, len8: nat) returns (pter: nat)
      requires off + 8 * len8 <= buf.Length && len8 <= data0.Length
      modifies data0
      ensures Flatten(data0[..len8]) == buf[off..off + 8 * len8]
      ensures len8 > 0 ==> pter == off + 8 * len8
    {
      pter := off;
      for i := 0 to len8
        invariant Flatten(data0[..i]) == buf[off..off + 8 * i]
        invariant i > 0 ==> pter == off + 8 * i
      {
        pter := off + 8 * i;
        var value := UnpackBits(buf, pter, 8);
        pter := pter + 8;
        data0[i] := Low(value, 8);
        assert data0[..i + 1] == data0[..i] + [data0[i]];
        FlattenAppend(data0[..i], data0[i]);
      }
    }

    /** The bits left over, left-aligned in one more byte. */
    method PackTail(buf: array<bool>, pter: nat, len8: nat, res8: nat)
      requires res8 < 8 && len8 < data0.Length && (res8 > 0 ==> pter + res8 <= buf.Length)
      modifies data0
      ensures data0[..len8] == old(data0[..len8])
      ensures res8 > 0 ==> data0[len8] == buf[pter..pter + res8] + Zeros(8 - res8)
    {
      hide Packed, Or, Shl, ZeroExtend;
      ghost var w := if res8 > 0 then buf[pter..pter + res8] else [];
      PackedNone(w, 8, 8);
      data0[len8] := Zeros(8);
      for i := 0 to res8
        invariant data0[..len8] == old(data0[..len8])
        invariant data0[len8] == Packed(w, i, 8, 8)
      {
        OrBit(w, i, 8, 8);
        data0[len8] := Or(data0[len8], Shl(ZeroExtend([buf[pter + i]], 8), 7 - i));
      }
      PackedAll(w, 8, 8);
    }

    /** Compute the parity of `len` bits held one per char and store it behind them. */
    method CrcAttach(buf: array<bool>, off: nat, len: nat) returns (result: Bits)
      requires Plain() && order <= 32 && Generator(Gen()) && (len % 8 == 0 || HasDegree(polynom, order))
      requires off + len + order <= buf.Length && (len >= 8 || len == 0)
      modifies data0, buf
      ensures len > MAX_LENGTH ==> result == Ones(32) && buf[..] == old(buf[..])
      ensures len <= MAX_LENGTH ==>
        var parity := Crc(Gen(), old(buf[off..off + len]));
        && result == ZeroExtend(parity, 32)
        && buf[..] == old(buf[..off + len]) + parity + old(buf[off + len + order..])
    {
      hide Crc;
      if len > MAX_LENGTH {
        return Ones(32);
      }
      result := AttachedCrc(buf, off, len);
      PackBits(result, buf, off + len, order);
    }

    method AttachedCrc(buf: array<bool>, off: nat, len: nat) returns (result: Bits)
      requires Plain() && order <= 32 && Generator(Gen()) && (len % 8 == 0 || HasDegree(polynom, order))
      requires off + len <= buf.Length && (len >= 8 || len == 0) && len <= MAX_LENGTH
      modifies data0
      ensures result == ZeroExtend(Crc(Gen(), buf[off..off + len]), 32)
    {
      hide Crc, Flatten;
      var len8 := len / 8;
      var res8 := len - len8 * 8;
      var pter := PackBytes(buf, off, len8);
      PackTail(buf, pter, len8, res8);
      if res8 == 0 {
        assert buf[off..off + len] == buf[off..off + 8 * len8];
        result := WholeCrc(len8);
      } else {
        JoinTail(data0[..len8], data0[len8], data0[..len8 + 1], buf[off..pter], buf[pter..off + len]);
        assert buf[off..pter] + buf[pter..off + len] == buf[off..off + len];
        result := PaddedCrc(len8, res8, buf[off..off + len]);
      }
    }

    method WholeCrc(len8: nat) returns (result: Bits)
      requires Plain() && len8 <= data0.Length
      ensures result == Low(ZeroExtend(Crc(Gen(), Flatten(data0[..len8])), 64), 32)
      ensures order <= 32 ==> result == ZeroExtend(Crc(Gen(), Flatten(data0[..len8])), 32)
    {
      hide Crc, Flatten;
      PlainParity(data0[..len8]);
      var crc := CrcTable(len8);
      result := Low(crc, 32);
    }

    /** Parity of p from p padded to whole bytes: the divider is run back over the padding. */
    method PaddedCrc(len8: nat, res8: nat, ghost p: Bits) returns (result: Bits)
      requires Plain() && Generator(Gen()) && HasDegree(polynom, order) && len8 < data0.Length && res8 < 8
      requires Flatten(data0[..len8 + 1]) == p + Zeros(8 - res8)
      ensures result == ZeroExtend(Crc(Gen(), p), 32)
    {
      hide Crc, UntimesN, Flatten, Xor, Low, ZeroExtend;
      result := WholeCrc(len8 + 1);
      LowOfExtended(Crc(Gen(), Flatten(data0[..len8 + 1])));
      LowOfExtended(Crc(Gen(), p));
      var crc := ReverseCrcBit(result, 8 - res8);
      BackOverPadding(Gen(), p, 8 - res8);
      PlainXor(Crc(Gen(), p));
      result := Low(crc, 32);
    }

    lemma PlainXor(r: Bits)
      requires Plain() && |r| == order
      ensures Xor(r, Low(crcxor, order)) == r
    {
      assert Low(crcxor, order) == Zeros(order);
      XorZero(r);
    }

    /** Append the parity of the first `datalen` bytes, most significant byte first. */
    method AddCrc(buf: array<Byte>, datalen: nat)
      requires Plain() && order <= 32 && buf != data0
      requires datalen <= MAX_LENGTH && datalen + order / 8 <= buf.Length
      modifies data0, buf
      ensures buf[..datalen] == old(buf[..datalen])
      ensures Flatten(buf[datalen..datalen + order / 8]) == Crc(Gen(), Flatten(old(buf[..datalen])))
      ensures buf[datalen + order / 8..] == old(buf[datalen + order / 8..])
    {
      hide Crc, Flatten, Low, Plain;
      WholeOrder();
      var bytes := order / 8;
      ghost var data := buf[..datalen];
      forall i | 0 <= i < datalen {
        data0[i] := buf[i];
      }
      assert data0[..datalen] == data;
      var crc := WholeCrc(datalen);
      StoreTrailer(buf, datalen, crc, bytes, Crc(Gen(), Flatten(data)));
    }

    lemma WholeOrder()
      requires Plain()
      ensures order == 8 * (order / 8) && 8 <= order <= 64 && |polynom| == 32 && |Gen()| == order
      ensures data0.Length == MAX_LENGTH
    {
    }

    /** The loop that stores the register, most significant byte first. */
    static method StoreTrailer(buf: array<Byte>, at: nat, crc: Bits, bytes: nat, ghost parity: Bits)
      requires at + bytes <= buf.Length && |parity| == 8 * bytes && bytes <= 4 && crc == ZeroExtend(parity, 32)
      modifies buf
      ensures buf[..at] == old(buf[..at]) && buf[at + bytes..] == old(buf[at + bytes..])
      ensures Flatten(buf[at..at + bytes]) == parity
    {
      hide Flatten, Low, Shr, ZeroExtend;
      var order2 := (bytes - 1) * 8;
      FlattenEmpty();
      for i := 0 to bytes
        invariant buf[..at] == old(buf[..at]) && buf[at + bytes..] == old(buf[at + bytes..])
        invariant Flatten(buf[at..at + i]) == parity[..8 * i]
      {
        ghost var before := buf[at..at + i];
        ByteOf(parity, i);
        buf[at + i] := Low(Shr(crc, order2 - i * 8), 8);
        assert buf[at..at + (i + 1)] == before + [buf[at + i]];
        FlattenAppend(before, buf[at + i]);
      }
    }

    /** The check value of received bytes; zero means accepted. It is an int: the low 32 bits of the parity. */
    method CheckCrc(bytes: seq<Byte>) returns (crc: Bits)
      requires Plain() && |bytes| <= MAX_LENGTH
      modifies data0
      ensures crc == Low(ZeroExtend(Crc(Gen(), Flatten(bytes)), 64), 32)
      ensures order <= 32 ==> crc == ZeroExtend(Crc(Gen(), Flatten(bytes)), 32)
    {
      hide Crc, Flatten;
      forall i | 0 <= i < |bytes| {
        data0[i] := bytes[i];
      }
      assert data0[..|bytes|] == bytes;
      crc := WholeCrc(|bytes|);
    }

    /** The register after a message: the parity of the message plus the initial value
        carried along by the bits shifted in behind it. */
    ghost function Register(bytes: seq<Byte>): (r: Bits)
      requires Masks()
      reads this
      ensures |r| == order
    {
      Xor(Crc(Gen(), Flatten(bytes)), TimesN(Gen(), 8 * |bytes|, Low(crcinit, order)))
    }

    ghost function Parity(bytes: seq<Byte>): (r: Bits)
      requires Masks()
      reads this
      ensures |r| == order
    {
      Xor(Register(bytes), Low(crcxor, order))
    }

    lemma Seed()
      requires Masks()
      ensures Register([]) == Low(crcinit, order)
    {
      CrcOfEmpty(Gen());
      XorZero(Low(crcinit, order));
    }

    lemma RegisterStep(crc: Bits, bytes: seq<Byte>, d: Byte)
      requires Valid() && |crc| == 64 && Low(crc, order) == Register(bytes)
      ensures var index := Xor(Low(Shr(crc, order - 8), 8), d);
        Value(index) < 256 && Low(Xor(Shl(crc, 8), table[Value(index)]), order) == Register(bytes + [d])
    {
      hide TimesN, Crc, Flatten, Low, Shl, Shr, Xor, ZeroExtend, Value;
      var index := Xor(Low(Shr(crc, order - 8), 8), d);
      var n, start := 8 * |bytes|, Low(crcinit, order);
      ValueBound(index);
      assert Pow2(8) == 256;
      FromNatOfValue(index);
      var high, low := SplitRegister(crc, order, table[Value(index)], Crc(Gen(), index));
      FeedChunk(Gen(), Flatten(bytes), high, low, d, start, n);
      FlattenAppend(bytes, d);
    }

    lemma FinalXor(crc: Bits)
      requires Masks() && |crc| == 64
      ensures And(Xor(crc, crcxor), crcmask) == ZeroExtend(Xor(Low(crc, order), Low(crcxor, order)), 64)
    {
      MaskKeepsLow(Xor(crc, crcxor), order);
      assert Low(Xor(crc, crcxor), order) == Xor(Low(crc, order), Low(crcxor, order));
    }

    lemma PlainParity(bytes: seq<Byte>)
      requires Plain()
      ensures Parity(bytes) == Crc(Gen(), Flatten(bytes))
    {
      assert Low(crcinit, order) == Low(crcxor, order) == Zeros(order);
      TimesNZero(Gen(), 8 * |bytes|);
      XorZero(Crc(Gen(), Flatten(bytes)));
    }
  }

  lemma LowOfExtended(r: Bits)
    requires |r| <= 32
    ensures Low(ZeroExtend(r, 32), |r|) == r && Low(ZeroExtend(r, 64), 32) == ZeroExtend(r, 32)
  {
  }

  lemma CrcOfEmpty(g: Bits)
    requires |g| > 0
    ensures Crc(g, []) == Zeros(|g|)
  {
    CrcIsShiftedRemainder(g, []);
    TimesNZero(g, |g|);
  }

  lemma SplitRegister(crc: Bits, order: nat, entry: Bits, e: Bits) returns (high: Bits, low: Bits)
    requires |crc| == 64 && 8 <= order <= 64 && |e| == order && entry == ZeroExtend(e, 64)
    ensures Low(crc, order) == high + low && |high| == 8
    ensures Low(Shr(crc, order - 8), 8) == high
    ensures Low(Xor(Shl(crc, 8), entry), order) == Xor(low + Zeros(8), e)
  {
    high, low := crc[64 - order..72 - order], crc[72 - order..];
  }

  /** Feeding a byte by table: the register keeps its closed form. */
  lemma FeedChunk(g: Bits, p: Bits, high: Bits, low: Bits, d: Bits, start: Bits, n: nat)
    requires |g| > 0 && |g| == |start| && |high| == |d| && |d| + |low| == |g|
    requires high + low == Xor(Crc(g, p), TimesN(g, n, start))
    ensures Xor(low + Zeros(|d|), Crc(g, Xor(high, d)))
         == Xor(Crc(g, p + d), TimesN(g, n + |d|, start))
  {
    hide Times, TimesN, Crc;
    var c, s, e := Crc(g, p), TimesN(g, n, start), d + Zeros(|low|);
    TableStep(g, high, low, d);
    SwapLast(c, s, e);
    TimesNLinear(g, |d|, Xor(c, e), s);
    CrcOfAppend(g, p, d);
    TimesNAdd(g, |d|, n, start);
  }

  lemma SwapLast(a: Bits, b: Bits, c: Bits)
    requires |a| == |b| == |c|
    ensures Xor(Xor(a, b), c) == Xor(Xor(a, c), b)
  {
  }

  /** v >> 1 or (v ^ polynom) >> 1, seen on the low bits. */
  lemma BackwardStep(poly: Bits, order: nat, r: Bits)
    requires HasDegree(poly, order) && |r| == order > 0
    ensures var v := ZeroExtend(r, 32);
      && v[31] == r[order - 1]
      && Shr(if v[31] then Xor(v, poly) else v, 1) == ZeroExtend(Untimes(Low(poly, order), r), 32)
  {
    hide Shr, Xor, Untimes;
    var g, z := Low(poly, order), Zeros(31 - order);
    var v := ZeroExtend(r, 32);
    assert v == z + [false] + r;
    if r[order - 1] {
      XorBehindOne(z, r, g);
      ShiftOutLast(z, true, Xor(r, g));
    } else {
      ShiftOutLast(z, false, r);
    }
    UntimesCases(g, r);
  }

  lemma UntimesCases(g: Bits, r: Bits)
    requires Residue(g, r)
    ensures Untimes(g, r) ==
      if r[|r| - 1] then [true] + Xor(r, g)[..|g| - 1] else [false] + r[..|g| - 1]
  {
  }

  lemma XorBehindOne(z: Bits, r: Bits, g: Bits)
    requires |r| == |g|
    ensures Xor(z + [false] + r, z + [true] + g) == Xor(z, z) + [true] + Xor(r, g)
    ensures Xor(z, z) == Zeros(|z|)
  {
  }

  lemma ShiftOutLast(z: Bits, b: bool, r: Bits)
    requires r != [] && z == Zeros(|z|)
    ensures Shr(z + [b] + r, 1) == Zeros(|z| + 1) + ([b] + r[..|r| - 1])
  {
    var w := z + [b] + r;
    assert w[..|w| - 1] == z + ([b] + r[..|r| - 1]);
    assert Zeros(1) + Zeros(|z|) == Zeros(|z| + 1);
  }

  /** The word after i of the n bits of w were shifted to their places. */
  function Packed(w: Bits, i: nat, n: nat, width: nat): (v: Bits)
    requires i <= |w| && i <= n <= width
    ensures |v| == width
  {
    Zeros(width - n) + w[..i] + Zeros(n - i)
  }

  /** value |= bit << (n - i - 1) */
  lemma OrBit(w: Bits, i: nat, n: nat, width: nat)
    requires i < |w| && i < n <= width
    ensures Or(Packed(w, i, n, width), Shl(ZeroExtend([w[i]], width), n - i - 1)) == Packed(w, i + 1, n, width)
  {
    var bit := Zeros(width - n + i) + [w[i]] + Zeros(n - i - 1);
    assert Shl(ZeroExtend([w[i]], width), n - i - 1) == bit;
    var v := Packed(w, i + 1, n, width);
    assert v[..width - n + i] == Zeros(width - n) + w[..i];
    assert Or(Packed(w, i, n, width), bit) == v;
  }

  lemma PackedNone(w: Bits, n: nat, width: nat)
    requires n <= width
    ensures Packed(w, 0, n, width) == Zeros(width)
  {
  }

  lemma PackedAll(w: Bits, n: nat, width: nat)
    requires |w| <= n <= width
    ensures Packed(w, |w|, n, width) == Zeros(width - n) + w + Zeros(n - |w|)
    ensures |w| == n ==> Packed(w, n, n, width) == ZeroExtend(w, width)
    ensures n == width ==> Packed(w, |w|, n, width) == w + Zeros(n - |w|)
  {
  }

  lemma FlattenAppend(bytes: seq<Byte>, d: Byte)
    ensures Flatten(bytes + [d]) == Flatten(bytes) + d
  {
    assert (bytes + [d])[..|bytes|] == bytes;
  }

  lemma FlattenEmpty()
    ensures Flatten([]) == []
  {
  }

  lemma ByteOf(parity: Bits, i: nat)
    requires |parity| % 8 == 0 && |parity| <= 32 && 8 * i < |parity|
    ensures Low(Shr(ZeroExtend(parity, 32), |parity| - 8 - i * 8), 8) == parity[8 * i..8 * i + 8]
    ensures parity[..8 * i] + parity[8 * i..8 * i + 8] == parity[..8 * (i + 1)]
  {
  }

  lemma JoinTail(bytes: seq<Byte>, d: Byte, joined: seq<Byte>, whole: Bits, rest: Bits)
    requires joined == bytes + [d] && Flatten(bytes) == whole
    requires |rest| < 8 && d == rest + Zeros(8 - |rest|)
    ensures Flatten(joined) == (whole + rest) + Zeros(8 - |rest|)
  {
    FlattenAppend(bytes, d);
  }

  /** bits[i] = (value >> (n-i-1)) & 1 for each i. */
  method PackBits(value: Bits, buf: array<bool>, off: nat, n: nat)
    requires |value| == 32 && n <= 32 && off + n <= buf.Length
    modifies buf
    ensures buf[..] == old(buf[..off]) + Low(value, n) + old(buf[off + n..])
  {
    hide Written, Shr, Low;
    ghost var before, w := buf[..], Low(value, n);
    for i := 0 to n
      invariant i == 0 ==> buf[..] == before
      invariant i > 0 ==> buf[..] == Written(before, off, w, i)
    {
      BitOf(value, n, i);
      var bit := Shr(value, n - i - 1)[31];
      WriteNext(before, off, w, i);
      buf[off + i] := bit;
    }
    WrittenAll(before, off, w);
  }

  lemma BitOf(value: Bits, n: nat, i: nat)
    requires i < n <= |value|
    ensures Shr(value, n - i - 1)[|value| - 1] == Low(value, n)[i]
  {
  }

  /** An array s after the first i bits of w were stored from place off on. */
  function Written(s: Bits, off: nat, w: Bits, i: nat): (t: Bits)
    requires i <= |w| && off + |w| <= |s|
    ensures |t| == |s|
  {
    s[..off] + w[..i] + s[off + i..]
  }

  lemma WriteNext(s: Bits, off: nat, w: Bits, i: nat)
    requires i < |w| && off + |w| <= |s|
    ensures Written(s, off, w, 0) == s
    ensures Written(s, off, w, i)[off + i := w[i]] == Written(s, off, w, i + 1)
  {
    var t := Written(s, off, w, i);
    assert t[off + i..] == s[off + i..];
    assert w[..i + 1] == w[..i] + [w[i]];
  }

  lemma WrittenAll(s: Bits, off: nat, w: Bits)
    requires off + |w| <= |s|
    ensures Written(s, off, w, |w|) == s[..off] + w + s[off + |w|..]
    ensures w == [] ==> Written(s, off, w, 0) == s
  {
    assert s[..off] + s[off..] == s;
  }

  method UnpackBits(buf: array<bool>, off: nat, n: nat) returns (value: Bits)
    requires n <= 32 && off + n <= buf.Length
    ensures value == ZeroExtend(buf[off..off + n], 32)
  {
    hide Packed, Or, Shl, ZeroExtend;
    ghost var w := buf[off..off + n];
    PackedNone(w, n, 32);
    value := Zeros(32);
    for i := 0 to n
      invariant value == Packed(w, i, n, 32)
    {
      OrBit(w, i, n, 32);
      value := Or(value, Shl(ZeroExtend([buf[off + i]], 32), n - i - 1));
    }
    PackedAll(w, n, 32);
  }

  lemma LowOfShifted(i: nat, order: nat)
    requires 8 <= order <= 64
    ensures Low(Shl(FromNat(i, 64), order - 8), order) == FromNat(i, 8) + Zeros(order - 8)
  {
    LowOfFromNat(i, 64, 8);
  }

  lemma TestHighBit(crc: Bits, order: nat)
    requires |crc| == 64 && 0 < order <= 64
    ensures And(crc, Zeros(64 - order) + [true] + Zeros(order - 1)) != Zeros(64) <==> Low(crc, order)[0]
  {
    var c := And(crc, Zeros(64 - order) + [true] + Zeros(order - 1));
    if Low(crc, order)[0] {
      assert c[64 - order];
    } else {
      assert c == Zeros(64);
    }
  }

  lemma MaskKeepsLow(crc: Bits, order: nat)
    requires |crc| == 64 && order <= 64
    ensures And(crc, Zeros(64 - order) + Ones(order)) == ZeroExtend(Low(crc, order), 64)
  {
  }

  /** Shift and conditional xor, seen on the low bits: one step of the divider. */
  lemma DividerStep(crc: Bits, order: nat, poly: Bits)
    requires |crc| == 64 && |poly| == 32 && 0 < order <= 64
    ensures var g, r, c := Low(SignExtend(poly, 64), order), Low(crc, order), Shl(crc, 1);
      Low(if r[0] then Xor(c, SignExtend(poly, 64)) else c, order) == Times(g, r)
  {
    var g, r, c := Low(SignExtend(poly, 64), order), Low(crc, order), Shl(crc, 1);
    assert Low(c, order) == r[1..] + [false];
    XorZero(r[1..] + [false]);
  }
}
