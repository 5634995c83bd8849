/** work() of 5G_CODE_BLOCK.c at both ends: code blocks, interfaces, code blocks. */
module WorkChain {
  import opened BitStrings
  import opened CyclicCode
  import opened Division
  import opened CrcEngine
  import opened Polynomials
  import opened Rounding
  import opened Segmentation
  import opened CodeBlocks
  import opened CodeBlockChain
  import opened Interfaces

  /** The longest transport block that gets through, in bits. */
  ghost function LongestThrough(b: nat, rate: real): nat {
    if UsesGraph2(b, rate) then 26712 else 58968
  }

  lemma PieceSize(size: nat, c: nat)
    requires c >= 1 && size >= 10 && (c > 1 ==> size % 8 == 0)
    ensures size * c / 8 % c == 0 && size * c / 8 / c == size / 8 >= 1
    ensures 8 * (size * c / 8) <= Offset(size, c)
  {
    OffsetIsProduct(size, c);
    if c > 1 {
      var p := size / 8;
      assert size * c == 8 * (p * c) by { assert size == 8 * p; }
      WholePieces(size * c / 8, p, c);
    }
  }

  lemma WholePieces(n: nat, p: nat, c: nat)
    requires c >= 1 && n == p * c
    ensures n / c == p && n % c == 0
  {
    if n / c < p {
      Monotone(n / c + 1, p, c);
    } else if n / c > p {
      Monotone(p + 1, n / c, c);
    }
  }

  /** Through the interfaces the receiver has all the code blocks, whatever its buffer held before, exactly
      when the transport block is no longer than seven code blocks. */
  lemma {:induction false} BlocksArriveIff(itf: seq<Byte>, samples: seq<nat>, data: seq<Byte>, snd: nat,
                                           b: nat, rate: real, graph: nat, c: nat, l: nat, k1: nat, size: nat)
    requires SegmentationOf(b, rate, graph, c, l, k1, size) && b <= 125000
    requires snd == size / 8 && |data| == Offset(snd, c) && Carried(itf, samples, data, snd, c, NOF_INPUT_ITF - 1)
    ensures (forall held: seq<Byte> :: |held| == MAX_DATA ==> Arrives(held, itf, samples, data))
        <==> b <= LongestThrough(b, rate)
  {
    hide SegmentationOf, Arrives, Carried, Offset;
    GraphOf(b, rate, graph, c, l, k1, size);
    TotalSize(b, rate, graph, c, l, k1, size);
    SizeOfBlock(b, rate, graph, c, l, k1, size);
    PieceSize(size, c);
    EqualPieces(size * c / 8, c);
    SevenIff(b, rate, graph, c, l, k1, size);
    ArrivesIff(itf, samples, data, snd, c);
  }

  /** 9000 bytes at code rate 1/2 make nine code blocks: one is never sent and two are never gathered. */
  lemma {:induction false} NineCodeBlocks(itf: seq<Byte>, samples: seq<nat>, data: seq<Byte>, snd: nat,
                                          graph: nat, c: nat, l: nat, k1: nat, size: nat)
    requires SegmentationOf(72000, 0.5, graph, c, l, k1, size)
    requires snd == size / 8 && |data| == Offset(snd, c) && Carried(itf, samples, data, snd, c, NOF_INPUT_ITF - 1)
    ensures c == 9
    ensures exists held: seq<Byte> :: |held| == MAX_DATA && !Arrives(held, itf, samples, data)
  {
    hide SegmentationOf, Arrives, Carried;
    AtMostIff(72000, 0.5, graph, c, l, k1, size, 8);
    AtMostIff(72000, 0.5, graph, c, l, k1, size, 9);
    BlocksArriveIff(itf, samples, data, snd, 72000, 0.5, graph, c, l, k1, size);
  }

  /** With eight code blocks all are sent, and the last one is never gathered. */
  lemma {:induction false} EightCodeBlocks(itf: seq<Byte>, samples: seq<nat>, data: seq<Byte>, snd: nat,
                                           graph: nat, c: nat, l: nat, k1: nat, size: nat)
    requires SegmentationOf(60000, 0.5, graph, c, l, k1, size)
    requires snd == size / 8 && |data| == Offset(snd, c) && Carried(itf, samples, data, snd, c, NOF_INPUT_ITF - 1)
    ensures c == 8
    ensures exists held: seq<Byte> :: |held| == MAX_DATA && !Arrives(held, itf, samples, data)
  {
    hide SegmentationOf, Arrives, Carried;
    AtMostIff(60000, 0.5, graph, c, l, k1, size, 7);
    AtMostIff(60000, 0.5, graph, c, l, k1, size, 8);
    BlocksArriveIff(itf, samples, data, snd, 60000, 0.5, graph, c, l, k1, size);
  }

  /** Code blocks that never arrived go unnoticed while the buffer still holds its initial zeros: none is
      counted wrong, and their data fields read as zeros. */
  lemma {:induction false} ZerosGoUnnoticed(g: Bits, payload: Bits, m: nat, k: nat, c: nat, j: nat, w: Bits)
    requires |g| > 0 && m + |g| <= k && j <= c && Offset(m, j) <= |payload|
    requires Offset(k, j) <= Offset(k, c) == |w|
    requires w == Blocks(g, payload, m, k, j) + Zeros(Offset(k, c) - Offset(k, j))
    ensures Wrong(g, w, m + |g|, k, c) == []
    ensures Offset(m, j) <= Offset(m, c)
    ensures Data(w, m, k, c) == payload[..Offset(m, j)] + Zeros(Offset(m, c) - Offset(m, j))
    decreases c
  {
    hide Crc, Codeword, Block, Blocks, Offset, Data, Wrong, Zeros;
    if j == c {
      assert Zeros(0) == [];
      assert w == w[..Offset(k, c)] == Blocks(g, payload, m, k, c);
      BlocksAreRight(g, payload, m, k, c, w);
    } else {
      OneMoreOffset(k, c - 1);
      OneMoreOffset(m, c - 1);
      OffsetOrder(k, j, c - 1);
      var o := Offset(k, c - 1);
      var v := Blocks(g, payload, m, k, j);
      ZerosBehind(v, w, o, o + (m + |g|));
      ZerosBehind(v, w, o, o + m);
      ZerosGoUnnoticed(g, payload, m, k, c - 1, j, w[..o]);
      PrefixOfPrefix(w, o, o);
      SamePrefix(g, w, w[..o], m, m + |g|, k, c - 1);
      RemOfZeros(g, m + |g|);
      OneMoreChecked(g, w, m + |g|, k, c - 1, Zeros(m + |g|));
      OneMoreKept(w, m, k, c - 1, Zeros(m));
      MoreZeros(payload[..Offset(m, j)], Offset(m, c - 1) - Offset(m, j), m);
    }
  }

  lemma MoreZeros(a: Bits, i: nat, j: nat)
    ensures (a + Zeros(i)) + Zeros(j) == a + Zeros(i + j)
  {
    assert Zeros(i) + Zeros(j) == Zeros(i + j);
  }

  lemma ZerosBehind(v: Bits, w: Bits, i: nat, j: nat)
    requires |v| <= i <= j <= |w| && w == v + Zeros(|w| - |v|)
    ensures w[i..j] == Zeros(j - i)
    ensures w[..i] == v + Zeros(i - |v|)
  {
  }

  lemma {:induction false} OffsetOrder(k: nat, i: nat, j: nat)
    requires i <= j
    ensures Offset(k, i) <= Offset(k, j)
  {
    if i < j {
      OffsetOrder(k, i, j - 1);
    }
  }

  /** The transmit mode of work(). */
  method WorkTx(inBytes: array<Byte>, n: nat, bytes: array<Byte>, itf: array<Byte>, samples: array<nat>,
                info: CbInfo, rate: real, crc: CrcParams) returns (snd: nat, ghost sent: nat, ghost payload: Bits)
    requires n <= inBytes.Length && 8 * n <= 125000 && bytes.Length == MAX_DATA
    requires itf.Length == MAX_DATA * NOF_OUTPUT_ITF && samples.Length == NOF_OUTPUT_ITF
    requires crc.Uses(Crc24B) && bytes != crc.data0 && bytes != inBytes && inBytes != crc.data0
    requires itf != bytes && itf != inBytes && itf != crc.data0
    modifies info, bytes, itf, samples, crc.data0
    ensures info.A == 8 * n && info.B == 8 * n && info.Segmented()
    ensures SegmentationOf(8 * n, rate, info.LDPCgraph, info.nofCBs, info.L_CB, info.K1, info.CBsize)
    ensures sent == info.CBsize * info.nofCBs / 8 <= bytes.Length && snd == sent / info.nofCBs
    ensures |payload| == info.nofCBs * (info.K1 - info.L_CB) && payload[..8 * n] == Flatten(inBytes[..n])
    ensures Carries(Flatten(bytes[..sent]), payload, info.K1 - info.L_CB, info.CBsize, info.nofCBs)
    ensures Carried(itf[..], samples[..], bytes[..sent], snd, info.nofCBs, NOF_OUTPUT_ITF)
  {
    hide Crc, CrcParams.Uses, Carries, SegmentationOf, Carried, Flatten;
    var total;
    total, payload := Transmit(inBytes, n, bytes, info, rate, crc);
    sent := total;
    snd := PutOnInterfaces(bytes, total, info.nofCBs, itf, samples);
  }

  /** The receive mode of work(): n is the announced size. */
  method WorkRx(itf: array<Byte>, samples: array<nat>, bytes: array<Byte>, beyond: nat -> Byte, out: array<Byte>,
                info: CbInfo, n: nat, rate: real, stat: CbStatist, crc: CrcParams)
    returns (snd: nat, ghost bad: seq<nat>)
    requires itf.Length == MAX_DATA * NOF_INPUT_ITF && samples.Length == NOF_INPUT_ITF
    requires Fits(bytes[..], samples[..]) && bytes.Length == MAX_DATA && out.Length >= MAX_DATA && 8 * n <= 125000
    requires stat.Valid() && crc.Uses(Crc24B)
    requires bytes != itf && out != bytes && out != crc.data0 && bytes != crc.data0 && out != itf && itf != crc.data0
    modifies info, stat`nofWrongCBCRCs, stat.wrongCBCRC, stat.histowrongCBCRC, bytes, out, crc.data0
    ensures snd == n && info.Shaped()
    ensures SegmentationOf(8 * n, rate, info.LDPCgraph, info.nofCBs, info.L_CB, info.K1, info.CBsize)
    ensures bytes[..] == Gathered(old(bytes[..]), itf[..], samples[..], NOF_INPUT_ITF - 1)
    ensures Checked(bytes[..], out[..], info.K1 - info.L_CB, info.K1, info.CBsize, info.nofCBs,
                    stat.nofWrongCBCRCs, stat.wrongCBCRC[..], stat.histowrongCBCRC[..],
                    old(stat.nofWrongCBCRCs), old(stat.wrongCBCRC[..]), old(stat.histowrongCBCRC[..]))
    ensures Increasing(bad) && forall i: nat :: i in bad <==>
      info.nofCBs > 1 && i < info.nofCBs && !Good(Crc24B, Flatten(bytes[..]), info.K1, info.CBsize, i)
    ensures stat.nofWrongCBCRCs == old(stat.nofWrongCBCRCs) + |bad|
    ensures |bad| <= HISTOSZ && stat.wrongCBCRC[..] == bad + old(stat.wrongCBCRC[..])[|bad|..]
    ensures forall i :: 0 <= i < HISTOSZ ==>
      stat.histowrongCBCRC[i] == old(stat.histowrongCBCRC[i]) + if i in bad then 1 else 0
    ensures FieldsKept(Flatten(bytes[..]), Flatten(out[..]), info.K1 - info.L_CB, info.CBsize, info.nofCBs)
  {
    hide Crc, CrcParams.Uses, Checked, SegmentationOf, Fits, Gathered, Offset, Flatten, Good, Increasing,
      FieldsKept;
    var rcv := Concatenate(itf, samples, bytes);
    snd, bad := Receive(bytes, beyond, rcv, out, info, n, rate, stat, crc);
  }

  /** work() at both ends. What the receiver gathered is what was sent as far as the interfaces go, and what
      its buffer held before behind that. If seven code blocks are enough, the first n bytes it puts out are
      the transmitter's and no code block is counted wrong. */
  method WorkBothEnds(inBytes: array<Byte>, n: nat, sentBytes: array<Byte>, itf: array<Byte>, samples: array<nat>,
                      rcvBytes: array<Byte>, beyond: nat -> Byte, out: array<Byte>, rate: real,
                      infoTx: CbInfo, infoRx: CbInfo, stat: CbStatist, crcTx: CrcParams, crcRx: CrcParams)
    returns (ghost sent: nat, ghost through: nat)
    requires n <= inBytes.Length && 8 * n <= 125000
    requires sentBytes.Length == rcvBytes.Length == MAX_DATA && out.Length >= MAX_DATA
    requires itf.Length == MAX_DATA * NOF_OUTPUT_ITF && samples.Length == NOF_OUTPUT_ITF
    requires crcTx.Uses(Crc24B) && crcRx.Uses(Crc24B) && stat.Valid() && infoTx != infoRx
    requires crcTx != crcRx && crcTx.data0 != crcRx.data0 && crcTx.table != crcRx.table
    requires Distinct([inBytes, sentBytes, itf, rcvBytes, out, crcTx.data0, crcRx.data0])
    modifies infoTx, infoRx, stat`nofWrongCBCRCs, stat.wrongCBCRC, stat.histowrongCBCRC
    modifies sentBytes, itf, samples, rcvBytes, out, crcTx.data0, crcRx.data0
    ensures through <= sent <= MAX_DATA
    ensures rcvBytes[..] == sentBytes[..through] + old(rcvBytes[through..])
    ensures sent == Offset(infoTx.CBsize / 8, infoTx.nofCBs)
    ensures through == Offset(infoTx.CBsize / 8, Min(7, infoTx.nofCBs))
    ensures through == sent <==> 8 * n <= LongestThrough(8 * n, rate)
    ensures SegmentationOf(8 * n, rate, infoRx.LDPCgraph, infoRx.nofCBs, infoRx.L_CB, infoRx.K1, infoRx.CBsize)
    ensures infoRx.nofCBs == infoTx.nofCBs && infoRx.K1 == infoTx.K1 && infoRx.CBsize == infoTx.CBsize
    ensures infoRx.Shaped()
    ensures Checked(rcvBytes[..], out[..], infoRx.K1 - infoRx.L_CB, infoRx.K1, infoRx.CBsize, infoRx.nofCBs,
                    stat.nofWrongCBCRCs, stat.wrongCBCRC[..], stat.histowrongCBCRC[..],
                    old(stat.nofWrongCBCRCs), old(stat.wrongCBCRC[..]), old(stat.histowrongCBCRC[..]))
    ensures 8 * n <= LongestThrough(8 * n, rate) ==>
      && out[..n] == inBytes[..n] == old(inBytes[..n])
      && stat.nofWrongCBCRCs == old(stat.nofWrongCBCRCs)
      && stat.wrongCBCRC[..] == old(stat.wrongCBCRC[..])
      && stat.histowrongCBCRC[..] == old(stat.histowrongCBCRC[..])
  {
    hide Crc, CrcParams.Uses, Carries, Checked, SegmentationOf, Offset, Carried, Fits, Gathered, Flatten,
      LongestThrough, Min, Distinct;
    ghost var held := rcvBytes[..];
    AllApart(inBytes, sentBytes, itf, rcvBytes, out, crcTx.data0, crcRx.data0);
    var snd, total, payload := WorkTx(inBytes, n, sentBytes, itf, samples, infoTx, rate, crcTx);
    sent := total;
    SegmentedIsShaped(infoTx);
    ghost var c, size := infoTx.nofCBs, infoTx.CBsize;
    ghost var data := sentBytes[..sent];
    through := WhatArrives(held, itf[..], samples[..], data, snd, infoTx, 8 * n, rate);
    var _, bad := WorkRx(itf, samples, rcvBytes, beyond, out, infoRx, n, rate, stat, crcRx);
    SegmentationIsUnique(8 * n, rate, infoTx.LDPCgraph, infoTx.nofCBs, infoTx.L_CB, infoTx.K1, infoTx.CBsize,
                         infoRx.LDPCgraph, infoRx.nofCBs, infoRx.L_CB, infoRx.K1, infoRx.CBsize);
    assert data[..through] == sentBytes[..through];
    if through == sent {
      PieceSize(size, c);
      assert rcvBytes[..sent] == data;
      EndToEnd(inBytes[..n], rcvBytes[..], out[..], sent, payload,
               infoTx.K1 - infoTx.L_CB, infoTx.K1, infoTx.CBsize, infoTx.nofCBs,
               stat.nofWrongCBCRCs, stat.wrongCBCRC[..], stat.histowrongCBCRC[..],
               old(stat.nofWrongCBCRCs), old(stat.wrongCBCRC[..]), old(stat.histowrongCBCRC[..]));
    }
  }

  ghost predicate Distinct(arrays: seq<array<Byte>>) {
    forall i, j :: 0 <= i < j < |arrays| ==> arrays[i] != arrays[j]
  }

  lemma AllApart(a: array<Byte>, b: array<Byte>, c: array<Byte>, d: array<Byte>, e: array<Byte>,
                 f: array<Byte>, g: array<Byte>)
    requires Distinct([a, b, c, d, e, f, g])
    ensures a != b && a != c && a != d && a != e && a != f && a != g
    ensures b != c && b != d && b != e && b != f && b != g
    ensures c != d && c != e && c != f && c != g
    ensures d != e && d != f && d != g && e != f && e != g && f != g
  {
    var s := [a, b, c, d, e, f, g];
    assert s[0] == a && s[1] == b && s[2] == c && s[3] == d && s[4] == e && s[5] == f && s[6] == g;
  }

  lemma {:induction false} WhatArrives(held: seq<Byte>, itf: seq<Byte>, samples: seq<nat>, data: seq<Byte>, snd: nat,
                                       info: CbInfo, b: nat, rate: real)
    returns (through: nat)
    requires b <= 125000 && info.Shaped() && |held| == MAX_DATA
    requires SegmentationOf(b, rate, info.LDPCgraph, info.nofCBs, info.L_CB, info.K1, info.CBsize)
    requires |data| == info.CBsize * info.nofCBs / 8 && snd == |data| / info.nofCBs
    requires Carried(itf, samples, data, snd, info.nofCBs, NOF_OUTPUT_ITF)
    ensures info.CBsize >= 10 && through <= |data| <= MAX_DATA && Fits(held, samples)
    ensures Gathered(held, itf, samples, NOF_INPUT_ITF - 1) == data[..through] + held[through..]
    ensures |data| == Offset(info.CBsize / 8, info.nofCBs)
    ensures through == Offset(info.CBsize / 8, Min(7, info.nofCBs))
    ensures through == |data| <==> b <= LongestThrough(b, rate)
  {
    hide SegmentationOf, Gathered, Fits, Offset, InSlot;
    var c, size := info.nofCBs, info.CBsize;
    TotalSize(b, rate, info.LDPCgraph, c, info.L_CB, info.K1, size);
    SizeOfBlock(b, rate, info.LDPCgraph, c, info.L_CB, info.K1, size);
    PieceSize(size, c);
    EqualPieces(|data|, c);
    SevenIff(b, rate, info.LDPCgraph, c, info.L_CB, info.K1, size);
    GatheredIs(held, itf, samples, data, snd, c, NOF_INPUT_ITF - 1);
    through := Offset(snd, Min(7, c));
    if c > 7 {
      PieceInRange(snd, 7, c);
    }
  }
}
