/** The two ends of the chain with a transmission error between them. */
module BurstChain {
  import opened BitStrings
  import opened CyclicCode
  import opened CrcEngine
  import opened Polynomials
  import opened Segmentation
  import opened CodeBlocks
  import opened CodeBlockChain
  import opened BlockErrors
  import opened WorkChain

  function ErrorBits(before: nat, burst: Bits, n: nat): (e: Bits)
    requires before + |burst| <= n
    ensures |e| == n
  {
    Zeros(before) + burst + Zeros(n - before - |burst|)
  }

  /** The burst lies in the checked part of block b. */
  ghost predicate Inside(before: nat, burst: Bits, b: nat, k1: nat, k: nat) {
    Offset(k, b) <= before && before + |burst| <= Offset(k, b) + k1
  }

  /** The radio flips the bits of a burst. */
  method HitLink(link: array<Byte>, n: nat, before: nat, burst: Bits)
    requires n <= link.Length && before + |burst| <= 8 * n
    modifies link
    ensures Flatten(link[..n]) == Xor(old(Flatten(link[..n])), ErrorBits(before, burst, 8 * n))
    ensures link[n..] == old(link[n..])
  {
    hide Flatten, Xor, ErrorBits, ToBytes;
    var w := Xor(Flatten(link[..n]), ErrorBits(before, burst, 8 * n));
    var hit := ToBytes(w);
    FlattenToBytes(w);
    forall i | 0 <= i < n {
      link[i] := hit[i];
    }
    assert link[..n] == hit;
  }

  /** What the receiver leaves behind when the link was hit: one more wrong block, and it is the right one. */
  lemma {:induction false} BurstIsNoted(payload: Bits, sent: Bits, input: seq<Byte>, output: seq<Byte>,
                                        m: nat, k: nat, c: nat, b: nat, before: nat, burst: Bits,
                                        nof: nat, list: seq<nat>, histo: seq<nat>,
                                        nof0: nat, list0: seq<nat>, histo0: seq<nat>)
    requires c > 1 && m + 24 <= k && |payload| == c * m && Carries(sent, payload, m, k, c) && b < c
    requires burst != Zeros(|burst|) && |burst| <= 24 && before + |burst| <= |sent|
    requires Inside(before, burst, b, m + 24, k) && b < |histo0|
    requires |sent| <= 8 * |input| && Flatten(input)[..|sent|] == Xor(sent, ErrorBits(before, burst, |sent|))
    requires Checked(input, output, m, m + 24, k, c, nof, list, histo, nof0, list0, histo0)
    ensures nof == nof0 + 1
    ensures list0 != [] && list == list0[0 := b]
    ensures histo == histo0[b := histo0[b] + 1]
  {
    hide Blocks, Crc, Codeword, Offset, Wrong, Received, Flatten, Counted;
    GeneratorsAreValid();
    var w := Flatten(input)[..Offset(k, c)];
    assert Wrong(Crc24B, w, m + 24, k, c) == [b] by {
      BurstIsCounted(Crc24B, payload, m, k, c, b, before, burst, |sent| - before - |burst|);
    }
    OneCounted(nof, list, histo, nof0, list0, histo0, b);
  }

  lemma OneCounted(nof: nat, list: seq<nat>, histo: seq<nat>, nof0: nat, list0: seq<nat>, histo0: seq<nat>, b: nat)
    requires Counted(nof, list, histo, nof0, list0, histo0, [b]) && b < |histo0|
    ensures nof == nof0 + 1 && list0 != [] && list == list0[0 := b] && histo == histo0[b := histo0[b] + 1]
  {
  }

  /** Transmit, a burst of at most 24 flipped bits in block b of several, receive: the count of wrong blocks grows
      by one, the list starts with b, and so does the histogram at b; nothing else in the statistics changes. */
  method TransmitBurstReceive(inBytes: array<Byte>, n: nat, link: array<Byte>, beyond: nat -> Byte,
                              outBytes: array<Byte>, rate: real, before: nat, burst: Bits, ghost b: nat,
                              infoTx: CbInfo, infoRx: CbInfo, stat: CbStatist, crcTx: CrcParams, crcRx: CrcParams)
    requires n <= inBytes.Length && 8 * n <= 125000 && link.Length >= MAX_DATA && outBytes.Length >= MAX_DATA
    requires crcTx.Uses(Crc24B) && crcRx.Uses(Crc24B) && stat.Valid() && infoTx != infoRx
    requires crcTx != crcRx && crcTx.data0 != crcRx.data0 && crcTx.table != crcRx.table
    requires Distinct([inBytes, link, outBytes, crcTx.data0, crcRx.data0])
    requires burst != Zeros(|burst|) && |burst| <= 24
    modifies infoTx, infoRx, stat`nofWrongCBCRCs, stat.wrongCBCRC, stat.histowrongCBCRC
    modifies link, outBytes, crcTx.data0, crcRx.data0
    ensures infoTx.nofCBs <= 33
    ensures infoTx.nofCBs > 1 && b < infoTx.nofCBs && Inside(before, burst, b, infoTx.K1, infoTx.CBsize) ==>
      && stat.nofWrongCBCRCs == old(stat.nofWrongCBCRCs) + 1
      && stat.wrongCBCRC[..] == old(stat.wrongCBCRC[..])[0 := b]
      && stat.histowrongCBCRC[..] == old(stat.histowrongCBCRC[..])[b := old(stat.histowrongCBCRC[b]) + 1]
  {
    hide Crc, CrcParams.Uses, Carries, Checked, SegmentationOf, Offset, Flatten, Xor, ErrorBits, Good, Increasing,
      FieldsKept, CbInfo.Segmented, Distinct, Inside;
    FiveApart(inBytes, link, outBytes, crcTx.data0, crcRx.data0);
    var sent, payload := Transmit(inBytes, n, link, infoTx, rate, crcTx);
    ghost var clean := Flatten(link[..sent]);
    SegmentedIsShaped(infoTx);
    FitsBuffers(infoTx, 8 * n, rate);
    var fits := before + |burst| <= 8 * sent;
    if fits {
      HitLink(link, sent, before, burst);
    }
    var snd, bad := Receive(link, beyond, sent, outBytes, infoRx, n, rate, stat, crcRx);
    SegmentationIsUnique(8 * n, rate, infoTx.LDPCgraph, infoTx.nofCBs, infoTx.L_CB, infoTx.K1, infoTx.CBsize,
                         infoRx.LDPCgraph, infoRx.nofCBs, infoRx.L_CB, infoRx.K1, infoRx.CBsize);
    if infoTx.nofCBs > 1 && b < infoTx.nofCBs && Inside(before, burst, b, infoTx.K1, infoTx.CBsize) {
      SizeOfBlock(8 * n, rate, infoTx.LDPCgraph, infoTx.nofCBs, infoTx.L_CB, infoTx.K1, infoTx.CBsize);
      InsideBlock(before, burst, b, infoTx.K1, infoTx.CBsize);
      SentBits(clean, payload, infoTx.K1 - 24, infoTx.CBsize, infoTx.nofCBs, b);
      FlattenPrefix(link[..], sent);
      assert link[..][..sent] == link[..sent];
      BurstIsNoted(payload, clean, link[..], outBytes[..], infoTx.K1 - 24, infoTx.CBsize, infoTx.nofCBs, b,
                   before, burst, stat.nofWrongCBCRCs, stat.wrongCBCRC[..], stat.histowrongCBCRC[..],
                   old(stat.nofWrongCBCRCs), old(stat.wrongCBCRC[..]), old(stat.histowrongCBCRC[..]));
    }
  }

  lemma {:induction false} SentBits(sent: Bits, payload: Bits, m: nat, k: nat, c: nat, b: nat)
    requires c > 1 && m + 24 <= k && |payload| == c * m && Carries(sent, payload, m, k, c) && b < c
    ensures Offset(k, b) + k <= |sent| == Offset(k, c)
  {
    hide Blocks, Offset;
    BlocksApart(k, b, c);
  }

  lemma InsideBlock(before: nat, burst: Bits, b: nat, k1: nat, k: nat)
    requires Inside(before, burst, b, k1, k)
    ensures before + |burst| <= Offset(k, b) + k1
  {
  }

  lemma FiveApart(a: array<Byte>, b: array<Byte>, c: array<Byte>, d: array<Byte>, e: array<Byte>)
    requires Distinct([a, b, c, d, e])
    ensures a != b && a != c && a != d && a != e && b != c && b != d && b != e && c != d && c != e && d != e
  {
    var s := [a, b, c, d, e];
    assert s[0] == a && s[1] == b && s[2] == c && s[3] == d && s[4] == e;
  }
}
