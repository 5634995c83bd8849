/** The transmit and receive branches of work() in 5G_CODE_BLOCK.c, and their round trip. */
module CodeBlockChain {
  import opened BitStrings
  import opened CyclicCode
  import opened CrcEngine
  import opened Polynomials
  import opened Rounding
  import opened Segmentation
  import opened CodeBlocks

  lemma {:induction false} FlattenInjective(a: seq<Byte>, b: seq<Byte>)
    requires Flatten(a) == Flatten(b)
    ensures a == b
    decreases |a|
  {
    assert |a| == |b|;
    if a != [] {
      var n := |a| - 1;
      FlattenPrefix(a, n);
      FlattenPrefix(b, n);
      FlattenInjective(a[..n], b[..n]);
      assert Flatten(a)[8 * n..] == a[n] && Flatten(b)[8 * n..] == b[n];
      assert a == a[..n] + [a[n]] && b == b[..n] + [b[n]];
    }
  }

  /** Blocks made by the transmitter are all accepted and give the transport block back. */
  lemma RoundTrip(bits: Bits, payload: Bits, sent: Bits, w: Bits, out: Bits, m: nat, k1: nat, k: nat, c: nat)
    requires c >= 1 && m <= k1 <= k && Offset(k, c) <= |w| && |payload| == c * m
    requires if c == 1 then m == |bits| && m % 8 == 0 else k1 == m + 24
    requires |bits| <= |payload| && payload[..|bits|] == bits
    requires Carries(sent, payload, m, k, c) && |sent| <= |w| && w[..|sent|] == sent
    requires Received(w, out, m, k, c)
    ensures |bits| <= |out| && out[..|bits|] == bits
    ensures WrongBlocks(w, k1, k, c) == []
  {
    hide Crc, Codeword, Blocks, Wrong, Data;
    OffsetIsProduct(m, c);
    if c == 1 {
      var sentAll := payload + Zeros(k - m);
      assert w[..m] == sent[..m] == sentAll[..k / 8 * 8][..m] == payload;
    } else {
      assert w[..Offset(k, c)] == Blocks(Crc24B, payload, m, k, c);
      BlocksAreRight(Crc24B, payload, m, k, c, w);
    }
    assert out[..|bits|] == out[..Offset(m, c)][..|bits|];
  }

  /** OUTPUT_MAX_DATA and INPUT_MAX_DATA: the bytes of the module's buffers and of one interface. */
  const MAX_DATA: nat := 10 * 2048

  /** Everything the two functions write fits the module's buffers. */
  lemma FitsBuffers(info: CbInfo, b: nat, rate: real)
    requires info.Shaped() && b <= 125000
    requires SegmentationOf(b, rate, info.LDPCgraph, info.nofCBs, info.L_CB, info.K1, info.CBsize)
    ensures info.nofCBs <= 33 && info.CBsize * info.nofCBs <= 126720 && info.CBsize * info.nofCBs / 8 <= 15840
    ensures CeilDiv(info.nofCBs * (info.K1 - info.L_CB), 8) <= 15840
  {
    hide CBS_T5321, LeastLifting, SegmentationOf;
    TotalSize(b, rate, info.LDPCgraph, info.nofCBs, info.L_CB, info.K1, info.CBsize);
    GraphOf(b, rate, info.LDPCgraph, info.nofCBs, info.L_CB, info.K1, info.CBsize);
  }

  lemma SegmentedIsShaped(info: CbInfo)
    requires info.Segmented()
    ensures info.Shaped() && (info.nofCBs == 1 ==> info.K1 == info.B)
  {
  }

  /** TX branch: cut n received bytes into code blocks. */
  method Transmit(inBytes: array<Byte>, n: nat, outBytes: array<Byte>, info: CbInfo, rate: real, crc: CrcParams)
    returns (sent: nat, ghost payload: Bits)
    requires n <= inBytes.Length && 8 * n <= 125000 && outBytes.Length >= MAX_DATA
    requires crc.Uses(Crc24B)
    requires outBytes != crc.data0 && outBytes != inBytes && inBytes != crc.data0
    modifies info, outBytes, crc.data0
    ensures info.A == 8 * n && info.B == 8 * n && info.Segmented()
    ensures SegmentationOf(8 * n, rate, info.LDPCgraph, info.nofCBs, info.L_CB, info.K1, info.CBsize)
    ensures sent == info.CBsize * info.nofCBs / 8 && sent <= outBytes.Length
    ensures outBytes[sent..] == old(outBytes[sent..])
    ensures |payload| == info.nofCBs * (info.K1 - info.L_CB) && payload[..8 * n] == Flatten(inBytes[..n])
    ensures Carries(Flatten(outBytes[..sent]), payload, info.K1 - info.L_CB, info.CBsize, info.nofCBs)
  {
    hide Crc, CrcParams.Uses, Carries, SegmentationOf, CeilDiv, Flatten, CbInfo.Segmented;
    info.A := n * 8;
    var _ := info.Compute(rate, 0);
    SegmentedIsShaped(info);
    FitsBuffers(info, 8 * n, rate);
    sent, payload := CreateCodeBlocks(inBytes, outBytes, info, crc);
  }

  /** RX branch: the size n of the transport block comes with the control data; the length fields
      are overwritten with what was received before the blocks are checked. */
  method Receive(inBytes: array<Byte>, beyond: nat -> Byte, rcvBytes: nat, outBytes: array<Byte>, info: CbInfo,
                 n: nat, rate: real, stat: CbStatist, crc: CrcParams)
    returns (snd: nat, ghost bad: seq<nat>)
    requires 8 * n <= 125000 && inBytes.Length >= MAX_DATA && outBytes.Length >= MAX_DATA
    requires stat.Valid() && crc.Uses(Crc24B)
    requires outBytes != inBytes && outBytes != crc.data0 && inBytes != crc.data0
    modifies info, stat`nofWrongCBCRCs, stat.wrongCBCRC, stat.histowrongCBCRC, outBytes, crc.data0
    ensures snd == n && info.Shaped()
    ensures var nof := CeilDiv(info.nofCBs * (info.K1 - info.L_CB), 8);
      nof <= outBytes.Length && outBytes[nof..] == old(outBytes[..])[nof..]
    ensures SegmentationOf(8 * n, rate, info.LDPCgraph, info.nofCBs, info.L_CB, info.K1, info.CBsize)
    ensures Checked(inBytes[..], outBytes[..], info.K1 - info.L_CB, info.K1, info.CBsize, info.nofCBs,
                    stat.nofWrongCBCRCs, stat.wrongCBCRC[..], stat.histowrongCBCRC[..],
                    old(stat.nofWrongCBCRCs), old(stat.wrongCBCRC[..]), old(stat.histowrongCBCRC[..]))
    ensures Increasing(bad) && forall i: nat :: i in bad <==>
      info.nofCBs > 1 && i < info.nofCBs && !Good(Crc24B, Flatten(inBytes[..]), info.K1, info.CBsize, i)
    ensures stat.nofWrongCBCRCs == old(stat.nofWrongCBCRCs) + |bad|
    ensures |bad| <= HISTOSZ && stat.wrongCBCRC[..] == bad + old(stat.wrongCBCRC[..])[|bad|..]
    ensures forall i :: 0 <= i < HISTOSZ ==>
      stat.histowrongCBCRC[i] == old(stat.histowrongCBCRC[i]) + if i in bad then 1 else 0
    ensures FieldsKept(Flatten(inBytes[..]), Flatten(outBytes[..]), info.K1 - info.L_CB, info.CBsize, info.nofCBs)
  {
    hide Crc, CrcParams.Uses, Checked, SegmentationOf, CeilDiv, Offset, Flatten, Good, Increasing, FieldsKept,
      CbInfo.Segmented;
    info.A := n * 8;
    var _ := info.Compute(rate, 0);
    SegmentedIsShaped(info);
    info.B := rcvBytes * 8;
    info.A := rcvBytes * 8;
    FitsBuffers(info, 8 * n, rate);
    var nof;
    nof, bad := CheckCodeBlocks(inBytes, beyond, outBytes, info, stat, crc);
    snd := n;
  }

  lemma EndToEnd(data: seq<Byte>, link: seq<Byte>, out: seq<Byte>, sent: nat, payload: Bits,
                 m: nat, k1: nat, k: nat, c: nat,
                 nof: nat, list: seq<nat>, histo: seq<nat>, nof0: nat, list0: seq<nat>, histo0: seq<nat>)
    requires c >= 1 && m <= k1 && |payload| == c * m && (if c == 1 then m == 8 * |data| else k1 == m + 24)
    requires 8 * |data| <= |payload| && payload[..8 * |data|] == Flatten(data)
    requires (c == 1 || m + 24 <= k) && m <= k && sent <= |link| && 8 * sent <= Offset(k, c)
    requires Carries(Flatten(link[..sent]), payload, m, k, c)
    requires Checked(link, out, m, k1, k, c, nof, list, histo, nof0, list0, histo0)
    ensures |data| <= |out| && out[..|data|] == data
    ensures nof == nof0 && list == list0 && histo == histo0
  {
    hide Carries, Received, WrongBlocks, Offset, Data, Flatten, Counted;
    var w := Flatten(link)[..Offset(k, c)];
    FlattenPrefix(link, sent);
    PrefixOfPrefix(Flatten(link), 8 * sent, Offset(k, c));
    RoundTrip(Flatten(data), payload, Flatten(link[..sent]), w, Flatten(out), m, k1, k, c);
    FlattenPrefix(out, |data|);
    FlattenInjective(out[..|data|], data);
    NoneCounted(nof, list, histo, nof0, list0, histo0);
  }

  lemma NoneCounted(nof: nat, list: seq<nat>, histo: seq<nat>, nof0: nat, list0: seq<nat>, histo0: seq<nat>)
    requires Counted(nof, list, histo, nof0, list0, histo0, [])
    ensures nof == nof0 && list == list0 && histo == histo0
  {
  }

  /** The chain end to end: for every transport block and code rate the receiver's first n bytes
      are the transmitter's and no code block is counted wrong. */
  method TransmitThenReceive(inBytes: array<Byte>, n: nat, link: array<Byte>, beyond: nat -> Byte,
                             outBytes: array<Byte>, rate: real,
                             infoTx: CbInfo, infoRx: CbInfo, stat: CbStatist, crcTx: CrcParams, crcRx: CrcParams)
    requires n <= inBytes.Length && 8 * n <= 125000 && link.Length >= MAX_DATA && outBytes.Length >= MAX_DATA
    requires crcTx.Uses(Crc24B) && crcRx.Uses(Crc24B)
    requires crcTx != crcRx && crcTx.data0 != crcRx.data0 && crcTx.table != crcRx.table && infoTx != infoRx
    requires stat.Valid()
    requires inBytes != link && inBytes != outBytes && link != outBytes
    requires inBytes != crcTx.data0 && link != crcTx.data0 && outBytes != crcTx.data0
    requires inBytes != crcRx.data0 && link != crcRx.data0 && outBytes != crcRx.data0
    modifies infoTx, infoRx, stat`nofWrongCBCRCs, stat.wrongCBCRC, stat.histowrongCBCRC
    modifies link, outBytes, crcTx.data0, crcRx.data0
    ensures outBytes[..n] == inBytes[..n] == old(inBytes[..n])
    ensures stat.nofWrongCBCRCs == old(stat.nofWrongCBCRCs)
    ensures stat.wrongCBCRC[..] == old(stat.wrongCBCRC[..])
    ensures stat.histowrongCBCRC[..] == old(stat.histowrongCBCRC[..])
  {
    hide Crc, CrcParams.Uses, Carries, Checked, SegmentationOf, Offset, Flatten, CeilDiv;
    var sent, payload := Transmit(inBytes, n, link, infoTx, rate, crcTx);
    var snd, bad := Receive(link, beyond, sent, outBytes, infoRx, n, rate, stat, crcRx);
    SegmentationIsUnique(8 * n, rate, infoTx.LDPCgraph, infoTx.nofCBs, infoTx.L_CB, infoTx.K1, infoTx.CBsize,
                         infoRx.LDPCgraph, infoRx.nofCBs, infoRx.L_CB, infoRx.K1, infoRx.CBsize);
    OffsetIsProduct(infoTx.CBsize, infoTx.nofCBs);
    EndToEnd(inBytes[..n], link[..], outBytes[..], sent, payload,
             infoTx.K1 - infoTx.L_CB, infoTx.K1, infoTx.CBsize, infoTx.nofCBs,
             stat.nofWrongCBCRCs, stat.wrongCBCRC[..], stat.histowrongCBCRC[..],
             old(stat.nofWrongCBCRCs), old(stat.wrongCBCRC[..]), old(stat.histowrongCBCRC[..]));
  }
}
