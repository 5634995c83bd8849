/** What comes out of work() at the far end: the transport block that went in, exactly when it fits seven
    code blocks. */
module WorkOutput {
  import opened BitStrings
  import opened CyclicCode
  import opened CrcEngine
  import opened Polynomials
  import opened Rounding
  import opened Segmentation
  import opened CodeBlocks
  import opened CodeBlockChain
  import opened Interfaces
  import opened WorkChain

  /** `out` is what the check of the gathered bytes leaves in its output buffer. */
  ghost predicate PutsOut(input: seq<Byte>, out: seq<Byte>, m: nat, k: nat, c: nat) {
    m <= k && Offset(k, c) <= 8 * |input| && Received(Flatten(input)[..Offset(k, c)], Flatten(out), m, k, c)
  }

  /** One transport block on its way: its bytes and code rate, its c blocks of m data bits and l parity bits in
      code blocks of `size` bits, and the buffers of the transmitter. */
  datatype Job = Job(inp: seq<Byte>, rate: real, graph: nat, c: nat, l: nat, m: nat, size: nat,
                     payload: Bits, data: seq<Byte>, itf: seq<Byte>, samples: seq<nat>)
  {
    ghost predicate Segmented() {
      c >= 1 && |inp| <= 15625 && SegmentationOf(8 * |inp|, rate, graph, c, l, m + l, size)
    }

    /** What the transmit mode of work() leaves behind. */
    ghost predicate Sent() {
      && Segmented() && |payload| == c * m && Flatten(inp) <= payload
      && m <= size && (c > 1 ==> m + 24 <= size) && Carries(Flatten(data), payload, m, size, c)
      && |data| == Offset(size / 8, c) && Carried(itf, samples, data, size / 8, c, NOF_INPUT_ITF - 1)
    }

    /** The receiver's buffer after gathering, from what it held before. */
    ghost function Got(held: seq<Byte>): (got: seq<Byte>)
      requires |itf| == MAX_DATA * NOF_INPUT_ITF && Fits(held, samples)
      ensures |got| == |held|
    {
      Gathered(held, itf, samples, NOF_INPUT_ITF - 1)
    }

    /** Every output of the check begins with the transport block. */
    ghost predicate GivesBack(held: seq<Byte>) {
      && |itf| == MAX_DATA * NOF_INPUT_ITF && Fits(held, samples)
      && forall out: seq<Byte> :: PutsOut(Got(held), out, m, size, c) ==> inp <= out
    }

    /** The transport block fits seven code blocks. */
    ghost predicate Short() {
      8 * |inp| <= LongestThrough(8 * |inp|, rate)
    }
  }

  lemma DataSize(size: nat, c: nat)
    requires c >= 1 && size >= 10 && (c > 1 ==> size % 8 == 0)
    ensures Offset(size / 8, c) == size * c / 8 && 8 * Offset(size / 8, c) <= Offset(size, c) == size * c
    ensures size / 8 >= 1 && (c > 1 ==> size == 8 * (size / 8))
  {
    hide Offset;
    PieceSize(size, c);
    EqualPieces(size * c / 8, c);
    OffsetIsProduct(size, c);
  }

  /** What the segmentation says of the sizes. */
  lemma Sizes(j: Job)
    requires j.Segmented()
    ensures Offset(j.size / 8, j.c) <= MAX_DATA && 8 * Offset(j.size / 8, j.c) <= Offset(j.size, j.c) <= 8 * MAX_DATA
    ensures j.size / 8 >= 1 && (j.c > 1 ==> j.l == 24 && j.size == 8 * (j.size / 8))
    ensures j.c == 1 ==> j.l == 0 && j.m == 8 * |j.inp|
    ensures j.c <= 7 <==> j.Short()
  {
    hide SegmentationOf, Offset;
    var b := 8 * |j.inp|;
    TotalSize(b, j.rate, j.graph, j.c, j.l, j.m + j.l, j.size);
    SizeOfBlock(b, j.rate, j.graph, j.c, j.l, j.m + j.l, j.size);
    SevenIff(b, j.rate, j.graph, j.c, j.l, j.m + j.l, j.size);
    SingleIsWhole(b, j.rate, j.graph, j.c, j.l, j.m + j.l, j.size);
    DataSize(j.size, j.c);
  }

  lemma SingleIsWhole(b: nat, rate: real, graph: nat, c: nat, l: nat, k1: nat, size: nat)
    requires SegmentationOf(b, rate, graph, c, l, k1, size)
    ensures c == 1 ==> l == 0 && k1 == b
    ensures c > 1 ==> l == CB_CRC
  {
    hide CBS_T5321, LeastLifting, LeastBlockCount;
  }

  /** The gathered bytes: what was sent, as far as seven interfaces go, and then what was there before. */
  lemma {:induction false} GotIs(j: Job, held: seq<Byte>)
    requires j.Sent() && |held| == MAX_DATA
    ensures |j.itf| == MAX_DATA * NOF_INPUT_ITF && Fits(held, j.samples)
    ensures var o := Offset(j.size / 8, Min(7, j.c));
      o <= |j.data| <= |held| && j.Got(held) == j.data[..o] + held[o..]
    ensures j.c > 7 ==> Offset(j.size / 8, 7) < MAX_DATA
  {
    hide SegmentationOf, Carries, Flatten, Gathered, Fits, Offset, InSlot;
    Sizes(j);
    GatheredIs(held, j.itf, j.samples, j.data, j.size / 8, j.c, NOF_INPUT_ITF - 1);
    if j.c > 7 {
      PieceInRange(j.size / 8, 7, j.c);
    }
  }

  // ----- Up to seven code blocks -----

  /** Whatever the buffer held before, the output begins with the transport block. */
  lemma {:induction false} ComesOut(j: Job, held: seq<Byte>, out: seq<Byte>)
    requires j.Sent() && j.Short() && |held| == MAX_DATA && Fits(held, j.samples)
    requires PutsOut(j.Got(held), out, j.m, j.size, j.c)
    ensures j.inp <= out
  {
    hide SegmentationOf, Carries, Carried, Flatten, Gathered, Fits, Received, Offset, WrongBlocks, Job.Got;
    Sizes(j);
    GotIs(j, held);
    var got := j.Got(held);
    assert got[..|j.data|] == j.data;
    FlattenPrefix(got, |j.data|);
    PrefixOfPrefix(Flatten(got), 8 * |j.data|, Offset(j.size, j.c));
    RoundTrip(Flatten(j.inp), j.payload, Flatten(j.data), Flatten(got)[..Offset(j.size, j.c)], Flatten(out),
              j.m, j.m + j.l, j.size, j.c);
    FlattenPrefix(out, |j.inp|);
    FlattenInjective(out[..|j.inp|], j.inp);
  }

  // ----- More than seven -----

  lemma FlattenAt(bytes: seq<Byte>, j: nat)
    requires j < |bytes|
    ensures Flatten(bytes)[8 * j] == bytes[j][0]
  {
    hide Flatten;
    FlattenPrefix(bytes, j + 1);
    FlattenAppend(bytes[..j], bytes[j]);
    assert bytes[..j + 1] == bytes[..j] + [bytes[j]];
    assert Flatten(bytes[..j + 1])[8 * j] == bytes[j][0];
  }

  /** The first bit of the eighth data field belongs to the transport block. */
  lemma {:induction false} EighthInside(j: Job)
    requires j.Segmented() && j.c > 7
    ensures j.m > 0 && Offset(j.m, 7) < 8 * |j.inp|
  {
    hide SegmentationOf;
    var b, k1 := 8 * |j.inp|, j.m + j.l;
    GraphOf(b, j.rate, j.graph, j.c, j.l, k1, j.size);
    MoreThanHalf(b, j.rate, j.graph, j.c, j.l, k1, j.size);
    AtMostIff(b, j.rate, j.graph, j.c, j.l, k1, j.size, 7);
    NotAboveLimit(b, j.rate, j.graph, j.c, j.l, k1, j.size);
    OffsetIsProduct(j.m, 7);
  }

  lemma NotAboveLimit(b: nat, rate: real, graph: nat, c: nat, l: nat, k1: nat, size: nat)
    requires SegmentationOf(b, rate, graph, c, l, k1, size)
    ensures k1 <= if graph == 2 then MAXCB_KCBG2 else MAXCB_KCBG1
  {
    hide CBS_T5321, LeastLifting, LeastBlockCount;
  }

  /** Eight copies of a bit. */
  function Copies(b: bool): Byte {
    [b, b, b, b, b, b, b, b]
  }

  /** When the buffer held the other bit where the eighth code block belongs, no output of the check begins
      with the transport block. */
  lemma {:induction false} NeverComesOut(j: Job) returns (held: seq<Byte>)
    requires j.Sent() && !j.Short()
    ensures |held| == MAX_DATA && |j.itf| == MAX_DATA * NOF_INPUT_ITF && Fits(held, j.samples)
    ensures forall out: seq<Byte> :: PutsOut(j.Got(held), out, j.m, j.size, j.c) ==> !(j.inp <= out)
  {
    hide SegmentationOf, Carries, Carried, Flatten, Gathered, Fits, Received, Offset, WrongBlocks, Job.Got;
    Sizes(j);
    EighthInside(j);
    var at, o := Offset(j.m, 7), Offset(j.size / 8, 7);
    held := seq(MAX_DATA, _ => Copies(!Flatten(j.inp)[at]));
    GotIs(j, held);
    var got := j.Got(held);
    assert got[o] == held[o];
    FlattenAt(got, o);
    assert Offset(j.size, 7) == 8 * o by { OffsetIsProduct(j.size, 7); OffsetIsProduct(j.size / 8, 7); }
    forall out: seq<Byte> | PutsOut(got, out, j.m, j.size, j.c)
      ensures !(j.inp <= out)
    {
      WrongBit(j.inp, got, out, j.m, j.size, j.c, at, 8 * o);
    }
  }

  lemma {:induction false} WrongBit(inp: seq<Byte>, got: seq<Byte>, out: seq<Byte>, m: nat, k: nat, c: nat,
                                    at: nat, from: nat)
    requires PutsOut(got, out, m, k, c) && c > 7 && 0 < m
    requires at == Offset(m, 7) < 8 * |inp| && from == Offset(k, 7) < 8 * |got|
    requires Flatten(got)[from] != Flatten(inp)[at]
    ensures !(inp <= out)
  {
    hide Flatten, Offset, Data;
    var w := Flatten(got)[..Offset(k, c)];
    DataField(w, m, k, c, 7);
    assert Data(w, m, k, c)[at] == Data(w, m, k, c)[at..at + m][0] == w[from..from + m][0];
    assert w[from] == Flatten(got)[from];
    assert Flatten(out)[..Offset(m, c)][at] == w[from];
    SameBit(inp, out, at);
  }

  lemma SameBit(a: seq<Byte>, b: seq<Byte>, i: nat)
    requires i < 8 * |a| && i < 8 * |b|
    ensures a <= b ==> Flatten(a)[i] == Flatten(b)[i]
  {
    hide Flatten;
    if a <= b {
      FlattenPrefix(b, |a|);
      assert b[..|a|] == a;
    }
  }

  // ----- Both together -----

  /** The check always has an output. */
  lemma {:induction false} SomeOutput(input: seq<Byte>, m: nat, k: nat, c: nat) returns (out: seq<Byte>)
    requires c >= 1 && m <= k && Offset(k, c) <= 8 * |input|
    ensures PutsOut(input, out, m, k, c)
  {
    hide Flatten, Offset, Data, ToBytes;
    OffsetIsProduct(k, 1);
    OffsetIsProduct(m, 1);
    var w := Flatten(input)[..Offset(k, c)];
    var d := if c == 1 then w[..m] else Data(w, m, k, c);
    var bits := d + Zeros(7 * |d|);
    out := ToBytes(bits);
    FlattenToBytes(bits);
    assert bits[..|d|] == d;
  }

  /** End to end through the interfaces: whatever the receiver's buffer held before, the output begins with the
      transport block, exactly when it is at most 58968 bits long on graph 1 and 26712 on graph 2. */
  lemma {:induction false} OutputIsInputIff(j: Job)
    requires j.Sent()
    ensures (forall held: seq<Byte> :: |held| == MAX_DATA ==> j.GivesBack(held))
        <==> 8 * |j.inp| <= if UsesGraph2(8 * |j.inp|, j.rate) then 26712 else 58968
  {
    hide Job.GivesBack, Job.Sent;
    if j.Short() {
      forall held: seq<Byte> | |held| == MAX_DATA
        ensures j.GivesBack(held)
      {
        AlwaysGivesBack(j, held);
      }
    } else {
      var held := DoesNotGiveBack(j);
    }
  }

  lemma {:induction false} AlwaysGivesBack(j: Job, held: seq<Byte>)
    requires j.Sent() && j.Short() && |held| == MAX_DATA
    ensures j.GivesBack(held)
  {
    hide Job.Sent, Job.Short, PutsOut, Job.Got, Fits;
    GotIs(j, held);
    forall out: seq<Byte> | PutsOut(j.Got(held), out, j.m, j.size, j.c)
      ensures j.inp <= out
    {
      ComesOut(j, held, out);
    }
  }

  lemma {:induction false} DoesNotGiveBack(j: Job) returns (held: seq<Byte>)
    requires j.Sent() && !j.Short()
    ensures |held| == MAX_DATA && !j.GivesBack(held)
  {
    hide SegmentationOf, Carries, Carried, Flatten, Offset, PutsOut, Job.Got, Fits;
    held := NeverComesOut(j);
    Sizes(j);
    var out := SomeOutput(j.Got(held), j.m, j.size, j.c);
  }

  // ----- The two modes of work() -----

  /** The transmit mode sends every transport block this way. */
  method SendJob(inBytes: array<Byte>, n: nat, bytes: array<Byte>, itf: array<Byte>, samples: array<nat>,
                 info: CbInfo, rate: real, crc: CrcParams) returns (snd: nat, ghost j: Job)
    requires n <= inBytes.Length && 8 * n <= 125000 && bytes.Length == MAX_DATA
    requires itf.Length == MAX_DATA * NOF_OUTPUT_ITF && samples.Length == NOF_OUTPUT_ITF
    requires crc.Uses(Crc24B) && bytes != crc.data0 && bytes != inBytes && inBytes != crc.data0
    requires itf != bytes && itf != inBytes && itf != crc.data0
    modifies info, bytes, itf, samples, crc.data0
    ensures j.Sent() && j.inp == inBytes[..n] == old(inBytes[..n]) && j.rate == rate
    ensures j.itf == itf[..] && j.samples == samples[..]
    ensures |j.data| <= bytes.Length && j.data == bytes[..|j.data|] && snd == j.size / 8
  {
    hide Crc, CrcParams.Uses, Carries, SegmentationOf, Carried, Flatten, Offset;
    ghost var sent, payload;
    snd, sent, payload := WorkTx(inBytes, n, bytes, itf, samples, info, rate, crc);
    j := Job(inBytes[..n], rate, info.LDPCgraph, info.nofCBs, info.L_CB, info.K1 - info.L_CB, info.CBsize,
             payload, bytes[..sent], itf[..], samples[..]);
    SizeOfBlock(8 * n, rate, info.LDPCgraph, info.nofCBs, info.L_CB, info.K1, info.CBsize);
    PieceSize(info.CBsize, info.nofCBs);
    DataSize(info.CBsize, info.nofCBs);
    SevenOfEight(itf[..], samples[..], bytes[..sent], snd, info.nofCBs);
  }

  lemma SevenOfEight(itf: seq<Byte>, samples: seq<nat>, data: seq<Byte>, snd: nat, c: nat)
    requires Carried(itf, samples, data, snd, c, NOF_OUTPUT_ITF)
    ensures Carried(itf, samples, data, snd, c, NOF_INPUT_ITF - 1)
  {
  }

  /** The receive mode, from any earlier content of its buffer: what it puts out is an output of the check. */
  method ReceiveJob(ghost j: Job, itf: array<Byte>, samples: array<nat>, bytes: array<Byte>, beyond: nat -> Byte,
                    out: array<Byte>, info: CbInfo, n: nat, rate: real, stat: CbStatist, crc: CrcParams)
    returns (snd: nat)
    requires j.Sent() && j.itf == itf[..] && j.samples == samples[..] && n == |j.inp| && rate == j.rate
    requires itf.Length == MAX_DATA * NOF_INPUT_ITF && samples.Length == NOF_INPUT_ITF
    requires bytes.Length == MAX_DATA && out.Length >= MAX_DATA
    requires stat.Valid() && crc.Uses(Crc24B)
    requires bytes != itf && out != bytes && out != crc.data0 && bytes != crc.data0 && out != itf && itf != crc.data0
    modifies info, stat`nofWrongCBCRCs, stat.wrongCBCRC, stat.histowrongCBCRC, bytes, out, crc.data0
    ensures snd == n && Fits(old(bytes[..]), j.samples) && bytes[..] == j.Got(old(bytes[..]))
    ensures PutsOut(bytes[..], out[..], j.m, j.size, j.c)
    ensures j.Short() ==> out[..n] == j.inp
  {
    hide Crc, CrcParams.Uses, Carries, SegmentationOf, Carried, Flatten, Offset, Fits, Gathered, Checked, PutsOut;
    ghost var held := bytes[..];
    GotIs(j, held);
    ghost var bad;
    snd, bad := WorkRx(itf, samples, bytes, beyond, out, info, n, rate, stat, crc);
    SegmentationIsUnique(8 * n, rate, j.graph, j.c, j.l, j.m + j.l, j.size,
                         info.LDPCgraph, info.nofCBs, info.L_CB, info.K1, info.CBsize);
    CheckedPutsOut(bytes[..], out[..], j.m, j.m + j.l, j.size, j.c,
                   stat.nofWrongCBCRCs, stat.wrongCBCRC[..], stat.histowrongCBCRC[..],
                   old(stat.nofWrongCBCRCs), old(stat.wrongCBCRC[..]), old(stat.histowrongCBCRC[..]));
    if j.Short() {
      ComesOut(j, held, out[..]);
      assert out[..][..n] == out[..n];
    }
  }

  lemma CheckedPutsOut(input: seq<Byte>, output: seq<Byte>, m: nat, k1: nat, k: nat, c: nat,
                       nof: nat, list: seq<nat>, histo: seq<nat>, nof0: nat, list0: seq<nat>, histo0: seq<nat>)
    requires Checked(input, output, m, k1, k, c, nof, list, histo, nof0, list0, histo0)
    ensures PutsOut(input, output, m, k, c)
  {
    hide Received, Counted, WrongBlocks, Flatten;
  }
}
