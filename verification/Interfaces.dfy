/** The code blocks between the two modules: work() puts each on an interface of its own, and at the
    other end gathers what it finds on the first seven; the eighth input carries the control data. */
module Interfaces {
  import opened BitStrings
  import opened CyclicCode
  import opened CrcEngine
  import opened Polynomials
  import opened Rounding
  import opened Segmentation
  import opened CodeBlocks
  import opened CodeBlockChain

  const NOF_OUTPUT_ITF: nat := 8
  const NOF_INPUT_ITF: nat := 8

  function Min(a: nat, b: nat): nat {
    if a < b then a else b
  }

  /** The first n bytes of the buffer of interface j. */
  function Slot(itf: seq<Byte>, j: nat, n: nat): (s: seq<Byte>)
    requires n <= MAX_DATA && MAX_DATA * (j + 1) <= |itf|
    ensures |s| == n
  {
    itf[MAX_DATA * j..MAX_DATA * j + n]
  }

  /** The j-th piece of n bytes. */
  function Piece(data: seq<Byte>, j: nat, n: nat): (s: seq<Byte>)
    requires Offset(n, j) + n <= |data|
    ensures |s| == n
  {
    data[Offset(n, j)..Offset(n, j) + n]
  }

  /** Each of the first interfaces carries its code block; the others carry nothing. */
  ghost predicate Carried(itf: seq<Byte>, samples: seq<nat>, data: seq<Byte>, snd: nat, c: nat, nofItf: nat) {
    && |itf| == MAX_DATA * NOF_OUTPUT_ITF && nofItf <= |samples| == NOF_OUTPUT_ITF
    && snd <= MAX_DATA && Offset(snd, c) <= |data|
    && (forall j :: 0 <= j < nofItf ==> samples[j] == if j < c then snd else 0)
    && (forall j :: 0 <= j < nofItf && j < c ==> InSlot(itf, data, snd, j))
  }

  ghost predicate InSlot(itf: seq<Byte>, data: seq<Byte>, snd: nat, j: nat) {
    && snd <= MAX_DATA && MAX_DATA * (j + 1) <= |itf| && Offset(snd, j) + snd <= |data|
    && Slot(itf, j, snd) == Piece(data, j, snd)
  }

  // ----- Sending -----

  lemma PieceInRange(n: nat, j: nat, c: nat)
    requires j < c
    ensures n * j == Offset(n, j) && Offset(n, j) + n == Offset(n, j + 1) <= Offset(n, c)
  {
    OffsetIsProduct(n, j);
    OffsetGrows(n, j, c);
  }

  lemma EqualPieces(sent: nat, c: nat)
    requires c >= 1
    ensures Offset(sent / c, c) <= sent
    ensures sent % c == 0 ==> Offset(sent / c, c) == sent
  {
    OffsetIsProduct(sent / c, c);
  }

  method CopyBytes(src: array<Byte>, from: nat, dst: array<Byte>, to: nat, n: nat)
    requires src != dst && from + n <= src.Length && to + n <= dst.Length
    modifies dst
    ensures dst[..] == Overwritten(old(dst[..]), to, src[from..from + n])
  {
    forall i | 0 <= i < n {
      dst[to + i] := src[from + i];
    }
  }

  function Overwritten(s: seq<Byte>, at: nat, p: seq<Byte>): (t: seq<Byte>)
    requires at + |p| <= |s|
    ensures |t| == |s|
  {
    s[..at] + p + s[at + |p|..]
  }

  lemma SlotWritten(itf: seq<Byte>, j: nat, p: seq<Byte>)
    requires |p| <= MAX_DATA && MAX_DATA * (j + 1) <= |itf|
    ensures Slot(Overwritten(itf, MAX_DATA * j, p), j, |p|) == p
  {
  }

  lemma OtherSlot(itf: seq<Byte>, j: nat, p: seq<Byte>, i: nat, n: nat)
    requires |p| <= MAX_DATA && MAX_DATA * (j + 1) <= |itf| && i < j && n <= MAX_DATA
    ensures Slot(Overwritten(itf, MAX_DATA * j, p), i, n) == Slot(itf, i, n)
  {
    var t := Overwritten(itf, MAX_DATA * j, p);
    assert t[..MAX_DATA * j] == itf[..MAX_DATA * j];
    assert t[..MAX_DATA * j][MAX_DATA * i..MAX_DATA * i + n] == t[MAX_DATA * i..MAX_DATA * i + n];
    assert itf[..MAX_DATA * j][MAX_DATA * i..MAX_DATA * i + n] == itf[MAX_DATA * i..MAX_DATA * i + n];
  }

  /** One more code block on its interface; those on earlier interfaces stay. */
  method PutOne(bytes: array<Byte>, ghost data: seq<Byte>, snd: nat, j: nat, itf: array<Byte>)
    requires bytes != itf && snd <= MAX_DATA && MAX_DATA * (j + 1) <= itf.Length
    requires snd * j == Offset(snd, j) && Offset(snd, j) + snd <= |data| <= bytes.Length && data == bytes[..|data|]
    modifies itf
    ensures InSlot(itf[..], data, snd, j)
    ensures forall i :: 0 <= i < j && InSlot(old(itf[..]), data, snd, i) ==> InSlot(itf[..], data, snd, i)
  {
    hide Slot, Overwritten;
    ghost var before, p := itf[..], Piece(data, j, snd);
    assert bytes[snd * j..snd * j + snd] == p;
    CopyBytes(bytes, snd * j, itf, MAX_DATA * j, snd);
    SlotWritten(before, j, p);
    forall i | 0 <= i < j && InSlot(before, data, snd, i)
      ensures InSlot(itf[..], data, snd, i)
    {
      OtherSlot(before, j, p, i, snd);
    }
  }

  /** TX: one code block to each output interface; code blocks from the ninth on are only reported.
      The value returned is the length of interface 0. */
  method PutOnInterfaces(bytes: array<Byte>, sent: nat, c: nat, itf: array<Byte>, samples: array<nat>)
    returns (snd: nat)
    requires c >= 1 && sent <= bytes.Length && sent / c <= MAX_DATA && bytes != itf
    requires itf.Length == MAX_DATA * NOF_OUTPUT_ITF && samples.Length == NOF_OUTPUT_ITF
    modifies itf, samples
    ensures snd == sent / c
    ensures Carried(itf[..], samples[..], bytes[..sent], snd, c, NOF_OUTPUT_ITF)
    ensures forall j :: 0 <= j < 8 ==> samples[j] == if j < c then snd else 0
    ensures forall j: nat :: j < 8 && j < c ==>
      && Offset(snd, j) + snd <= sent
      && Slot(itf[..], j, snd) == bytes[..sent][Offset(snd, j)..Offset(snd, j) + snd]
  {
    hide InSlot, Offset;
    snd := sent / c;
    ghost var data := bytes[..sent];
    EqualPieces(sent, c);
    for j := 0 to NOF_OUTPUT_ITF
      invariant forall i :: 1 <= i < j ==> samples[i] == if i < c then snd else 0
      invariant forall i :: 0 <= i < j && i < c ==> InSlot(itf[..], data, snd, i)
    {
      var aux := 0;
      if j < c {
        PieceInRange(snd, j, c);
        PutOne(bytes, data, snd, j, itf);
        aux := snd;
      }
      if j != 0 {
        samples[j] := aux;
      }
    }
    samples[0] := snd;
    forall j: nat | j < 8 && j < c
      ensures Offset(snd, j) + snd <= sent
      ensures Slot(itf[..], j, snd) == bytes[..sent][Offset(snd, j)..Offset(snd, j) + snd]
    {
      InSlotGives(itf[..], data, snd, j);
    }
  }

  // ----- Gathering -----

  /** What the samples announced on the first seven interfaces need fits the buffer. */
  ghost predicate Fits(held: seq<Byte>, samples: seq<nat>) {
    && |samples| == NOF_INPUT_ITF
    && forall i :: 0 <= i < NOF_INPUT_ITF - 1 ==> samples[i] <= MAX_DATA && samples[i] * i + samples[i] <= |held|
  }

  lemma FitsAt(held: seq<Byte>, samples: seq<nat>, i: nat)
    requires Fits(held, samples) && i < NOF_INPUT_ITF - 1
    ensures |samples| == NOF_INPUT_ITF && samples[i] <= MAX_DATA && samples[i] * i + samples[i] <= |held|
  {
  }

  /** The buffer after n interfaces were copied behind each other. */
  ghost function Gathered(held: seq<Byte>, itf: seq<Byte>, samples: seq<nat>, n: nat): (t: seq<Byte>)
    requires |itf| == MAX_DATA * NOF_INPUT_ITF && n < NOF_INPUT_ITF && Fits(held, samples)
    ensures |t| == |held|
  {
    if n == 0 then held
    else Overwritten(Gathered(held, itf, samples, n - 1), samples[n - 1] * (n - 1), Slot(itf, n - 1, samples[n - 1]))
  }

  /** RX: gather the first seven inputs; the number of samples of the last one is left over. */
  method Concatenate(itf: array<Byte>, samples: array<nat>, bytes: array<Byte>) returns (rcv: nat)
    requires itf.Length == MAX_DATA * NOF_INPUT_ITF && samples.Length == NOF_INPUT_ITF && bytes != itf
    requires Fits(bytes[..], samples[..])
    modifies bytes
    ensures bytes[..] == Gathered(old(bytes[..]), itf[..], samples[..], NOF_INPUT_ITF - 1)
    ensures rcv == samples[NOF_INPUT_ITF - 2]
  {
    hide Gathered, Fits, Slot, Overwritten;
    ghost var held, data, announced := bytes[..], itf[..], samples[..];
    rcv := 0;
    GatheredNext(held, data, announced, 0);
    for i := 0 to NOF_INPUT_ITF - 1
      invariant bytes[..] == Gathered(held, data, announced, i)
      invariant i > 0 ==> rcv == samples[i - 1]
    {
      GatheredNext(held, data, announced, i);
      rcv := samples[i];
      CopySlot(itf, i, bytes, rcv * i, rcv);
    }
  }

  method CopySlot(itf: array<Byte>, i: nat, bytes: array<Byte>, to: nat, rcv: nat)
    requires bytes != itf && rcv <= MAX_DATA && MAX_DATA * (i + 1) <= itf.Length && to + rcv <= bytes.Length
    modifies bytes
    ensures bytes[..] == Overwritten(old(bytes[..]), to, Slot(itf[..], i, rcv))
  {
    CopyBytes(itf, MAX_DATA * i, bytes, to, rcv);
    assert itf[MAX_DATA * i..MAX_DATA * i + rcv] == Slot(itf[..], i, rcv);
  }

  lemma {:induction false} GatheredNext(held: seq<Byte>, itf: seq<Byte>, samples: seq<nat>, i: nat)
    requires |itf| == MAX_DATA * NOF_INPUT_ITF && Fits(held, samples) && i < NOF_INPUT_ITF - 1
    ensures |samples| == NOF_INPUT_ITF && samples[i] <= MAX_DATA && samples[i] * i + samples[i] <= |held|
    ensures Gathered(held, itf, samples, 0) == held
    ensures Gathered(held, itf, samples, i + 1)
         == Overwritten(Gathered(held, itf, samples, i), samples[i] * i, Slot(itf, i, samples[i]))
  {
    FitsAt(held, samples, i);
  }

  // ----- What arrives -----

  lemma {:induction false} FitsWhenCarried(held: seq<Byte>, itf: seq<Byte>, samples: seq<nat>, data: seq<Byte>,
                                           snd: nat, c: nat)
    requires Carried(itf, samples, data, snd, c, NOF_INPUT_ITF - 1) && Offset(snd, c) <= |held|
    ensures Fits(held, samples)
  {
    hide InSlot, Offset;
    forall i | 0 <= i < NOF_INPUT_ITF - 1
      ensures samples[i] <= MAX_DATA && samples[i] * i + samples[i] <= |held|
    {
      if i < c {
        PieceInRange(snd, i, c);
      }
    }
  }

  /** The gathered code blocks are the sent ones as far as there is an interface for them; behind them
      the buffer keeps what it held. */
  lemma {:induction false} GatheredIs(held: seq<Byte>, itf: seq<Byte>, samples: seq<nat>, data: seq<Byte>,
                                      snd: nat, c: nat, n: nat)
    requires Carried(itf, samples, data, snd, c, NOF_INPUT_ITF - 1) && Offset(snd, c) <= |held|
    requires n <= NOF_INPUT_ITF - 1
    ensures Fits(held, samples) && Offset(snd, Min(n, c)) <= |data| && Offset(snd, Min(n, c)) <= |held|
    ensures Gathered(held, itf, samples, n) == data[..Offset(snd, Min(n, c))] + held[Offset(snd, Min(n, c))..]
  {
    hide Offset, Overwritten, Slot, Piece, InSlot;
    FitsWhenCarried(held, itf, samples, data, snd, c);
    if n == 0 {
      OffsetIsProduct(snd, 0);
    } else {
      GatheredIs(held, itf, samples, data, snd, c, n - 1);
      var t := Gathered(held, itf, samples, n - 1);
      if n <= c {
        PieceInRange(snd, n - 1, c);
        InSlotGives(itf, data, snd, n - 1);
        PieceAppended(held, data, snd, n - 1);
      } else {
        NothingWritten(t);
        assert Slot(itf, n - 1, 0) == [];
      }
    }
  }

  lemma InSlotGives(itf: seq<Byte>, data: seq<Byte>, snd: nat, j: nat)
    requires InSlot(itf, data, snd, j)
    ensures snd <= MAX_DATA && MAX_DATA * (j + 1) <= |itf| && Offset(snd, j) + snd <= |data|
    ensures Slot(itf, j, snd) == Piece(data, j, snd)
  {
  }

  lemma NothingWritten(t: seq<Byte>)
    ensures Overwritten(t, 0, []) == t
  {
  }

  lemma PieceAppended(held: seq<Byte>, data: seq<Byte>, snd: nat, j: nat)
    requires Offset(snd, j) + snd <= |data| && Offset(snd, j) + snd <= |held|
    ensures var o := Offset(snd, j);
      Overwritten(data[..o] + held[o..], o, Piece(data, j, snd)) == data[..o + snd] + held[o + snd..]
  {
    hide Offset;
    var o := Offset(snd, j);
    var t := data[..o] + held[o..];
    assert t[..o] == data[..o] && t[o + snd..] == held[o + snd..];
    assert data[..o] + data[o..o + snd] == data[..o + snd];
  }

  /** The gathered bytes begin with the sent ones. */
  ghost predicate Arrives(held: seq<Byte>, itf: seq<Byte>, samples: seq<nat>, data: seq<Byte>) {
    && |itf| == MAX_DATA * NOF_INPUT_ITF && Fits(held, samples) && |data| <= |held|
    && Gathered(held, itf, samples, NOF_INPUT_ITF - 1)[..|data|] == data
  }

  /** The code blocks arrive whole, whatever the buffer held before, exactly when there are at most seven. */
  lemma {:induction false} ArrivesIff(itf: seq<Byte>, samples: seq<nat>, data: seq<Byte>, snd: nat, c: nat)
    requires Carried(itf, samples, data, snd, c, NOF_INPUT_ITF - 1)
    requires snd > 0 && |data| == Offset(snd, c) <= MAX_DATA
    ensures (forall held: seq<Byte> :: |held| == MAX_DATA ==> Arrives(held, itf, samples, data)) <==> c <= 7
  {
    hide Gathered, Fits, Offset, InSlot;
    forall held: seq<Byte> | |held| == MAX_DATA && c <= 7
      ensures Arrives(held, itf, samples, data)
    {
      GatheredIs(held, itf, samples, data, snd, c, NOF_INPUT_ITF - 1);
      WholeData(held, data);
    }
    if c > 7 {
      PieceInRange(snd, 7, c);
      var o := Offset(snd, 7);
      assert AsByte(true)[7] != AsByte(false)[7];
      var other := if data[o] == AsByte(true) then AsByte(false) else AsByte(true);
      var held := seq(MAX_DATA, _ => other);
      GatheredIs(held, itf, samples, data, snd, c, NOF_INPUT_ITF - 1);
      Differs(held, data, o, other);
      assert !Arrives(held, itf, samples, data);
    }
  }

  lemma WholeData(held: seq<Byte>, data: seq<Byte>)
    requires |data| <= |held|
    ensures (data[..|data|] + held[|data|..])[..|data|] == data
  {
  }

  lemma Differs(held: seq<Byte>, data: seq<Byte>, o: nat, other: Byte)
    requires o < |data| <= |held| && held[o] == other && data[o] != other
    ensures (data[..o] + held[o..])[..|data|] != data
  {
    assert (data[..o] + held[o..])[..|data|][o] == held[o];
  }
}
