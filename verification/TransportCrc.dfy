/** Transport block CRC: work() of 5G_CRC_PDSCH.c in its add and check modes. */
module TransportCrc {
  import opened BitStrings
  import opened CyclicCode
  import opened CrcEngine
  import opened Polynomials
  import opened Segmentation
  import opened CodeBlockChain

  /** The generator the adder takes for n data bytes (section 7.2.1 of 3GPP TS 38.212). */
  ghost function AddedGenerator(n: nat, kcb: nat): (g: Bits)
    requires kcb >= 16
  {
    if n > (kcb - 16) / 8 then Crc24A else Crc16
  }

  /** The generator the checker takes for n received bytes. */
  ghost function CheckedGenerator(n: nat, kcb: nat): (g: Bits) {
    if n > kcb / 8 then Crc24A else Crc16
  }

  /** Both ends agree from the length alone, for every block limit. */
  lemma GeneratorsAgree(n: nat, kcb: nat)
    requires kcb >= 16
    ensures var g := AddedGenerator(n, kcb);
      |g| % 8 == 0 && CheckedGenerator(n + |g| / 8, kcb) == g
  {
    GeneratorsAreValid();
  }

  class CrcModule {
    const crc: CrcParams
    var numblocksrcv: nat
    var numblocksNOK: nat

    constructor ()
      ensures numblocksrcv == numblocksNOK == 0
      ensures fresh(crc) && fresh(crc.table) && fresh(crc.data0) && Ready()
    {
      crc := new CrcParams();
      numblocksrcv, numblocksNOK := 0, 0;
    }

    ghost predicate Ready() {
      crc.table.Length == 256 && crc.data0.Length == MAX_LENGTH
    }

    method Configure(g: Bits) returns (error: int)
      requires Ready() && (g == Crc24A || g == Crc16)
      modifies crc, crc.table
      ensures error == 0 && crc.Plain() && crc.Gen() == g && crc.order == |g|
    {
      hide Crc;
      GeneratorsAreValid();
      WordHasDegree(g);
      error := crc.Init(Word(g), |g|);
      crc.GenIsLow();
      if error != 0 {
        return;
      }
      error := crc.SetInit(Zeros(64));
      error := crc.SetXor(Zeros(64));
    }

    /** mode 0: append the parity to the input buffer and send both; no data, no output. */
    method WorkAdd(inp: array<Byte>, rcv: nat, out: array<Byte>) returns (snd: int)
      requires Ready() && rcv <= MAX_LENGTH && rcv + 3 <= inp.Length && rcv + 3 <= out.Length
      requires inp != out && inp != crc.data0 && out != crc.data0
      modifies crc, crc.table, crc.data0, inp, out
      ensures rcv == 0 ==> snd == 0 && out[..] == old(out[..]) && inp[..] == old(inp[..])
      ensures rcv > 0 ==>
        var g := if 8 * rcv > 3824 then Crc24A else Crc16;
        && snd == rcv + (if 8 * rcv > 3824 then 3 else 2)
        && out[..rcv] == old(inp[..rcv])
        && Flatten(out[..snd]) == Flatten(old(inp[..rcv])) + Crc(g, Flatten(old(inp[..rcv])))
        && out[snd..] == old(out[snd..])
        && inp[..] == out[..snd] + old(inp[snd..])
    {
      hide Crc, CrcParams.Plain, Flatten;
      GeneratorsAreValid();
      if rcv == 0 {
        return 0;
      }
      var kcb := MAXCB_KCBG2;
      var poly, length := Crc16, 2;
      if rcv > (kcb - 16) / 8 {
        poly, length := Crc24A, 3;
      }
      var error := Configure(poly);
      if error != 0 {
        return -1;
      }
      crc.AddCrc(inp, rcv);
      snd := rcv + length;
      CopyTo(inp, out, rcv + length);
      SentWord(old(inp[..]), inp[..], old(out[..]), out[..], rcv, rcv + length);
    }

    method CopyTo(src: array<Byte>, dst: array<Byte>, n: nat)
      requires src != dst && n <= src.Length && n <= dst.Length
      modifies dst
      ensures dst[..] == src[..n] + old(dst[n..])
    {
      forall i | 0 <= i < n {
        dst[i] := src[i];
      }
    }

    /** mode 1: check the received bytes, count the outcome and send the data part. A single byte is shorter
        than any parity: the length is -1 and nothing is said of the output. */
    method WorkCheck(inp: array<Byte>, rcv: nat, out: array<Byte>) returns (snd: int)
      requires Ready() && rcv <= MAX_LENGTH && rcv <= inp.Length && rcv <= out.Length
      requires inp != out && inp != crc.data0 && out != crc.data0
      modifies this`numblocksrcv, this`numblocksNOK, crc, crc.table, crc.data0, out
      ensures rcv == 0 ==>
        && snd == 0 && out[..] == old(out[..])
        && numblocksrcv == old(numblocksrcv) && numblocksNOK == old(numblocksNOK)
      ensures rcv > 0 ==>
        var g := if rcv > 480 then Crc24A else Crc16;
        && snd == rcv - (if rcv > 480 then 3 else 2) && (snd < 0 <==> rcv == 1)
        && (snd >= 0 ==> out[..] == old(inp[..snd]) + old(out[snd..]))
        && numblocksrcv == old(numblocksrcv) + 1
        && numblocksNOK == old(numblocksNOK) + if Codeword(g, Flatten(old(inp[..rcv]))) then 0 else 1
    {
      hide Crc, Codeword, CrcParams.Plain;
      GeneratorsAreValid();
      if rcv == 0 {
        return 0;
      }
      var kcb := MAXCB_KCBG2;
      var poly, length := Crc16, 2;
      if rcv > kcb / 8 {
        poly, length := Crc24A, 3;
      }
      var error := Configure(poly);
      if error != 0 {
        return -1;
      }
      numblocksrcv := numblocksrcv + 1;
      var value := crc.CheckCrc(inp[..rcv]);
      CheckIsDivisibility(poly, Flatten(inp[..rcv]));
      ZeroPadding(32 - |poly|, Crc(poly, Flatten(inp[..rcv])));
      if value != Zeros(32) {
        numblocksNOK := numblocksNOK + 1;
      }
      snd := rcv - length;
      if snd >= 0 {
        CopyTo(inp, out, rcv - length);
      }
    }

    /** Adder into checker: the check passes and the data comes back, whatever the length. */
    method AddThenCheck(inp: array<Byte>, n: nat, link: array<Byte>, out: array<Byte>)
      requires Ready() && 0 < n && n + 3 <= MAX_LENGTH
      requires n + 3 <= inp.Length && n + 3 <= link.Length && n + 3 <= out.Length
      requires inp != link && inp != out && link != out
      requires inp != crc.data0 && link != crc.data0 && out != crc.data0
      modifies this`numblocksrcv, this`numblocksNOK, crc, crc.table, crc.data0, inp, link, out
      ensures out[..n] == old(inp[..n])
      ensures numblocksrcv == old(numblocksrcv) + 1 && numblocksNOK == old(numblocksNOK)
    {
      hide Crc, Codeword;
      ghost var data := inp[..n];
      var sent := WorkAdd(inp, n, link);
      GeneratorsAgree(n, MAXCB_KCBG2);
      ghost var g := AddedGenerator(n, MAXCB_KCBG2);
      CodewordLaw(g, Flatten(data), Crc(g, Flatten(data)));
      assert link[..n] == data;
      var snd := WorkCheck(link, sent, out);
    }
  }

  /** The trailer is written behind the data, and both are copied out. */
  lemma SentWord(inp0: seq<Byte>, inp: seq<Byte>, out0: seq<Byte>, out: seq<Byte>, n: nat, snd: nat)
    requires n <= snd <= |inp| == |inp0| && snd <= |out0|
    requires inp[..n] == inp0[..n] && inp[snd..] == inp0[snd..]
    requires out == inp[..snd] + out0[snd..]
    ensures out[..n] == inp0[..n] && out[snd..] == out0[snd..] && inp == out[..snd] + inp0[snd..]
    ensures Flatten(out[..snd]) == Flatten(inp0[..n]) + Flatten(inp[n..snd])
  {
    hide Flatten;
    JoinBytes(inp[..n], inp[n..snd]);
    assert out[..snd] == inp[..snd] == inp[..n] + inp[n..snd];
    assert out[..n] == inp[..n];
  }

  lemma {:induction false} JoinBytes(a: seq<Byte>, b: seq<Byte>)
    ensures Flatten(a + b) == Flatten(a) + Flatten(b)
    decreases |b|
  {
    if b == [] {
      assert a + b == a;
    } else {
      var h, d := b[..|b| - 1], b[|b| - 1];
      JoinBytes(a, h);
      FlattenAppend(h, d);
      FlattenAppend(a + h, d);
      assert b == h + [d] && a + b == (a + h) + [d];
      assert Flatten(a) + (Flatten(h) + d) == (Flatten(a) + Flatten(h)) + d;
    }
  }
}
