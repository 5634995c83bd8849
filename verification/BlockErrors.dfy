/** What the receiver notices when the link corrupts a code block. */
module BlockErrors {
  import opened BitStrings
  import opened CyclicCode
  import opened CodeBlocks

  /** Block i as sent: its piece of the payload and the parity. */
  lemma {:induction false} SentBlock(g: Bits, payload: Bits, m: nat, k: nat, c: nat, i: nat)
    requires |g| > 0 && m + |g| <= k && Offset(m, c) <= |payload| && i < c
    ensures Offset(k, i) + k <= Offset(k, c) && Offset(m, i) + m <= Offset(m, c)
    ensures var data := Part(payload, Offset(m, i), m);
      Part(Blocks(g, payload, m, k, c), Offset(k, i), m + |g|) == data + Crc(g, data)
  {
    hide Crc, Blocks, Offset;
    WholeBlock(g, payload, m, k, c, i);
    var data := Part(payload, Offset(m, i), m);
    BlockStart(Blocks(g, payload, m, k, c), Offset(k, i), k, data + Crc(g, data), Zeros(k - m - |g|));
  }

  lemma BlockStart(w: Bits, o: nat, k: nat, a: Bits, b: Bits)
    requires |a| + |b| == k && o + k <= |w| && w[o..o + k] == a + b
    ensures w[o..o + |a|] == a
  {
    assert w[o..o + k][..|a|] == w[o..o + |a|];
  }

  lemma PartOfXor(v: Bits, e: Bits, o: nat, n: nat)
    requires |v| == |e| && o + n <= |v|
    ensures Part(Xor(v, e), o, n) == Xor(Part(v, o, n), Part(e, o, n))
  {
  }

  /** A codeword with a burst in it is none; one without an error stays one. */
  lemma ErrorInBlock(g: Bits, word: Bits, x: nat, burst: Bits, y: nat, e: Bits)
    requires Generator(g) && Codeword(g, word) && |e| == |word|
    requires |burst| <= |g| && burst != Zeros(|burst|)
    ensures x + |burst| + y == |word| && e == Zeros(x) + burst + Zeros(y) ==> !Codeword(g, Xor(word, e))
    ensures e == Zeros(|word|) ==> Codeword(g, Xor(word, e))
  {
    hide Codeword, Xor;
    if x + |burst| + y == |word| && e == Zeros(x) + burst + Zeros(y) {
      BurstDetected(g, word, x, burst, y);
    }
    XorZero(word);
  }

  /** A part of an error burst: all of the burst, or nothing. */
  lemma PartOfError(e: Bits, before: nat, burst: Bits, after: nat, o: nat, n: nat)
    requires e == Zeros(before) + burst + Zeros(after) && o + n <= |e|
    ensures o <= before && before + |burst| <= o + n ==>
      Part(e, o, n) == Zeros(before - o) + burst + Zeros(o + n - before - |burst|)
    ensures o + n <= before || before + |burst| <= o ==> Part(e, o, n) == Zeros(n)
  {
  }

  lemma {:induction false} HitBlock(g: Bits, payload: Bits, m: nat, k: nat, c: nat, b: nat, e: Bits,
                 before: nat, burst: Bits, after: nat, i: nat)
    requires Generator(g) && m + |g| <= k && Offset(m, c) <= |payload| && b < c && i < c
    requires |burst| <= |g| && burst != Zeros(|burst|)
    requires |e| == Offset(k, c) && e == Zeros(before) + burst + Zeros(after)
    requires Offset(k, b) <= before && before + |burst| <= Offset(k, b) + (m + |g|)
    ensures Good(g, Xor(Blocks(g, payload, m, k, c), e), m + |g|, k, i) <==> i != b
  {
    hide Crc, Codeword, Blocks, Offset, Xor, Zeros, Part;
    SentBlock(g, payload, m, k, c, i);
    if i < b {
      BlocksApart(k, i, b);
    } else if b < i {
      BlocksApart(k, b, i);
    }
    var o, n, data := Offset(k, i), m + |g|, Part(payload, Offset(m, i), m);
    var word := data + Crc(g, data);
    CodewordLaw(g, data, Crc(g, data));
    PartOfXor(Blocks(g, payload, m, k, c), e, o, n);
    PartOfError(e, before, burst, after, o, n);
    if i == b {
      ErrorInBlock(g, word, before - o, burst, o + n - before - |burst|, Part(e, o, n));
    } else {
      ErrorInBlock(g, word, 0, burst, 0, Part(e, o, n));
    }
  }

  lemma TwoDiffer(s: seq<nat>)
    requires Increasing(s)
    ensures |s| > 1 ==> s[0] != s[1]
  {
  }

  lemma Singleton(s: seq<nat>, b: nat)
    requires Increasing(s) && forall i: nat :: i in s <==> i == b
    ensures s == [b]
  {
    TwoDiffer(s);
    assert b in s;
    assert forall i :: 0 <= i < |s| ==> s[i] in s;
  }

  /** A burst no longer than the parity, anywhere in the checked part of one block, makes the
      receiver count that block and no other. */
  lemma {:induction false} BurstIsCounted(g: Bits, payload: Bits, m: nat, k: nat, c: nat, b: nat,
                                          before: nat, burst: Bits, after: nat)
    requires Generator(g) && m + |g| <= k && Offset(m, c) <= |payload| && b < c
    requires |burst| <= |g| && burst != Zeros(|burst|) && before + |burst| + after == Offset(k, c)
    requires Offset(k, b) <= before && before + |burst| <= Offset(k, b) + (m + |g|)
    ensures Wrong(g, Xor(Blocks(g, payload, m, k, c), Zeros(before) + burst + Zeros(after)), m + |g|, k, c) == [b]
  {
    hide Blocks, Offset, Wrong, Good;
    var e, k1 := Zeros(before) + burst + Zeros(after), m + |g|;
    var w := Xor(Blocks(g, payload, m, k, c), e);
    WrongIff(g, w, k1, k, c);
    forall i: nat | i < c
      ensures Good(g, w, k1, k, i) <==> i != b
    {
      HitBlock(g, payload, m, k, c, b, e, before, burst, after, i);
    }
    Singleton(Wrong(g, w, k1, k, c), b);
  }
}
