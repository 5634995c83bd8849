/** Code block segmentation: base graph, number of blocks and lifting size
    (sections 5.2.2, 7.2.2 and table 5.3.2-1 of 3GPP TS 38.212). */
module Segmentation {
  import opened BitStrings
  import opened Rounding

  const MAXCB_KCBG1: nat := 8448
  const MAXCB_KCBG2: nat := 3840
  const CB_CRC: nat := 24

  const ROW0: seq<nat> := [2, 4, 8, 16, 32, 64, 128, 256]
  const ROW1: seq<nat> := [3, 6, 12, 24, 48, 96, 192, 384]
  const ROW2: seq<nat> := [5, 10, 20, 40, 80, 160, 320]
  const ROW3: seq<nat> := [7, 14, 28, 56, 112, 224]
  const ROW4: seq<nat> := [9, 18, 36, 72, 144, 288]
  const ROW5: seq<nat> := [11, 22, 44, 88, 176, 352]
  const ROW6: seq<nat> := [13, 26, 52, 104, 208]
  const ROW7: seq<nat> := [15, 30, 60, 120, 240]

  /** The lifting sizes, one row per lifting set. */
  const CBS_T5321: seq<nat> := ROW0 + ROW1 + ROW2 + ROW3 + ROW4 + ROW5 + ROW6 + ROW7

  function Ceil(x: real): int {
    -((-x).Floor)
  }

  /** `q` is the quotient a / b as single-precision division may deliver it: exact when it is
      an integer, otherwise within half a unit in the last place. */
  ghost predicate SingleQuotient(q: real, a: nat, b: nat)
    requires b > 0
  {
    && (forall n: nat :: n * b == a ==> q == n as real)
    && -(a as real) <= (q * b as real - a as real) * 16777216.0 <= a as real
  }

  /** The floating-point ceiling is the integer one for every length a float holds exactly. */
  lemma SingleCeilIsExact(q: real, a: nat, b: nat)
    requires b > 0 && a < 16777216 && SingleQuotient(q, a, b)
    ensures Ceil(q) == CeilDiv(a, b)
  {
    hide CeilDiv;
    var n := CeilDiv(a, b);
    if a == n * b {
      assert q == n as real;
    } else {
      StrictlyBetween(q, a, b, n, q * b as real, n * b);
    }
    CeilBetween(q, n);
  }

  lemma StrictlyBetween(q: real, a: nat, b: nat, n: nat, p: real, nb: nat)
    requires b > 0 && a < 16777216 && p == q * b as real && nb == n * b && a < nb < a + b
    requires -(a as real) <= (p - a as real) * 16777216.0 <= a as real
    ensures (n - 1) as real < q < n as real
  {
    WithinOne(p, a, nb - b, nb);
    OneFewer(n, b);
    Below(q, n as real, b as real, p, nb as real);
    Below((n - 1) as real, q, b as real, (nb - b) as real, p);
  }

  lemma OneFewer(n: nat, b: nat)
    ensures (n * b) as real == n as real * b as real
    ensures (n * b - b) as real == (n - 1) as real * b as real
  {
    assert n * b - b == (n - 1) * b;
  }

  lemma WithinOne(p: real, a: nat, low: int, high: int)
    requires a < 16777216 && low < a < high
    requires -(a as real) <= (p - a as real) * 16777216.0 <= a as real
    ensures low as real < p < high as real
  {
  }

  lemma CeilBetween(q: real, n: int)
    requires (n - 1) as real < q <= n as real
    ensures Ceil(q) == n
  {
  }

  lemma Below(x: real, y: real, b: real, xb: real, yb: real)
    requires b > 0.0 && xb == x * b && yb == y * b && xb < yb
    ensures x < y
  {
    assert x >= y ==> (x - y) * b >= 0.0;
  }

  predicate Enough(c: nat, b: nat, payload: nat) {
    c * payload >= b
  }

  /** The least number of blocks of at most kcb bits that carry b bits with a CRC each. */
  ghost predicate LeastBlockCount(c: nat, b: nat, payload: nat) {
    Enough(c, b, payload) && forall d: nat :: Enough(d, b, payload) ==> c <= d
  }

  function Scaled(a: nat, j: nat): nat {
    a * Pow2(j)
  }

  predicate Base(a: nat) {
    a == 2 || a == 3 || a == 5 || a == 7 || a == 9 || a == 11 || a == 13 || a == 15
  }

  predicate Lifting(z: nat) {
    z in CBS_T5321
  }

  /** The lifting sizes by their law: a * 2^j up to 384. */
  ghost predicate Lawful(z: nat) {
    z <= 384 && exists a: nat, j: nat :: Base(a) && z == Scaled(a, j)
  }

  ghost predicate LeastLifting(zc: nat, kb: nat, k1: nat) {
    Lifting(zc) && kb * zc >= k1 && forall z: nat :: Lifting(z) && kb * z >= k1 ==> zc <= z
  }

  function InfoColumns(graph: nat, b: nat): nat {
    if graph == 1 then 22
    else if b > 640 then 10
    else if b > 560 then 9
    else if b > 192 then 8
    else 6
  }

  function Columns(graph: nat): nat {
    if graph == 1 then 22 else 10
  }

  ghost predicate UsesGraph2(b: nat, rate: real) {
    b <= 292 || (b <= MAXCB_KCBG2 - 16 && rate <= 0.67) || rate <= 0.25
  }

  /** The parameters of a transport block of b bits: c blocks of k1 bits, l of them CRC, in
      code blocks of `size` bits. */
  ghost predicate SegmentationOf(b: nat, rate: real, graph: nat, c: nat, l: nat, k1: nat, size: nat) {
    var kcb := if UsesGraph2(b, rate) then MAXCB_KCBG2 else MAXCB_KCBG1;
    && graph == (if UsesGraph2(b, rate) then 2 else 1)
    && (if b <= kcb then c == 1 && l == 0
        else c > 1 && l == CB_CRC && LeastBlockCount(c, b, kcb - CB_CRC))
    && l <= k1 <= kcb && b <= c * (k1 - l) < b + c
    && exists zc :: LeastLifting(zc, InfoColumns(graph, b), k1) && size == Columns(graph) * zc
  }

  lemma AssembledParameters(b: nat, rate: real, graph: nat, c: nat, l: nat, k1: nat, size: nat, zc: nat)
    requires graph == if UsesGraph2(b, rate) then 2 else 1
    requires var kcb := if graph == 2 then MAXCB_KCBG2 else MAXCB_KCBG1;
      && (if b <= kcb then c == 1 && l == 0 else c > 1 && l == CB_CRC && LeastBlockCount(c, b, kcb - CB_CRC))
      && l <= k1 <= kcb && b <= c * (k1 - l) < b + c
    requires LeastLifting(zc, InfoColumns(graph, b), k1) && size == Columns(graph) * zc
    ensures SegmentationOf(b, rate, graph, c, l, k1, size)
  {
    hide LeastBlockCount, LeastLifting;
  }

  /** The same in numbers. */
  lemma SegmentationMeans(b: nat, rate: real, graph: nat, c: nat, l: nat, k1: nat, size: nat)
    requires SegmentationOf(b, rate, graph, c, l, k1, size)
    ensures graph == if b <= 292 || (b <= 3824 && rate <= 0.67) || rate <= 0.25 then 2 else 1
    ensures var kcb := if graph == 2 then 3840 else 8448;
        if b <= kcb then c == 1 && l == 0 && k1 == b
        else
          && c > 1 && l == 24 && (c - 1) * (kcb - 24) < b <= c * (kcb - 24)
          && 24 <= k1 && b <= c * (k1 - 24) < b + c
    ensures var kb := if graph == 1 then 22
                        else if b > 640 then 10 else if b > 560 then 9 else if b > 192 then 8 else 6;
        exists zc: nat :: Lawful(zc) && size == (if graph == 1 then 22 else 10) * zc && kb * zc >= k1
                          && forall z: nat :: Lawful(z) && kb * z >= k1 ==> zc <= z
  {
    hide Lifting, Lawful;
    var kcb := if graph == 2 then 3840 else 8448;
    if b > kcb {
      assert !Enough(c - 1, b, kcb - 24);
    } else {
      assert c == 1 && l == 0 && k1 == b;
    }
    var zc :| LeastLifting(zc, InfoColumns(graph, b), k1) && size == Columns(graph) * zc;
    LiftingLaw(zc);
    forall z: nat | Lawful(z)
      ensures Lifting(z)
    {
      LiftingLaw(z);
    }
  }

  /** Both ends arrive at the same parameters from the size and the code rate. */
  lemma SegmentationIsUnique(b: nat, rate: real, graph: nat, c: nat, l: nat, k1: nat, size: nat,
                             graph': nat, c': nat, l': nat, k1': nat, size': nat)
    requires SegmentationOf(b, rate, graph, c, l, k1, size)
    requires SegmentationOf(b, rate, graph', c', l', k1', size')
    ensures graph == graph' && c == c' && l == l' && k1 == k1' && size == size'
  {
    hide Lifting, InfoColumns, Columns, LeastBlockCount;
    var kcb := if UsesGraph2(b, rate) then MAXCB_KCBG2 else MAXCB_KCBG1;
    if b > kcb {
      LeastCountIsUnique(c, c', b, kcb - CB_CRC);
    }
    PieceIsUnique(c, b, k1 - l, k1' - l');
  }

  lemma LeastCountIsUnique(c: nat, c': nat, b: nat, payload: nat)
    requires LeastBlockCount(c, b, payload) && LeastBlockCount(c', b, payload)
    ensures c == c'
  {
  }

  lemma PieceIsUnique(c: nat, b: nat, m: nat, m': nat)
    requires b <= c * m < b + c && b <= c * m' < b + c
    ensures m == m'
  {
    if m < m' {
      Monotone(m + 1, m', c);
    } else if m' < m {
      Monotone(m' + 1, m, c);
    }
  }

  // ----- What fits the fixed sizes of the program -----

  /** The longest transport block that gives at most n code blocks. */
  ghost function Longest(b: nat, rate: real, n: nat): nat {
    n * ((if UsesGraph2(b, rate) then MAXCB_KCBG2 else MAXCB_KCBG1) - CB_CRC)
  }

  /** How many code blocks there are is a matter of the length alone. */
  lemma AtMostIff(b: nat, rate: real, graph: nat, c: nat, l: nat, k1: nat, size: nat, n: nat)
    requires SegmentationOf(b, rate, graph, c, l, k1, size) && n >= 2
    ensures c <= n <==> b <= Longest(b, rate, n)
  {
    hide Lifting, LeastLifting;
    var p := (if graph == 2 then MAXCB_KCBG2 else MAXCB_KCBG1) - CB_CRC;
    if c == 1 {
      Monotone(2, n, p);
    } else if c <= n {
      Monotone(c, n, p);
    } else {
      assert !Enough(n, b, p);
    }
  }

  /** Seven code blocks, as many as the receiver gathers, take 58968 bits on graph 1 and 26712 on graph 2. */
  lemma SevenIff(b: nat, rate: real, graph: nat, c: nat, l: nat, k1: nat, size: nat)
    requires SegmentationOf(b, rate, graph, c, l, k1, size)
    ensures c <= 7 <==> b <= if UsesGraph2(b, rate) then 26712 else 58968
  {
    AtMostIff(b, rate, graph, c, l, k1, size, 7);
  }

  lemma SizeOfBlock(b: nat, rate: real, graph: nat, c: nat, l: nat, k1: nat, size: nat)
    requires SegmentationOf(b, rate, graph, c, l, k1, size)
    ensures 10 <= size <= (if graph == 2 then MAXCB_KCBG2 else MAXCB_KCBG1)
    ensures c > 1 ==> size % 8 == 0
    ensures c > 1 && graph == 1 && k1 > 22 * 352 ==> size == MAXCB_KCBG1
    ensures c > 1 && graph == 2 && k1 > 10 * 352 ==> size == MAXCB_KCBG2
  {
    hide Lifting, InfoColumns, LeastBlockCount;
    var zc :| LeastLifting(zc, InfoColumns(graph, b), k1) && size == Columns(graph) * zc;
    TableEntry(zc);
    WholeColumns(graph, b);
    if c > 1 {
      MoreThanHalf(b, rate, graph, c, l, k1, size);
      BlockSize(graph, b, k1, c, zc);
    }
  }

  lemma MoreThanHalf(b: nat, rate: real, graph: nat, c: nat, l: nat, k1: nat, size: nat)
    requires SegmentationOf(b, rate, graph, c, l, k1, size) && c > 1
    ensures b > MAXCB_KCBG2 && 2 * k1 > if graph == 1 then MAXCB_KCBG1 else MAXCB_KCBG2
  {
    hide Lifting, LeastLifting;
    var p := (if graph == 1 then MAXCB_KCBG1 else MAXCB_KCBG2) - CB_CRC;
    assert !Enough(c - 1, b, p);
    assert c * (k1 - l) == k1 * c - c * l;
    SizeAboveHalf(b, p, c, l, k1);
  }

  lemma WholeColumns(graph: nat, b: nat)
    ensures InfoColumns(1, b) == Columns(1) == 22 && Columns(2) == 10
    ensures b > 640 ==> InfoColumns(2, b) == 10
  {
  }

  /** All code blocks together never exceed 15840 bytes. */
  lemma TotalSize(b: nat, rate: real, graph: nat, c: nat, l: nat, k1: nat, size: nat)
    requires SegmentationOf(b, rate, graph, c, l, k1, size) && b <= 125000
    ensures c <= 33 && size * c <= 126720 && size * c / 8 <= 15840
  {
    hide SegmentationOf;
    SizeOfBlock(b, rate, graph, c, l, k1, size);
    AtMostIff(b, rate, graph, c, l, k1, size, 33);
    AtMostIff(b, rate, graph, c, l, k1, size, 15);
    GraphOf(b, rate, graph, c, l, k1, size);
    if graph == 1 {
      Bounded(size, c, MAXCB_KCBG1, 15);
    } else {
      Bounded(size, c, MAXCB_KCBG2, 33);
    }
  }

  lemma GraphOf(b: nat, rate: real, graph: nat, c: nat, l: nat, k1: nat, size: nat)
    requires SegmentationOf(b, rate, graph, c, l, k1, size)
    ensures graph == (if UsesGraph2(b, rate) then 2 else 1)
    ensures c >= 1 && b <= c * (k1 - l) < b + c
    ensures c > 1 ==> l == CB_CRC
  {
    hide Lifting, LeastLifting, LeastBlockCount;
  }

  lemma Bounded(x: nat, y: nat, m: nat, n: nat)
    requires x <= m && y <= n
    ensures x * y <= m * n
  {
    Monotone(x, m, y);
    Monotone(y, n, m);
  }

  /** The receiver unpacks size * c bytes into 1000000 places. They suffice unless the transport block
      is one of the longest. */
  lemma UnpackFitsIff(b: nat, rate: real, graph: nat, c: nat, l: nat, k1: nat, size: nat)
    requires SegmentationOf(b, rate, graph, c, l, k1, size) && b <= 125000
    ensures 8 * (size * c) <= 1000000 <==> b <= if UsesGraph2(b, rate) then 122112 else 117936
  {
    hide SegmentationOf;
    var n, most := if graph == 1 then 14 else 32, if graph == 1 then MAXCB_KCBG1 else MAXCB_KCBG2;
    SizeOfBlock(b, rate, graph, c, l, k1, size);
    GraphOf(b, rate, graph, c, l, k1, size);
    AtMostIff(b, rate, graph, c, l, k1, size, n);
    AtMostIff(b, rate, graph, c, l, k1, size, n + 1);
    if c <= n {
      Bounded(size, c, most, n);
    } else {
      assert c == n + 1;
      LastPiece(b, n, k1 - l, if graph == 1 then 22 * 352 - 24 else 10 * 352 - 24);
    }
  }

  /** 120000 bits at code rate 1/2 are too long for the array. */
  lemma TooLongToUnpack(graph: nat, c: nat, l: nat, k1: nat, size: nat)
    requires SegmentationOf(120000, 0.5, graph, c, l, k1, size)
    ensures 8 * (size * c) > 1000000
  {
    hide SegmentationOf;
    UnpackFitsIff(120000, 0.5, graph, c, l, k1, size);
  }

  lemma SizeAtMost(b: nat, rate: real, graph: nat, c: nat, l: nat, k1: nat, size: nat)
    requires SegmentationOf(b, rate, graph, c, l, k1, size)
    ensures graph == 1 && k1 <= 22 * 288 ==> size <= 22 * 288
    ensures graph == 1 && k1 > 22 * 288 ==> size >= 22 * 320
    ensures c > 1 && graph == 2 && k1 > 10 * 320 ==> size >= 10 * 352
  {
    hide Lifting, InfoColumns, LeastBlockCount;
    var zc :| LeastLifting(zc, InfoColumns(graph, b), k1) && size == Columns(graph) * zc;
    TableEntry(zc);
    WholeColumns(graph, b);
    InTable288();
    if c > 1 {
      MoreThanHalf(b, rate, graph, c, l, k1, size);
    }
  }

  lemma InTable288()
    ensures Lifting(288)
  {
    Powers();
    assert 288 == Scaled(9, 5) && Base(9);
    LiftingLaw(288);
  }

  /** The receiver reads size * c bytes of an input buffer of 20480. It reads behind it exactly for transport
      blocks of more than 18936 bits on graph 1 and 19080 on graph 2. */
  lemma ReadsPastIff(b: nat, rate: real, graph: nat, c: nat, l: nat, k1: nat, size: nat)
    requires SegmentationOf(b, rate, graph, c, l, k1, size)
    ensures size * c > 20480 <==> b > if UsesGraph2(b, rate) then 19080 else 18936
  {
    hide SegmentationOf;
    SizeOfBlock(b, rate, graph, c, l, k1, size);
    SizeAtMost(b, rate, graph, c, l, k1, size);
    GraphOf(b, rate, graph, c, l, k1, size);
    if graph == 1 {
      AtMostIff(b, rate, graph, c, l, k1, size, 2);
      AtMostIff(b, rate, graph, c, l, k1, size, 3);
      ThreeBlocks(b, rate, graph, c, l, k1, size);
    } else {
      AtMostIff(b, rate, graph, c, l, k1, size, 5);
      if c <= 5 {
        Bounded(size, c, MAXCB_KCBG2, 5);
      } else {
        PieceAtLeast(b, rate, graph, c, l, k1, size, 5);
        Bounded(10 * 352, 6, size, c);
      }
    }
  }

  lemma ThreeBlocks(b: nat, rate: real, graph: nat, c: nat, l: nat, k1: nat, size: nat)
    requires SegmentationOf(b, rate, graph, c, l, k1, size) && graph == 1
    ensures size * c > 20480 <==> b > 18936
  {
    hide SegmentationOf;
    SizeOfBlock(b, rate, graph, c, l, k1, size);
    SizeAtMost(b, rate, graph, c, l, k1, size);
    GraphOf(b, rate, graph, c, l, k1, size);
    AtMostIff(b, rate, graph, c, l, k1, size, 2);
    AtMostIff(b, rate, graph, c, l, k1, size, 3);
    if c <= 2 {
      Bounded(size, c, MAXCB_KCBG1, 2);
    } else if c > 3 {
      PieceAtLeast(b, rate, graph, c, l, k1, size, 3);
      Bounded(22 * 320, 3, size, c);
    }
  }

  /** Code blocks of a transport block that needs more than n of them are nearly full. */
  lemma PieceAtLeast(b: nat, rate: real, graph: nat, c: nat, l: nat, k1: nat, size: nat, n: nat)
    requires SegmentationOf(b, rate, graph, c, l, k1, size) && c > n >= 2
    ensures l == CB_CRC && l <= k1
    ensures var p := (if graph == 2 then MAXCB_KCBG2 else MAXCB_KCBG1) - CB_CRC; (k1 - l) * (n + 1) > p * n
  {
    hide Lifting, LeastLifting;
    var p := (if graph == 2 then MAXCB_KCBG2 else MAXCB_KCBG1) - CB_CRC;
    assert !Enough(c - 1, b, p) && b <= c * (k1 - l);
    FullPieces(c, k1 - l, p, n);
  }

  lemma FullPieces(c: nat, m: nat, p: nat, n: nat)
    requires c > n && (c - 1) * p < c * m
    ensures m * (n + 1) > p * n
  {
    MoreThanPieces(c, m, p, n);
    OneLess(c, n, p);
    LargerFactor(c, m * (n + 1), p * n);
  }

  lemma MoreThanPieces(c: nat, m: nat, p: nat, n: nat)
    requires c > 0 && (c - 1) * p < c * m
    ensures c * (m * (n + 1)) > ((c - 1) * (n + 1)) * p
  {
    Regroup(c, m, n + 1);
    Regroup(c - 1, n + 1, p);
    Monotone((c - 1) * p + 1, c * m, n + 1);
  }

  lemma Regroup(a: nat, b: nat, d: nat)
    ensures (a * b) * d == a * (b * d) == (a * d) * b
  {
  }

  lemma OneLess(c: nat, n: nat, p: nat)
    requires c > n
    ensures ((c - 1) * (n + 1)) * p >= c * (p * n)
  {
    assert (c - 1) * (n + 1) == c * n + c - n - 1;
    Regroup(c, n, p);
    Monotone(c * n, (c - 1) * (n + 1), p);
  }

  lemma LargerFactor(c: nat, x: nat, y: nat)
    requires c * x > c * y
    ensures x > y
  {
    if x < y {
      Monotone(x, y, c);
    }
  }

  lemma LastPiece(b: nat, n: nat, m: nat, low: nat)
    requires b <= (n + 1) * m && (n + 1) * low < b
    ensures m > low
  {
    if m <= low {
      Monotone(m, low, n + 1);
    }
  }

  class CbInfo {
    var A: nat
    var B: nat
    var nofCBs: nat
    var L_CB: nat
    var CBsize: nat
    var K1: nat
    var LDPCgraph: nat

    /** What both ends of the chain rely on, whatever length field they carry. */
    ghost predicate Shaped()
      reads this
    {
      && nofCBs >= 1
      && (nofCBs == 1 ==> L_CB == 0)
      && (nofCBs > 1 ==> L_CB == CB_CRC && CBsize % 8 == 0 && K1 > 1920)
      && L_CB <= K1 <= CBsize <= MAXCB_KCBG1
    }

    /** The blocks carry the B bits of the transport block and fewer than one more bit each. */
    ghost predicate Segmented()
      reads this
    {
      && Shaped()
      && (nofCBs == 1 ==> K1 == B)
      && B <= nofCBs * (K1 - L_CB) < B + nofCBs
      && (B <= 125000 ==> nofCBs <= 33)
    }

    /** `unset` is the value the result variable happens to hold when no error is reported. */
    method Compute(rate: real, unset: int) returns (error: int)
      modifies this
      ensures A == old(A) && B == A
      ensures error == if A > 125000 then -1 else unset
      ensures SegmentationOf(A, rate, LDPCgraph, nofCBs, L_CB, K1, CBsize)
      ensures LDPCgraph == if A <= 292 || (A <= 3824 && rate <= 0.67) || rate <= 0.25 then 2 else 1
      ensures var kcb := if LDPCgraph == 2 then 3840 else 8448;
        if A <= kcb then nofCBs == 1 && L_CB == 0 && K1 == A
        else
          && nofCBs > 1 && L_CB == 24 && (nofCBs - 1) * (kcb - 24) < A <= nofCBs * (kcb - 24)
          && 24 <= K1 && A <= nofCBs * (K1 - 24) < A + nofCBs
      ensures var kb := if LDPCgraph == 1 then 22
                        else if A > 640 then 10 else if A > 560 then 9 else if A > 192 then 8 else 6;
        exists zc: nat :: Lawful(zc) && CBsize == (if LDPCgraph == 1 then 22 else 10) * zc && kb * zc >= K1
                          && forall z: nat :: Lawful(z) && kb * z >= K1 ==> zc <= z
      ensures Segmented()
    {
      hide Lifting, Lawful, LeastBlockCount, LeastLifting, SegmentationOf, InfoColumns, Columns;
      error := unset;
      if A <= 292 || (A <= MAXCB_KCBG2 - 16 && rate <= 0.67) || rate <= 0.25 {
        LDPCgraph := 2;
      } else {
        LDPCgraph := 1;
      }
      B := A;
      if B > 125000 {
        error := -1;
      }
      var kcb := MAXCB_KCBG2;
      if LDPCgraph == 1 {
        kcb := MAXCB_KCBG1;
      }
      var l, c, k1 := CountBlocks(B, kcb);
      var zc := ChooseLifting(LDPCgraph, B, k1, c);
      K1, nofCBs, L_CB := k1, c, l;
      CBsize := BlockBits(LDPCgraph, zc);
      AssembledParameters(A, rate, LDPCgraph, nofCBs, L_CB, K1, CBsize, zc);
      SegmentationMeans(A, rate, LDPCgraph, nofCBs, L_CB, K1, CBsize);
    }
  }

  /** The information bits of a code block. */
  method BlockBits(graph: nat, zc: nat) returns (size: nat)
    requires graph == 1 || graph == 2
    ensures size == Columns(graph) * zc
  {
    size := 0;
    if graph == 1 { size := 22 * zc; }
    if graph == 2 { size := 10 * zc; }
  }

  /** CRC length, number of blocks and bits per block. */
  method CountBlocks(b: nat, kcb: nat) returns (l: nat, c: nat, k1: nat)
    requires kcb == MAXCB_KCBG1 || kcb == MAXCB_KCBG2
    ensures if b <= kcb then c == 1 && l == 0 && k1 == b
            else c > 1 && l == CB_CRC && 2 * k1 > kcb && LeastBlockCount(c, b, kcb - CB_CRC)
    ensures l <= k1 <= kcb && b <= c * (k1 - l) < b + c
    ensures b <= 125000 ==> c <= 33
  {
    hide CeilDiv;
    var b1;
    if b <= kcb {
      l, c, b1 := 0, 1, b;
    } else {
      l := CB_CRC;
      c := CeilDiv(b, kcb - l);
      b1 := b + c * l;
    }
    k1 := CeilDiv(b1, c);
    BlockArithmetic(b, kcb, l, c, k1);
    CountBound(c, b, kcb);
  }

  /** The number of information columns and the least lifting size that holds k1 bits. */
  method ChooseLifting(graph: nat, b: nat, k1: nat, ghost c: nat) returns (zc: nat)
    requires (graph == 1 && k1 <= MAXCB_KCBG1) || (graph == 2 && k1 <= MAXCB_KCBG2)
    requires if c == 1 then k1 == b else b > MAXCB_KCBG2 && 2 * k1 > if graph == 1 then MAXCB_KCBG1 else MAXCB_KCBG2
    ensures LeastLifting(zc, InfoColumns(graph, b), k1)
    ensures var size := Columns(graph) * zc; k1 <= size <= MAXCB_KCBG1 && (c > 1 ==> size % 8 == 0)
  {
    hide Lifting;
    var kb := 0;
    if graph == 1 {
      kb := 22;
    }
    if graph == 2 {
      kb := 6;
      if b > 192 { kb := 8; }
      if b > 560 { kb := 9; }
      if b > 640 { kb := 10; }
    }
    InfoColumnsSuffice(graph, b, k1, c);
    var ils := FindLifting(kb, k1);
    zc := CBS_T5321[ils];
    BlockSize(graph, b, k1, c, zc);
  }

  lemma CountBound(c: nat, b: nat, kcb: nat)
    requires kcb == MAXCB_KCBG1 || kcb == MAXCB_KCBG2
    requires b > kcb ==> LeastBlockCount(c, b, kcb - CB_CRC)
    requires b <= kcb ==> c == 1
    ensures b <= 125000 ==> c <= 33
  {
    assert b <= 125000 ==> Enough(33, b, kcb - CB_CRC);
  }

  lemma InfoColumnsSuffice(graph: nat, b: nat, k1: nat, c: nat)
    requires (graph == 1 && k1 <= MAXCB_KCBG1) || (graph == 2 && k1 <= MAXCB_KCBG2)
    requires if c == 1 then k1 == b else b > MAXCB_KCBG2
    ensures k1 <= InfoColumns(graph, b) * 384
  {
  }

  lemma BlockSize(graph: nat, b: nat, k1: nat, c: nat, zc: nat)
    requires (graph == 1 && k1 <= MAXCB_KCBG1) || (graph == 2 && k1 <= MAXCB_KCBG2)
    requires c > 1 ==> b > MAXCB_KCBG2 && 2 * k1 > if graph == 1 then MAXCB_KCBG1 else MAXCB_KCBG2
    requires LeastLifting(zc, InfoColumns(graph, b), k1)
    ensures var size := Columns(graph) * zc;
      k1 <= size <= MAXCB_KCBG1 && (c > 1 ==> size % 8 == 0)
  {
    hide Lifting;
    TableEntry(zc);
    if c > 1 {
      assert zc > 192;
      assert zc == 16 * (zc / 16);
    }
  }

  /** The scan of the lifting size table for the smallest excess kb * Zc - K1. */
  method FindLifting(kb: nat, k1: nat) returns (ils: nat)
    requires 0 < kb <= 22 && k1 <= kb * 384
    ensures ils < |CBS_T5321| && LeastLifting(CBS_T5321[ils], kb, k1)
  {
    hide CBS_T5321, Lifting;
    var d0 := 1000000;
    ils := 0;
    TableShape();
    for i := 0 to 51
      invariant ils < 51
      invariant d0 < 1000000 ==> d0 == kb * CBS_T5321[ils] - k1 >= 0
      invariant forall e :: 0 <= e < i ==> Covered(CBS_T5321[e], kb, k1, d0)
    {
      var zc: int := CBS_T5321[i];
      InTable(i);
      TableEntry(zc);
      if zc == 0 {
        zc := 1000;
      }
      if kb * zc >= k1 {
        var d1 := kb * zc - k1;
        ExcessBound(kb, zc);
        if d1 < d0 {
          d0, ils := d1, i;
        }
      }
    }
    assert Covered(CBS_T5321[15], kb, k1, d0);
    ExcessBound(kb, 384);
    assert Lifting(CBS_T5321[ils]) by { InTable(ils); }
    forall z: nat | Lifting(z) && kb * z >= k1
      ensures CBS_T5321[ils] <= z
    {
      TableEntry(z);
      ExcessBound(kb, z);
      var e := PlaceInTable(z);
      assert Covered(CBS_T5321[e], kb, k1, d0);
      Smaller(kb, CBS_T5321[ils], z);
    }
  }

  ghost predicate Covered(z: nat, kb: nat, k1: nat, d0: int) {
    kb * z >= k1 ==> d0 <= kb * z - k1
  }

  lemma ExcessBound(kb: nat, z: nat)
    requires kb <= 22 && z <= 384
    ensures kb * z <= 8448
  {
    Monotone(kb, 22, z);
  }

  lemma Smaller(kb: nat, y: nat, z: nat)
    requires kb > 0 && kb * y <= kb * z
    ensures y <= z
  {
    if y > z {
      Monotone(z + 1, y, kb);
    }
  }

  lemma InTable(i: nat)
    requires i < |CBS_T5321|
    ensures Lifting(CBS_T5321[i])
  {
    hide CBS_T5321;
  }

  lemma PlaceInTable(z: nat) returns (e: nat)
    requires Lifting(z)
    ensures e < |CBS_T5321| && CBS_T5321[e] == z
  {
    hide CBS_T5321;
    e :| 0 <= e < |CBS_T5321| && CBS_T5321[e] == z;
  }

  lemma TableShape()
    ensures |CBS_T5321| == 51 && CBS_T5321[15] == 384
  {
    assert CBS_T5321[15] == ROW1[7];
  }

  /** Every size is at most 384 and the ones above 192 are multiples of 16; the last ones are 288, 320, 352
      and 384. */
  ghost predicate UsableSize(z: nat) {
    0 < z <= 384 && (z > 192 ==> z % 16 == 0)
    && (z > 352 ==> z == 384) && (z > 320 ==> z >= 352) && (z > 288 ==> z >= 320)
  }

  lemma Powers()
    ensures Pow2(0) == 1 && Pow2(1) == 2 && Pow2(2) == 4 && Pow2(3) == 8
    ensures Pow2(4) == 16 && Pow2(5) == 32 && Pow2(6) == 64 && Pow2(7) == 128
  {
  }

  /** No lifting size has a factor 2^8 besides its base. */
  lemma {:induction false} SmallExponent(a: nat, j: nat)
    requires Base(a) && Scaled(a, j) <= 384
    ensures j <= 7
  {
    if j >= 8 {
      PowerAtLeast(j);
      Monotone(2, a, Pow2(j));
    }
  }

  lemma {:induction false} PowerAtLeast(j: nat)
    requires j >= 8
    ensures Pow2(j) >= 256
  {
    if j > 8 {
      PowerAtLeast(j - 1);
    } else {
      Powers();
    }
  }

  lemma ScaledIsUsable(a: nat, j: nat)
    requires Base(a) && j <= 7 && Scaled(a, j) <= 384
    ensures UsableSize(Scaled(a, j))
  {
    Powers();
  }

  /** Row r of the table holds its base times the powers of two, as far as 384. */
  ghost predicate RowOf(row: seq<nat>, a: nat) {
    && |row| <= 8 && (forall j :: 0 <= j < |row| ==> row[j] == Scaled(a, j) && row[j] <= 384)
    && forall j :: |row| <= j < 8 ==> Scaled(a, j) > 384
  }

  lemma Rows()
    ensures RowOf(ROW0, 2) && RowOf(ROW1, 3) && RowOf(ROW2, 5) && RowOf(ROW3, 7)
    ensures RowOf(ROW4, 9) && RowOf(ROW5, 11) && RowOf(ROW6, 13) && RowOf(ROW7, 15)
  {
    RowsOneToFour();
    RowsFiveToEight();
  }

  lemma RowsOneToFour()
    ensures RowOf(ROW0, 2) && RowOf(ROW1, 3) && RowOf(ROW2, 5) && RowOf(ROW3, 7)
  {
    Powers();
  }

  lemma RowsFiveToEight()
    ensures RowOf(ROW4, 9) && RowOf(ROW5, 11) && RowOf(ROW6, 13) && RowOf(ROW7, 15)
  {
    Powers();
  }

  ghost function RowFor(a: nat): seq<nat> {
    if a == 2 then ROW0 else if a == 3 then ROW1 else if a == 5 then ROW2 else if a == 7 then ROW3
    else if a == 9 then ROW4 else if a == 11 then ROW5 else if a == 13 then ROW6 else ROW7
  }

  /** The table holds exactly the lifting sizes. */
  lemma LiftingLaw(z: nat)
    ensures Lifting(z) <==> Lawful(z)
  {
    hide RowOf, Scaled, ROW0, ROW1, ROW2, ROW3, ROW4, ROW5, ROW6, ROW7;
    Rows();
    if Lifting(z) {
      var a := if z in ROW0 then 2 else if z in ROW1 then 3 else if z in ROW2 then 5 else if z in ROW3 then 7
               else if z in ROW4 then 9 else if z in ROW5 then 11 else if z in ROW6 then 13 else 15;
      InRow(RowFor(a), a, z);
    }
    if Lawful(z) {
      var a: nat, j: nat :| Base(a) && z == Scaled(a, j);
      SmallExponent(a, j);
      RowHas(RowFor(a), a, j);
      assert z in RowFor(a);
    }
  }

  lemma InRow(row: seq<nat>, a: nat, z: nat)
    requires RowOf(row, a) && Base(a) && z in row
    ensures Lawful(z)
  {
    var j :| 0 <= j < |row| && row[j] == z;
    assert z == Scaled(a, j);
  }

  lemma RowHas(row: seq<nat>, a: nat, j: nat)
    requires RowOf(row, a) && j <= 7 && Scaled(a, j) <= 384
    ensures Scaled(a, j) in row
  {
    assert j < |row|;
    assert row[j] == Scaled(a, j);
  }

  lemma TableEntry(z: nat)
    requires Lifting(z)
    ensures UsableSize(z)
  {
    hide Scaled, UsableSize, Lifting;
    LiftingLaw(z);
    var a: nat, j: nat :| Base(a) && z == Scaled(a, j);
    SmallExponent(a, j);
    Powers();
    hide Pow2;
    ScaledIsUsable(a, j);
  }

  lemma BlockArithmetic(b: nat, kcb: nat, l: nat, c: nat, k1: nat)
    requires kcb == MAXCB_KCBG1 || kcb == MAXCB_KCBG2
    requires if b <= kcb then l == 0 && c == 1 else l == CB_CRC && c == CeilDiv(b, kcb - l)
    requires c > 0 && k1 == CeilDiv(b + c * l, c)
    ensures k1 <= kcb
    ensures l <= k1 && b <= c * (k1 - l) < b + c
    ensures b <= kcb ==> k1 == b
    ensures b > kcb ==> c > 1 && 2 * k1 > kcb && LeastBlockCount(c, b, kcb - l)
  {
    hide CeilDiv;
    if b > kcb {
      var p := kcb - l;
      assert c > 1;
      SizeFits(b, p, c, l, k1);
      SizeAboveHalf(b, p, c, l, k1);
      CountIsLeast(b, p, c);
    }
  }

  lemma SizeFits(b: nat, p: nat, c: nat, l: nat, k1: nat)
    requires c > 0 && b <= c * p
    requires b + c * l <= k1 * c < b + c * l + c
    ensures k1 <= p + l
    ensures l <= k1 && b <= c * (k1 - l) < b + c
  {
    if k1 > p + l {
      Monotone(p + l + 1, k1, c);
    }
    if k1 < l {
      Monotone(k1, l - 1, c);
    }
  }

  lemma SizeAboveHalf(b: nat, p: nat, c: nat, l: nat, k1: nat)
    requires c > 1 && c * p < b + p
    requires b + c * l <= k1 * c
    ensures 2 * k1 > p + l
  {
    if 2 * k1 <= p + l {
      Monotone(2 * k1, p + l, c);
      Monotone(2, c, p);
    }
  }

  lemma CountIsLeast(b: nat, p: nat, c: nat)
    requires b <= c * p < b + p
    ensures LeastBlockCount(c, b, p)
  {
    forall d: nat | d * p >= b
      ensures c <= d
    {
      if d < c {
        Monotone(d, c - 1, p);
      }
    }
  }
}
