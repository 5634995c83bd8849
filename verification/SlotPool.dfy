/** The slot pool of mem.c: a slot map and a table of chunk records over one data area. */
module SlotPool {
  import opened Rounding

  /** A record is free when its offset is -1; otherwise it owns the slots st..end. */
  datatype Chunk = Chunk(offset: int, st: nat, end: nat) {
    predicate Live() {
      offset != -1
    }

    predicate Covers(k: int) {
      Live() && st <= k < end
    }
  }

  ghost predicate FreeRun(slots: seq<bool>, j: int, n: int) {
    0 <= j && j + n <= |slots| && forall k :: j <= k < j + n ==> !slots[k]
  }

  /** The lowest run of n free slots. */
  ghost predicate FirstFit(slots: seq<bool>, j: int, n: int) {
    FreeRun(slots, j, n) && forall s :: FreeRun(slots, s, n) ==> j <= s
  }

  ghost predicate AllLive(chunks: seq<Chunk>) {
    forall c :: 0 <= c < |chunks| ==> chunks[c].Live()
  }

  function Marked(slots: seq<bool>, j: nat, i: nat, used: bool): (s: seq<bool>)
    requires j <= i <= |slots|
    ensures |s| == |slots|
    ensures forall k :: 0 <= k < |slots| ==> s[k] == if j <= k < i then used else slots[k]
  {
    seq(|slots|, k requires 0 <= k < |slots| => if j <= k < i then used else slots[k])
  }

  /** Live chunks own disjoint non-empty slot ranges and the slot map shows exactly their union. */
  ghost predicate Consistent(slots: seq<bool>, chunks: seq<Chunk>, slotSz: nat, dataOffset: nat) {
    && (forall c :: 0 <= c < |chunks| && chunks[c].Live() ==> InPlace(chunks[c], |slots|, slotSz, dataOffset))
    && (forall c, d :: 0 <= c < d < |chunks| && chunks[c].Live() && chunks[d].Live() ==> Apart(chunks[c], chunks[d]))
    && (forall k :: 0 <= k < |slots| ==> (slots[k] <==> exists c :: 0 <= c < |chunks| && chunks[c].Covers(k)))
  }

  ghost predicate InPlace(c: Chunk, n: nat, slotSz: nat, dataOffset: nat) {
    c.st < c.end <= n && c.offset == dataOffset + c.st * slotSz
  }

  ghost predicate Apart(c: Chunk, d: Chunk) {
    c.end <= d.st || d.end <= c.st
  }

  // ----- Invariants -----

  /** At most one live chunk covers a slot. */
  lemma OwnerIsUnique(slots: seq<bool>, chunks: seq<Chunk>, slotSz: nat, dataOffset: nat, k: nat, c: nat, d: nat)
    requires Consistent(slots, chunks, slotSz, dataOffset)
    requires c < |chunks| && d < |chunks| && chunks[c].Covers(k) && chunks[d].Covers(k)
    ensures c == d
  {
  }

  lemma OffsetsAreDistinct(slots: seq<bool>, chunks: seq<Chunk>, slotSz: nat, dataOffset: nat, c: nat, d: nat)
    requires Consistent(slots, chunks, slotSz, dataOffset) && slotSz > 0
    requires c < |chunks| && d < |chunks| && chunks[c].Live() && chunks[c].offset == chunks[d].offset
    ensures c == d
  {
    var a, b := chunks[c], chunks[d];
    SameStart(a.st, b.st, slotSz);
    assert c < d ==> Apart(a, b);
    assert d < c ==> Apart(b, a);
  }

  lemma SameStart(a: nat, b: nat, sz: nat)
    requires sz > 0 && a * sz == b * sz
    ensures a == b
  {
    if a < b {
      Monotone(a + 1, b, sz);
    } else if b < a {
      Monotone(b + 1, a, sz);
    }
  }

  /** A fresh chunk over free slots. */
  lemma AllocKeepsConsistent(slots: seq<bool>, chunks: seq<Chunk>, slotSz: nat, dataOffset: nat, r: nat, j: nat, i: nat)
    requires Consistent(slots, chunks, slotSz, dataOffset)
    requires r < |chunks| && !chunks[r].Live() && j < i && FreeRun(slots, j, i - j)
    ensures Consistent(Marked(slots, j, i, true), chunks[r := Chunk(dataOffset + j * slotSz, j, i)], slotSz, dataOffset)
  {
    var c' := Chunk(dataOffset + j * slotSz, j, i);
    var chunks' := chunks[r := c'];
    var slots' := Marked(slots, j, i, true);
    assert c'.Live();
    forall c | 0 <= c < |chunks| && chunks[c].Live()
      ensures Apart(chunks[c], c') && Apart(c', chunks[c])
    {
      NoOverlap(slots, chunks, c, slotSz, dataOffset, j, i);
    }
    forall k | 0 <= k < |slots|
      ensures slots'[k] <==> exists c :: 0 <= c < |chunks'| && chunks'[c].Covers(k)
    {
      if j <= k < i {
        assert chunks'[r].Covers(k);
      } else if slots[k] {
        var c :| 0 <= c < |chunks| && chunks[c].Covers(k);
        assert chunks'[c].Covers(k);
      }
    }
  }

  lemma NoOverlap(slots: seq<bool>, chunks: seq<Chunk>, c: nat, slotSz: nat, dataOffset: nat, j: nat, i: nat)
    requires Consistent(slots, chunks, slotSz, dataOffset)
    requires c < |chunks| && chunks[c].Live() && j < i && FreeRun(slots, j, i - j)
    ensures chunks[c].end <= j || i <= chunks[c].st
  {
    var a := chunks[c];
    assert InPlace(a, |slots|, slotSz, dataOffset);
    if a.st < i && j < a.end {
      var k := if a.st < j then j else a.st;
      assert a.Covers(k);
      assert slots[k];
    }
  }

  lemma FreeKeepsConsistent(slots: seq<bool>, chunks: seq<Chunk>, slotSz: nat, dataOffset: nat, r: nat)
    requires Consistent(slots, chunks, slotSz, dataOffset)
    requires r < |chunks| && chunks[r].Live()
    ensures chunks[r].st <= chunks[r].end <= |slots|
    ensures Consistent(Marked(slots, chunks[r].st, chunks[r].end, false), chunks[r := Chunk(-1, 0, 0)],
                       slotSz, dataOffset)
  {
    var a := chunks[r];
    assert InPlace(a, |slots|, slotSz, dataOffset);
    var chunks' := chunks[r := Chunk(-1, 0, 0)];
    var slots' := Marked(slots, a.st, a.end, false);
    forall k | 0 <= k < |slots|
      ensures slots'[k] <==> exists c :: 0 <= c < |chunks'| && chunks'[c].Covers(k)
    {
      if a.st <= k < a.end {
        if c :| 0 <= c < |chunks'| && chunks'[c].Covers(k) {
          assert chunks[c].Covers(k) && chunks[r].Covers(k);
          OwnerIsUnique(slots, chunks, slotSz, dataOffset, k, c, r);
        }
      } else if slots[k] {
        var c :| 0 <= c < |chunks| && chunks[c].Covers(k);
        assert chunks'[c].Covers(k);
      }
    }
  }

  // ----- The record table is never the bottleneck -----

  ghost function Starts(chunks: seq<Chunk>): (s: set<int>)
    decreases |chunks|
  {
    if chunks == [] then {} else Starts(chunks[..|chunks| - 1]) + {chunks[|chunks| - 1].st}
  }

  lemma {:induction false} StartsAre(chunks: seq<Chunk>, x: int)
    ensures x in Starts(chunks) <==> exists c :: 0 <= c < |chunks| && chunks[c].st == x
    decreases |chunks|
  {
    if chunks != [] {
      var n := |chunks| - 1;
      StartsAre(chunks[..n], x);
      if x in Starts(chunks) && x != chunks[n].st {
        var c :| 0 <= c < n && chunks[..n][c].st == x;
        assert chunks[c].st == x;
      }
      if c :| 0 <= c < |chunks| && chunks[c].st == x {
        if c < n {
          assert chunks[..n][c].st == x;
        }
      }
    }
  }

  lemma {:induction false} DistinctStarts(chunks: seq<Chunk>)
    requires forall c, d :: 0 <= c < d < |chunks| ==> chunks[c].st != chunks[d].st
    ensures |Starts(chunks)| == |chunks|
    decreases |chunks|
  {
    if chunks != [] {
      var n := |chunks| - 1;
      DistinctStarts(chunks[..n]);
      StartsAre(chunks[..n], chunks[n].st);
    }
  }

  ghost function Below(n: nat): (s: set<int>)
    ensures forall x :: x in s <==> 0 <= x < n
    ensures |s| == n
  {
    if n == 0 then {} else Below(n - 1) + {n - 1}
  }

  /** With a record per slot, all records live means all slots taken. */
  lemma AllLiveMeansFull(slots: seq<bool>, chunks: seq<Chunk>, slotSz: nat, dataOffset: nat, k: nat)
    requires Consistent(slots, chunks, slotSz, dataOffset) && |chunks| == |slots|
    requires forall c :: 0 <= c < |chunks| ==> chunks[c].Live()
    requires k < |slots|
    ensures slots[k]
  {
    var n := |slots|;
    forall c, d | 0 <= c < d < n
      ensures chunks[c].st != chunks[d].st
    {
      assert Apart(chunks[c], chunks[d]);
      assert InPlace(chunks[c], n, slotSz, dataOffset) && InPlace(chunks[d], n, slotSz, dataOffset);
    }
    DistinctStarts(chunks);
    forall x | x in Starts(chunks)
      ensures x in Below(n)
    {
      StartsAre(chunks, x);
      var c :| 0 <= c < n && chunks[c].st == x;
      assert InPlace(chunks[c], n, slotSz, dataOffset);
    }
    FullSubset(Starts(chunks), Below(n));
    StartsAre(chunks, k);
    var c :| 0 <= c < n && chunks[c].st == k;
    assert InPlace(chunks[c], n, slotSz, dataOffset) && chunks[c].Covers(k);
  }

  lemma FullSubset(a: set<int>, b: set<int>)
    requires a <= b && |a| == |b|
    ensures a == b
  {
    assert b == a + (b - a) && |b| == |a| + |b - a|;
    assert b - a == {};
  }

  // ----- The pool -----

  class Pool {
    const slots: array<bool>
    const chunks: array<Chunk>
    const data: array<int>
    const slotSz: nat
    const dataOffset: nat

    /** mem_new behind its size computation: n slots, as many records, all free. Slot indices are
        16-bit. */
    constructor (n: nat, slotSz: nat, dataOffset: nat)
      requires 0 < n <= 32767 && slotSz > 0
      ensures Valid() && slots.Length == n && this.slotSz == slotSz && this.dataOffset == dataOffset
      ensures fresh(slots) && fresh(chunks) && fresh(data)
      ensures forall k :: 0 <= k < n ==> !slots[k]
    {
      slots := new bool[n](_ => false);
      chunks := new Chunk[n](_ => Chunk(-1, 0, 0));
      data := new int[n * slotSz](_ => 0);
      this.slotSz := slotSz;
      this.dataOffset := dataOffset;
    }

    ghost predicate Shape() {
      0 < slots.Length == chunks.Length <= 32767 && slotSz > 0 && data.Length == slots.Length * slotSz
    }

    ghost predicate Valid()
      reads slots, chunks
    {
      Shape() && Consistent(slots[..], chunks[..], slotSz, dataOffset)
    }

    /** The search for a free record. */
    method FreeRecord() returns (i: nat)
      requires Shape()
      ensures i <= chunks.Length
      ensures i < chunks.Length ==> !chunks[i].Live()
      ensures i == chunks.Length ==> forall c :: 0 <= c < chunks.Length ==> chunks[c].Live()
    {
      i := 0;
      while i < chunks.Length
        invariant i <= chunks.Length
        invariant forall c :: 0 <= c < i ==> chunks[c].Live()
      {
        if chunks[i].offset == -1 { break; }
        i := i + 1;
      }
    }

    /** One round of the search: slot i joins the run j..i, or ends it. */
    static function Extend(s: seq<bool>, j: nat, i: nat): nat
      requires i < |s|
    {
      if s[i] then i + 1 else j
    }

    /** What holds when rounds 0..i-1 of the search for n slots are done. */
    static ghost predicate Searched(s: seq<bool>, j: nat, i: nat, n: nat) {
      && j <= i <= |s| && FreeRun(s, j, i - j) && i - j <= n
      && (j > 0 ==> s[j - 1])
      && forall q :: FreeRun(s, q, n) && q + n <= i ==> q == j && i - j == n
    }

    static lemma SearchStep(s: seq<bool>, j: nat, i: nat, n: nat)
      requires Searched(s, j, i, n) && i < |s| && i - j < n
      ensures Searched(s, Extend(s, j, i), i + 1, n)
    {
      var j' := Extend(s, j, i);
      forall q | FreeRun(s, q, n) && q + n <= i + 1
        ensures q == j' && i + 1 - j' == n
      {
        assert q + n <= i ==> q == j;
        assert q <= i < q + n ==> !s[i];
      }
    }

    static lemma SearchDone(s: seq<bool>, j: nat, i: nat, n: nat)
      requires Searched(s, j, i, n)
      ensures i - j <= n && FreeRun(s, j, i - j)
      ensures i - j == n ==> FirstFit(s, j, n)
      ensures i - j < n && i == |s| ==> forall q :: !FreeRun(s, q, n)
    {
    }

    /** The search for enough consecutive slots: a do-while loop, so one slot is always looked at. */
    method FindSlots(size: nat) returns (j: nat, i: nat)
      requires Shape()
      ensures j <= i <= slots.Length && FreeRun(slots[..], j, i - j)
      ensures size > 0 && (i - j) * slotSz >= size ==>
        i - j == CeilDiv(size, slotSz) && FirstFit(slots[..], j, CeilDiv(size, slotSz))
      ensures size > 0 && (i - j) * slotSz < size ==> forall q :: !FreeRun(slots[..], q, CeilDiv(size, slotSz))
      ensures size == 0 ==> i == 1 && j == (if slots[0] then 1 else 0)
    {
      hide CeilDiv, Searched, FreeRun, FirstFit;
      ghost var n := if size == 0 then 1 else CeilDiv(size, slotSz);
      ghost var s := slots[..];
      CeilDivIsLeast(size, slotSz, 0);
      SearchStart(s, n);
      j, i := 0, 0;
      if slots[i] {
        j := i + 1;
      }
      i := i + 1;
      while (i - j) * slotSz < size && i < slots.Length
        invariant j <= i <= slots.Length && i >= 1 && Searched(s, j, i, n)
        invariant size == 0 ==> i == 1 && j == (if slots[0] then 1 else 0)
        decreases slots.Length - i
      {
        CeilDivIsLeast(size, slotSz, i - j);
        SearchStep(s, j, i, n);
        if slots[i] {
          j := i + 1;
        }
        i := i + 1;
      }
      CeilDivIsLeast(size, slotSz, i - j);
      SearchDone(s, j, i, n);
    }

    static lemma SearchStart(s: seq<bool>, n: nat)
      requires n > 0 && |s| > 0
      ensures Searched(s, Extend(s, 0, 0), 1, n)
    {
      SearchStep(s, 0, 0, n);
    }

    /** Record c now owns the slots j..i, and nothing else changed. */
    ghost predicate Taken(slots0: seq<bool>, chunks0: seq<Chunk>, slots1: seq<bool>, chunks1: seq<Chunk>,
                          j: nat, i: nat, c: nat, r: int)
    {
      && j <= i <= |slots0| && c < |chunks0| && !chunks0[c].Live()
      && r == dataOffset + j * slotSz
      && slots1 == Marked(slots0, j, i, true)
      && chunks1 == chunks0[c := Chunk(r, j, i)]
    }

    method Take(c: nat, j: nat, i: nat) returns (r: int)
      requires Shape() && c < chunks.Length && !chunks[c].Live() && j <= i <= slots.Length
      modifies slots, chunks
      ensures r >= 0 && Taken(old(slots[..]), old(chunks[..]), slots[..], chunks[..], j, i, c, r)
    {
      r := dataOffset + j * slotSz;
      chunks[c] := Chunk(r, j, i);
      MarkSlots(j, i, true);
    }

    method MarkSlots(from: nat, to: nat, used: bool)
      requires from <= to <= slots.Length
      modifies slots
      ensures slots[..] == Marked(old(slots[..]), from, to, used)
    {
      for k := from to to
        invariant slots[..] == Marked(old(slots[..]), from, k, used)
      {
        slots[k] := used;
      }
    }

    /** mem_alloc: -1, or the offset of the first run of slots that holds `size` bytes. It fails only
        when no such run exists; the one way it can break the pool is a request for no bytes while
        slot 0 is taken. */
    method Alloc(size: nat) returns (r: int, ghost c: nat, ghost j: nat)
      requires Valid()
      modifies slots, chunks
      ensures Valid() <==> size > 0 || AllLive(old(chunks[..])) || !old(slots[0])
      ensures size == 0 ==> (r == -1 <==> AllLive(old(chunks[..])))
      ensures r == -1 ==> slots[..] == old(slots[..]) && chunks[..] == old(chunks[..])
      ensures size > 0 ==> (r == -1 <==> forall q :: !FreeRun(old(slots[..]), q, CeilDiv(size, slotSz)))
      ensures size > 0 && r != -1 ==>
        && FirstFit(old(slots[..]), j, CeilDiv(size, slotSz))
        && Taken(old(slots[..]), old(chunks[..]), slots[..], chunks[..], j, j + CeilDiv(size, slotSz), c, r)
      ensures size == 0 && r != -1 ==>
        && j == (if old(slots[0]) then 1 else 0)
        && Taken(old(slots[..]), old(chunks[..]), slots[..], chunks[..], j, 1, c, r)
    {
      hide CeilDiv, FreeRun, FirstFit, Consistent;
      j := 0;
      var chidx := FreeRecord();
      c := chidx;
      if chidx == chunks.Length {
        if size > 0 {
          NoRecordNoSlot(slots[..], chunks[..], slotSz, dataOffset, CeilDiv(size, slotSz));
          CeilDivIsLeast(size, slotSz, 0);
        }
        return -1, c, j;
      }
      var st, end := FindSlots(size);
      j := st;
      if (end - st) * slotSz < size {
        return -1, c, j;
      }
      if st < end {
        AllocKeepsConsistent(slots[..], chunks[..], slotSz, dataOffset, chidx, st, end);
      }
      r := Take(chidx, st, end);
      if st == end {
        EmptyBreaks(slots[..], chunks[..], slotSz, dataOffset, chidx);
      }
      if size > 0 {
        RunIsFree(old(slots[..]), st, CeilDiv(size, slotSz));
      }
    }

    /** mem_calloc: as mem_alloc, and the first `size` bytes of the block are zero. */
    method Calloc(size: nat) returns (r: int, ghost c: nat, ghost j: nat)
      requires Valid()
      modifies slots, chunks, data
      ensures Valid() <==> size > 0 || AllLive(old(chunks[..])) || !old(slots[0])
      ensures size == 0 ==> (r == -1 <==> AllLive(old(chunks[..])))
      ensures size > 0 ==> (r == -1 <==> forall q :: !FreeRun(old(slots[..]), q, CeilDiv(size, slotSz)))
      ensures size > 0 && r != -1 ==>
        && FirstFit(old(slots[..]), j, CeilDiv(size, slotSz))
        && Taken(old(slots[..]), old(chunks[..]), slots[..], chunks[..], j, j + CeilDiv(size, slotSz), c, r)
        && 0 <= r - dataOffset && r - dataOffset + size <= data.Length
      ensures size == 0 && r != -1 ==>
        && j == (if old(slots[0]) then 1 else 0)
        && Taken(old(slots[..]), old(chunks[..]), slots[..], chunks[..], j, 1, c, r)
      ensures r == -1 ==> slots[..] == old(slots[..]) && chunks[..] == old(chunks[..])
      ensures forall b :: 0 <= b < data.Length ==>
        data[b] == if r != -1 && r - dataOffset <= b < r - dataOffset + size then 0 else old(data[b])
    {
      hide CeilDiv, FreeRun, FirstFit, Consistent;
      r, c, j := Alloc(size);
      if r > -1 {
        BlockInData(j, if size == 0 then 1 - j else CeilDiv(size, slotSz), size);
        var at := r - dataOffset;
        forall b | 0 <= b < size {
          data[at + b] := 0;
        }
      }
    }

    lemma BlockInData(j: nat, n: nat, size: nat)
      requires Shape() && j + n <= slots.Length && size <= n * slotSz
      ensures j * slotSz + size <= data.Length
    {
      Monotone(j + n, slots.Length, slotSz);
    }

    /** Record c is the first one at this offset. */
    ghost predicate FirstAt(s: seq<Chunk>, offset: int, c: nat) {
      c < |s| && s[c].offset == offset && forall d :: 0 <= d < c ==> s[d].offset != offset
    }

    /** mem_free: negative and unknown offsets are ignored. */
    method Free(offset: int) returns (ok: int)
      requires Valid()
      modifies slots, chunks
      ensures Valid()
      ensures offset < 0 || (forall c :: 0 <= c < chunks.Length ==> old(chunks[c]).offset != offset) ==>
        ok == 0 && slots[..] == old(slots[..]) && chunks[..] == old(chunks[..])
      ensures forall c: nat :: offset >= 0 && FirstAt(old(chunks[..]), offset, c) ==>
        var a := old(chunks[c]);
        && ok == 1 && a.st <= a.end <= slots.Length
        && slots[..] == Marked(old(slots[..]), a.st, a.end, false)
        && chunks[..] == old(chunks[..])[c := Chunk(-1, 0, 0)]
    {
      hide Consistent;
      if offset < 0 {
        return 0;
      }
      var i := 0;
      while i < chunks.Length
        invariant i <= chunks.Length
        invariant forall c :: 0 <= c < i ==> chunks[c].offset != offset
      {
        if chunks[i].offset == offset { break; }
        i := i + 1;
      }
      if i == chunks.Length {
        return 0;
      }
      FreeKeepsConsistent(slots[..], chunks[..], slotSz, dataOffset, i);
      MarkSlots(chunks[i].st, chunks[i].end, false);
      chunks[i] := Chunk(-1, 0, 0);
      ok := 1;
    }

    /** Freeing what was just allocated restores the slot map and all other records. */
    method AllocThenFree(size: nat) returns (r: int, ghost c: nat)
      requires Valid() && size > 0
      modifies slots, chunks
      ensures Valid() && slots[..] == old(slots[..])
      ensures chunks[..] == old(chunks[..])
        || (c < chunks.Length && chunks[..] == old(chunks[..])[c := Chunk(-1, 0, 0)])
    {
      hide CeilDiv, Consistent, FreeRun, FirstFit, Marked;
      ghost var j;
      r, c, j := Alloc(size);
      if r != -1 {
        ghost var n := CeilDiv(size, slotSz);
        OnlyAt(slots[..], chunks[..], c);
        RunIsFree(old(slots[..]), j, n);
        MarkedBack(old(slots[..]), j, j + n);
        assert FirstAt(chunks[..], r, c) && chunks[c] == Chunk(r, j, j + n);
        var _ := Free(r);
      }
    }

    lemma OnlyAt(s: seq<bool>, t: seq<Chunk>, c: nat)
      requires Shape() && Consistent(s, t, slotSz, dataOffset) && c < |t| && t[c].Live()
      ensures FirstAt(t, t[c].offset, c)
    {
      forall d | 0 <= d < c
        ensures t[d].offset != t[c].offset
      {
        if t[d].offset == t[c].offset {
          OffsetsAreDistinct(s, t, slotSz, dataOffset, d, c);
        }
      }
    }
  }

  lemma MarkedBack(slots: seq<bool>, j: nat, i: nat)
    requires j <= i <= |slots| && FreeRun(slots, j, i - j)
    ensures Marked(Marked(slots, j, i, true), j, i, false) == slots
  {
  }

  lemma RunIsFree(slots: seq<bool>, j: int, n: int)
    requires FirstFit(slots, j, n)
    ensures FreeRun(slots, j, n) && !(forall q :: !FreeRun(slots, q, n))
  {
  }

  lemma EmptyBreaks(slots: seq<bool>, chunks: seq<Chunk>, slotSz: nat, dataOffset: nat, c: nat)
    requires c < |chunks| && chunks[c].Live() && chunks[c].st == chunks[c].end
    ensures !Consistent(slots, chunks, slotSz, dataOffset)
  {
    assert !InPlace(chunks[c], |slots|, slotSz, dataOffset);
  }

  lemma NoRecordNoSlot(slots: seq<bool>, chunks: seq<Chunk>, slotSz: nat, dataOffset: nat, n: nat)
    requires Consistent(slots, chunks, slotSz, dataOffset) && |chunks| == |slots|
    requires forall c :: 0 <= c < |chunks| ==> chunks[c].Live()
    ensures n > 0 ==> forall q :: !FreeRun(slots, q, n)
  {
    forall k | 0 <= k < |slots|
      ensures slots[k]
    {
      AllLiveMeansFull(slots, chunks, slotSz, dataOffset, k);
    }
    forall q | n > 0
      ensures !FreeRun(slots, q, n)
    {
      assert 0 <= q && q + n <= |slots| ==> slots[q];
    }
  }
}
