/** The PDSCH delay buffer: a ring of samples and a ring of block lengths (buffer mode). */
module DelayBuffer {

  const BUFFER_SIZE: nat := 80 * 4096
  const LENGTHS_SIZE: nat := 10

  type Sample = int

  /** The ring position k places after p. */
  function Wrap(p: nat, k: nat, size: nat): (q: nat)
    requires p < size && k <= size
    ensures q < size
  {
    if p + k < size then p + k else p + k - size
  }

  function Concat(blocks: seq<seq<Sample>>): (s: seq<Sample>)
    decreases |blocks|
  {
    if blocks == [] then [] else blocks[0] + Concat(blocks[1..])
  }

  lemma {:induction false} ConcatSnoc(blocks: seq<seq<Sample>>, b: seq<Sample>)
    ensures Concat(blocks + [b]) == Concat(blocks) + b
    decreases |blocks|
  {
    if blocks == [] {
      assert [b][1..] == [] && Concat([b]) == b;
      assert blocks + [b] == [b];
    } else {
      assert (blocks + [b])[1..] == blocks[1..] + [b];
      ConcatSnoc(blocks[1..], b);
    }
  }

  function Next(p: nat, size: nat): nat {
    if p + 1 == size then 0 else p + 1
  }

  /** The position after k single steps. */
  function Forward(p: nat, k: nat, size: nat): (q: nat)
    requires p < size
    ensures q < size
  {
    if k == 0 then p else Next(Forward(p, k - 1, size), size)
  }

  /** The ring after writing s from position p on, overwriting whatever is there. */
  function Written<T>(ring: seq<T>, p: nat, s: seq<T>): (r: seq<T>)
    requires p < |ring|
    ensures |r| == |ring|
    decreases |s|
  {
    if s == [] then ring
    else
      var n := |s| - 1;
      Written(ring, p, s[..n])[Forward(p, n, |ring|) := s[n]]
  }

  function Read<T>(ring: seq<T>, p: nat, n: nat): (s: seq<T>)
    requires p < |ring|
    ensures |s| == n
  {
    if n == 0 then [] else Read(ring, p, n - 1) + [ring[Forward(p, n - 1, |ring|)]]
  }

  lemma {:induction false} ForwardIsWrap(p: nat, k: nat, size: nat)
    requires p < size && k <= size
    ensures Forward(p, k, size) == Wrap(p, k, size)
  {
    if k > 0 {
      ForwardIsWrap(p, k - 1, size);
    }
  }

  /** From position p on, the ring holds s. */
  ghost predicate HoldsFrom<T>(ring: seq<T>, p: nat, s: seq<T>) {
    p < |ring| && |s| <= |ring| && forall k :: 0 <= k < |s| ==> ring[Wrap(p, k, |ring|)] == s[k]
  }

  /** Writing behind what is held extends it, as long as it still fits. */
  lemma {:induction false} WrittenHolds<T>(ring: seq<T>, p: nat, held: seq<T>, s: seq<T>)
    requires HoldsFrom(ring, p, held) && |held| + |s| <= |ring|
    requires |held| < |ring| || s == []
    ensures var q := Wrap(p, |held|, |ring|);
      HoldsFrom(Written(ring, q, s), p, held + s) && Forward(q, |s|, |ring|) == Wrap(p, |held + s|, |ring|)
    decreases |s|
  {
    var q := Wrap(p, |held|, |ring|);
    if s == [] {
      assert held + s == held;
    } else {
      var n := |s| - 1;
      WrittenHolds(ring, p, held, s[..n]);
      HoldsMore(Written(ring, q, s[..n]), p, held + s[..n], s[n]);
      assert held + s == (held + s[..n]) + [s[n]];
    }
  }

  lemma HoldsMore<T>(ring: seq<T>, p: nat, s: seq<T>, x: T)
    requires HoldsFrom(ring, p, s) && |s| < |ring|
    ensures HoldsFrom(ring[Wrap(p, |s|, |ring|) := x], p, s + [x])
    ensures Wrap(p, |s| + 1, |ring|) == Next(Wrap(p, |s|, |ring|), |ring|)
  {
  }

  lemma HoldsFewer<T>(ring: seq<T>, p: nat, s: seq<T>, i: nat)
    requires HoldsFrom(ring, p, s) && i <= |s|
    ensures HoldsFrom(ring, Wrap(p, i, |ring|), s[i..])
    ensures Wrap(Wrap(p, i, |ring|), |s| - i, |ring|) == Wrap(p, |s|, |ring|)
  {
    var q := Wrap(p, i, |ring|);
    forall k | 0 <= k < |s| - i
      ensures ring[Wrap(q, k, |ring|)] == s[i..][k]
    {
      assert Wrap(q, k, |ring|) == Wrap(p, i + k, |ring|);
    }
  }

  lemma {:induction false} ReadHeld<T>(ring: seq<T>, p: nat, s: seq<T>, n: nat)
    requires HoldsFrom(ring, p, s) && n <= |s|
    ensures Read(ring, p, n) == s[..n]
  {
    if n > 0 {
      ReadHeld(ring, p, s, n - 1);
      ForwardIsWrap(p, n - 1, |ring|);
      assert s[..n] == s[..n - 1] + [s[n - 1]];
    }
  }

  /** Storing n samples leaves what is held intact, whatever the samples are, exactly when there is
      room for them. */
  lemma KeptIffRoom(ring: seq<Sample>, p: nat, held: seq<Sample>, n: nat)
    requires HoldsFrom(ring, p, held) && held != [] && 0 < n <= |ring|
    ensures (forall s: seq<Sample> :: |s| == n ==> HoldsFrom(Written(ring, Wrap(p, |held|, |ring|), s), p, held))
        <==> |held| + n <= |ring|
  {
    var q := Wrap(p, |held|, |ring|);
    if |held| + n <= |ring| {
      forall s: seq<Sample> | |s| == n
        ensures HoldsFrom(Written(ring, q, s), p, held)
      {
        WrittenHolds(ring, p, held, s);
        HoldsPrefix(Written(ring, q, s), p, held, s);
      }
    } else {
      var s := seq(n, _ => held[0] + 1);
      NewestFirst(ring, p, held, s);
      assert Wrap(p, 0, |ring|) == p;
      assert !HoldsFrom(Written(ring, q, s), p, held);
    }
  }

  lemma HoldsPrefix<T>(ring: seq<T>, p: nat, s: seq<T>, t: seq<T>)
    requires HoldsFrom(ring, p, s + t)
    ensures HoldsFrom(ring, p, s)
  {
    forall k | 0 <= k < |s|
      ensures ring[Wrap(p, k, |ring|)] == s[k]
    {
      assert (s + t)[k] == s[k];
    }
  }

  /** Without room the oldest place holds a new sample. */
  lemma NewestFirst<T>(ring: seq<T>, p: nat, held: seq<T>, s: seq<T>)
    requires HoldsFrom(ring, p, held) && |s| <= |ring| < |held| + |s|
    ensures Written(ring, Wrap(p, |held|, |ring|), s)[p] == s[|ring| - |held|]
  {
    hide Written, Forward, HoldsFrom, Wrap;
    FullTurn(ring, p, held);
    var q, k := Wrap(p, |held|, |ring|), |ring| - |held|;
    WrittenHolds(ring, q, [], s);
    assert [] + s == s;
    HoldsAt(Written(ring, q, s), q, s, k);
  }

  lemma FullTurn<T>(ring: seq<T>, p: nat, held: seq<T>)
    requires HoldsFrom(ring, p, held)
    ensures p < |ring| && |held| <= |ring|
    ensures var q := Wrap(p, |held|, |ring|);
      HoldsFrom(ring, q, []) && Wrap(q, 0, |ring|) == q && Wrap(q, |ring| - |held|, |ring|) == p
  {
  }

  lemma HoldsAt<T>(ring: seq<T>, p: nat, s: seq<T>, k: nat)
    requires HoldsFrom(ring, p, s) && k < |s|
    ensures p < |ring| && |s| <= |ring| && ring[Wrap(p, k, |ring|)] == s[k]
  {
  }

  function Lengths(blocks: seq<seq<Sample>>): (ls: seq<nat>)
    ensures |ls| == |blocks|
  {
    seq(|blocks|, i requires 0 <= i < |blocks| => |blocks[i]|)
  }

  // ----- One call, on values -----

  /** The two rings with their positions, and the flag. */
  datatype Rings = Rings(samples: seq<Sample>, inPos: nat, outPos: nat,
                         lengths: seq<nat>, inPosLen: nat, outPosLen: nat, outputFlag: int)
  {
    ghost predicate Sound() {
      && |samples| == BUFFER_SIZE && |lengths| == LENGTHS_SIZE
      && inPos < BUFFER_SIZE && outPos < BUFFER_SIZE && inPosLen < LENGTHS_SIZE && outPosLen < LENGTHS_SIZE
    }
  }

  ghost function Empty(): (r: Rings)
    ensures r.Sound()
  {
    Rings(seq(BUFFER_SIZE, _ => 0), 0, 0, seq(LENGTHS_SIZE, _ => 0), 0, 0, 0)
  }

  /** The block and its length are stored. */
  ghost function Stored(r: Rings, inp: seq<Sample>, flag: int): (t: Rings)
    requires r.Sound()
    ensures t.Sound()
  {
    r.(samples := Written(r.samples, r.inPos, inp), inPos := Forward(r.inPos, |inp|, BUFFER_SIZE),
       lengths := r.lengths[r.inPosLen := |inp|], inPosLen := Next(r.inPosLen, LENGTHS_SIZE),
       outputFlag := if flag != 0 then flag else r.outputFlag)
  }

  /** As many samples as the next length says are read. */
  ghost function Fetched(r: Rings): (t: (Rings, seq<Sample>))
    requires r.Sound()
    ensures t.0.Sound() && |t.1| == r.lengths[r.outPosLen]
  {
    var n := r.lengths[r.outPosLen];
    (r.(outPos := Forward(r.outPos, n, BUFFER_SIZE), outPosLen := Next(r.outPosLen, LENGTHS_SIZE)),
     Read(r.samples, r.outPos, n))
  }

  /** work() in buffer mode: nothing without input; otherwise store, and fetch once the flag was seen. */
  ghost function Worked(r: Rings, inp: seq<Sample>, flag: int): (t: (Rings, seq<Sample>))
    requires r.Sound()
    ensures t.0.Sound()
  {
    if inp == [] then (r, [])
    else if Stored(r, inp, flag).outputFlag != 0 then Fetched(Stored(r, inp, flag))
    else (Stored(r, inp, flag), [])
  }

  class Buffer {
    const samples: array<Sample>
    const lengths: array<nat>
    var inPos: nat
    var outPos: nat
    var inPosLen: nat
    var outPosLen: nat
    var outputFlag: int

    constructor ()
      ensures Shape() && State() == Empty() && fresh(samples) && fresh(lengths)
    {
      samples := new Sample[BUFFER_SIZE](_ => 0);
      lengths := new nat[LENGTHS_SIZE](_ => 0);
      inPos, outPos, inPosLen, outPosLen, outputFlag := 0, 0, 0, 0, 0;
    }

    ghost predicate Shape()
      reads this
    {
      && samples.Length == BUFFER_SIZE && lengths.Length == LENGTHS_SIZE
      && inPos < BUFFER_SIZE && outPos < BUFFER_SIZE && inPosLen < LENGTHS_SIZE && outPosLen < LENGTHS_SIZE
    }

    ghost function State(): (r: Rings)
      requires Shape()
      reads this, samples, lengths
      ensures r.Sound()
    {
      Rings(samples[..], inPos, outPos, lengths[..], inPosLen, outPosLen, outputFlag)
    }

    /** Add_to_buffer: nothing keeps it from overwriting samples not yet read. */
    method AddToBuffer(inp: seq<Sample>)
      requires Shape()
      modifies this`inPos, samples
      ensures Shape() && samples[..] == Written(old(samples[..]), old(inPos), inp)
      ensures inPos == Forward(old(inPos), |inp|, BUFFER_SIZE)
    {
      for i := 0 to |inp|
        invariant Shape() && samples[..] == Written(old(samples[..]), old(inPos), inp[..i])
        invariant inPos == Forward(old(inPos), i, BUFFER_SIZE)
      {
        assert inp[..i + 1][..i] == inp[..i];
        samples[inPos] := inp[i];
        inPos := inPos + 1;
        if inPos == BUFFER_SIZE {
          inPos := 0;
        }
      }
      assert inp[..|inp|] == inp;
    }

    method GetFromBuffer(n: nat) returns (out: seq<Sample>)
      requires Shape()
      modifies this`outPos
      ensures Shape() && out == Read(samples[..], old(outPos), n)
      ensures outPos == Forward(old(outPos), n, BUFFER_SIZE)
    {
      out := [];
      for i := 0 to n
        invariant Shape() && out == Read(samples[..], old(outPos), i)
        invariant outPos == Forward(old(outPos), i, BUFFER_SIZE)
      {
        out := out + [samples[outPos]];
        outPos := outPos + 1;
        if outPos == BUFFER_SIZE {
          outPos := 0;
        }
      }
    }

    method AddLength(n: nat)
      requires Shape()
      modifies this`inPosLen, lengths
      ensures Shape() && lengths[..] == old(lengths[..])[old(inPosLen) := n]
      ensures inPosLen == Next(old(inPosLen), LENGTHS_SIZE)
    {
      lengths[inPosLen] := n;
      inPosLen := inPosLen + 1;
      if inPosLen == LENGTHS_SIZE {
        inPosLen := 0;
      }
    }

    method GetLength() returns (n: nat)
      requires Shape()
      modifies this`outPosLen
      ensures Shape() && n == lengths[old(outPosLen)]
      ensures outPosLen == Next(old(outPosLen), LENGTHS_SIZE)
    {
      n := lengths[outPosLen];
      outPosLen := outPosLen + 1;
      if outPosLen == LENGTHS_SIZE {
        outPosLen := 0;
      }
    }

    /** work() in buffer mode. */
    method Work(inp: seq<Sample>, flag: int) returns (out: seq<Sample>)
      requires Shape()
      modifies this, samples, lengths
      ensures Shape() && (State(), out) == Worked(old(State()), inp, flag)
    {
      hide Written, Read, Forward;
      out := [];
      if inp == [] {
        return;
      }
      if flag != 0 {
        outputFlag := flag;
      }
      AddToBuffer(inp);
      AddLength(|inp|);
      assert State() == Stored(old(State()), inp, flag);
      if outputFlag != 0 {
        var n := GetLength();
        out := GetFromBuffer(n);
      }
    }
  }

  // ----- The rings as queues -----

  /** The samples waiting, oldest first. */
  ghost predicate SamplesWait(r: Rings, s: seq<Sample>) {
    r.Sound() && HoldsFrom(r.samples, r.outPos, s) && r.inPos == Wrap(r.outPos, |s|, BUFFER_SIZE)
  }

  ghost predicate LengthsWait(r: Rings, ls: seq<nat>) {
    r.Sound() && HoldsFrom(r.lengths, r.outPosLen, ls) && r.inPosLen == Wrap(r.outPosLen, |ls|, LENGTHS_SIZE)
  }

  /** The blocks waiting in the two rings, oldest first: the waiting lengths are theirs, so the waiting
      samples are as many as the lengths add up to. */
  ghost predicate Pending(r: Rings, blocks: seq<seq<Sample>>) {
    SamplesWait(r, Concat(blocks)) && LengthsWait(r, Lengths(blocks))
  }

  /** What one call does to the waiting samples: the new ones join them, and the first n leave, where n is
      the length read. */
  lemma SamplesStep(r: Rings, inp: seq<Sample>, flag: int, s: seq<Sample>)
    requires SamplesWait(r, s) && inp != [] && |s| + |inp| <= BUFFER_SIZE
    ensures var (t, out) := Worked(r, inp, flag);
      && t.outputFlag == (if flag != 0 then flag else r.outputFlag)
      && if t.outputFlag == 0 then out == [] && SamplesWait(t, s + inp)
         else
           var n := Stored(r, inp, flag).lengths[r.outPosLen];
           && |out| == n
           && (n <= |s + inp| ==> out == (s + inp)[..n] && SamplesWait(t, (s + inp)[n..]))
  {
    hide Written, Read, Forward, HoldsFrom;
    WrittenHolds(r.samples, r.outPos, s, inp);
    var t := Stored(r, inp, flag);
    var n := t.lengths[t.outPosLen];
    if n <= |s + inp| {
      ReadHeld(t.samples, t.outPos, s + inp, n);
      HoldsFewer(t.samples, t.outPos, s + inp, n);
      ForwardIsWrap(t.outPos, n, BUFFER_SIZE);
    }
  }

  /** While everything fits, work() is a queue of blocks: the new one goes in, and with the flag the oldest
      one comes out. */
  lemma {:induction false} WorkQueued(r: Rings, inp: seq<Sample>, flag: int, blocks: seq<seq<Sample>>)
    requires Pending(r, blocks)
    requires inp != [] ==> |blocks| < LENGTHS_SIZE && |Concat(blocks)| + |inp| <= BUFFER_SIZE
    ensures var (t, out) := Worked(r, inp, flag);
      if inp == [] then out == [] && t == r
      else
        var all := blocks + [inp];
        && t.outputFlag == (if flag != 0 then flag else r.outputFlag)
        && if t.outputFlag != 0 then out == all[0] && Pending(t, all[1..]) else out == [] && Pending(t, all)
  {
    hide Concat, Written, Read, Forward, HoldsFrom;
    if inp != [] {
      var all := blocks + [inp];
      SamplesStep(r, inp, flag, Concat(blocks));
      ConcatSnoc(blocks, inp);
      ConcatHead(all);
      HoldsMore<nat>(r.lengths, r.outPosLen, Lengths(blocks), |inp|);
      assert Lengths(all) == Lengths(blocks) + [|inp|];
      HoldsHead<nat>(Stored(r, inp, flag).lengths, r.outPosLen, Lengths(all));
      assert Lengths(all)[1..] == Lengths(all[1..]);
    }
  }

  lemma {:induction false} ConcatHead(blocks: seq<seq<Sample>>)
    requires blocks != []
    ensures |blocks[0]| <= |Concat(blocks)| && Concat(blocks)[..|blocks[0]|] == blocks[0]
    ensures Concat(blocks)[|blocks[0]|..] == Concat(blocks[1..])
  {
  }

  /** With ten blocks waiting the length ring is full: the next block's length replaces the oldest one, and
      that many samples are read. So the oldest block comes out exactly when the new one has the same length,
      and then the rings go on as a queue; without the flag nothing comes out. */
  lemma {:induction false} WorkOverfull(r: Rings, inp: seq<Sample>, flag: int, blocks: seq<seq<Sample>>)
    requires Pending(r, blocks) && |blocks| == LENGTHS_SIZE && inp != []
    requires |Concat(blocks)| + |inp| <= BUFFER_SIZE
    ensures var (t, out) := Worked(r, inp, flag);
      && t.outputFlag == (if flag != 0 then flag else r.outputFlag)
      && (t.outputFlag == 0 ==> out == [])
      && (t.outputFlag != 0 ==>
            && out == (Concat(blocks) + inp)[..|inp|]
            && (out == blocks[0] <==> |inp| == |blocks[0]|)
            && (|inp| == |blocks[0]| ==> Pending(t, blocks[1..] + [inp])))
  {
    hide Concat, Written, Read, Forward, HoldsFrom;
    SamplesStep(r, inp, flag, Concat(blocks));
    FullRing<nat>(r.lengths, r.outPosLen, Lengths(blocks), |inp|);
    OldestOut(blocks, inp);
    assert Lengths(blocks)[1..] + [|inp|] == Lengths(blocks[1..] + [inp]);
  }

  /** Storing one more value in a full ring replaces the oldest one. */
  lemma FullRing<T>(ring: seq<T>, q: nat, s: seq<T>, x: T)
    requires HoldsFrom(ring, q, s) && |s| == |ring| && s != []
    ensures Wrap(q, |s|, |ring|) == q && ring[q := x][q] == x
    ensures HoldsFrom(ring[q := x], Next(q, |ring|), s[1..] + [x])
    ensures Wrap(Next(q, |ring|), |s|, |ring|) == Next(q, |ring|)
  {
    var r, t := ring[q := x], Next(q, |ring|);
    forall k | 0 <= k < |s|
      ensures r[Wrap(t, k, |ring|)] == (s[1..] + [x])[k]
    {
      if k < |s| - 1 {
        assert Wrap(t, k, |ring|) == Wrap(q, k + 1, |ring|);
      }
    }
  }

  /** As many samples as the new block has, from the oldest on. */
  lemma {:induction false} OldestOut(blocks: seq<seq<Sample>>, inp: seq<Sample>)
    requires blocks != []
    ensures (Concat(blocks) + inp)[..|inp|] == blocks[0] <==> |inp| == |blocks[0]|
    ensures Concat(blocks[1..] + [inp]) == (Concat(blocks) + inp)[|blocks[0]|..]
  {
    ConcatSnoc(blocks[1..], inp);
    HeadAndTail(blocks[0], Concat(blocks[1..]), inp);
  }

  lemma HeadAndTail(head: seq<Sample>, rest: seq<Sample>, inp: seq<Sample>)
    ensures (head + rest + inp)[..|inp|] == head <==> |inp| == |head|
    ensures (head + rest + inp)[|head|..] == rest + inp
  {
    var s := head + rest + inp;
    assert s[..|head|] == head;
  }

  lemma HoldsHead<T>(ring: seq<T>, p: nat, s: seq<T>)
    requires HoldsFrom(ring, p, s) && s != []
    ensures p < |ring| && |s| <= |ring| && ring[p] == s[0] && HoldsFrom(ring, Next(p, |ring|), s[1..])
    ensures Wrap(Next(p, |ring|), |s| - 1, |ring|) == Wrap(p, |s|, |ring|)
  {
    assert ring[Wrap(p, 0, |ring|)] == s[0];
    HoldsFewer(ring, p, s, 1);
  }

  // ----- Runs -----

  /** The rings after the first n calls. */
  ghost function After(blocks: seq<seq<Sample>>, flags: seq<int>, n: nat): (r: Rings)
    requires n <= |blocks| == |flags|
    ensures r.Sound()
  {
    if n == 0 then Empty() else Worked(After(blocks, flags, n - 1), blocks[n - 1], flags[n - 1]).0
  }

  /** What call n puts out. */
  ghost function Output(blocks: seq<seq<Sample>>, flags: seq<int>, n: nat): seq<Sample>
    requires n < |blocks| == |flags|
  {
    Worked(After(blocks, flags, n), blocks[n], flags[n]).1
  }

  /** The module called once for each block. */
  method RunWork(blocks: seq<seq<Sample>>, flags: seq<int>) returns (outs: seq<seq<Sample>>)
    requires |blocks| == |flags|
    ensures |outs| == |blocks| && forall n :: 0 <= n < |blocks| ==> outs[n] == Output(blocks, flags, n)
  {
    hide Worked;
    var b := new Buffer();
    outs := [];
    for n := 0 to |blocks|
      invariant fresh(b) && fresh(b.samples) && fresh(b.lengths) && b.Shape()
      invariant b.State() == After(blocks, flags, n)
      invariant |outs| == n && forall i :: 0 <= i < n ==> outs[i] == Output(blocks, flags, i)
    {
      var out := b.Work(blocks[n], flags[n]);
      outs := outs + [out];
    }
  }

  /** The blocks still waiting after n calls when the flag first comes with call d. */
  function Waiting(blocks: seq<seq<Sample>>, d: nat, n: nat): seq<seq<Sample>>
    requires n <= |blocks|
  {
    if n <= d then blocks[..n] else blocks[n - d..n]
  }

  /** No block is empty, and the waiting samples with the new block always fit the ring. */
  ghost predicate Roomy(blocks: seq<seq<Sample>>, d: nat) {
    && (forall n :: 0 <= n < |blocks| ==> blocks[n] != [])
    && (forall n :: 0 <= n < |blocks| ==> |Concat(Waiting(blocks, d, n))| + |blocks[n]| <= BUFFER_SIZE)
  }

  /** The first flag comes with call d; what comes after it does not matter. */
  ghost predicate FlagFrom(flags: seq<int>, d: nat) {
    (forall n :: 0 <= n < |flags| && n < d ==> flags[n] == 0) && (d < |flags| ==> flags[d] != 0)
  }

  /** What a delay line of d blocks gives back with call n. */
  function Delayed(blocks: seq<seq<Sample>>, d: nat, n: nat): seq<Sample>
    requires n < |blocks|
  {
    if n < d then [] else blocks[n - d]
  }

  /** The length ring has ten places: with call n it gives the length of block n - d % 10. */
  ghost predicate SameLength(blocks: seq<seq<Sample>>, d: nat, n: nat)
    requires n < |blocks|
  {
    d <= n ==> |blocks[n - d % LENGTHS_SIZE]| == |blocks[n - d]|
  }

  /** The last ten lengths stored, each in its place. */
  ghost predicate LastLengths(r: Rings, blocks: seq<seq<Sample>>, n: nat) {
    && n <= |blocks| && |r.lengths| == LENGTHS_SIZE && r.inPosLen == n % LENGTHS_SIZE
    && forall j :: 0 <= j < n && n - LENGTHS_SIZE <= j ==> r.lengths[j % LENGTHS_SIZE] == |blocks[j]|
  }

  lemma NextPlace(n: nat, j: nat)
    ensures Next(n % LENGTHS_SIZE, LENGTHS_SIZE) == (n + 1) % LENGTHS_SIZE
    ensures n - LENGTHS_SIZE < j < n ==> j % LENGTHS_SIZE != n % LENGTHS_SIZE
  {
  }

  lemma LastLengthsStep(r: Rings, blocks: seq<seq<Sample>>, flag: int, n: nat)
    requires r.Sound() && n < |blocks| && LastLengths(r, blocks, n)
    ensures LastLengths(Stored(r, blocks[n], flag), blocks, n + 1)
  {
    hide Written, Forward;
    NextPlace(n, n);
    var t := Stored(r, blocks[n], flag);
    forall j | 0 <= j < n + 1 && n + 1 - LENGTHS_SIZE <= j
      ensures t.lengths[j % LENGTHS_SIZE] == |blocks[j]|
    {
      NextPlace(n, j);
    }
  }

  /** The place read with call n >= d holds the length of block n - d % 10. */
  lemma LengthRead(r: Rings, blocks: seq<seq<Sample>>, d: nat, n: nat)
    requires n < |blocks| && d <= n && LastLengths(r, blocks, n + 1)
    ensures r.lengths[(n - d) % LENGTHS_SIZE] == |blocks[n - d % LENGTHS_SIZE]|
  {
    SamePlace(n - d, d);
  }

  lemma {:induction false} SamePlace(a: nat, d: nat)
    ensures (a + (d - d % LENGTHS_SIZE)) % LENGTHS_SIZE == a % LENGTHS_SIZE && d % LENGTHS_SIZE <= d
  {
    if d >= LENGTHS_SIZE {
      SamePlace(a, d - LENGTHS_SIZE);
    }
  }

  /** The state before call n, as long as all lengths were right. */
  ghost predicate Running(r: Rings, blocks: seq<seq<Sample>>, d: nat, n: nat) {
    && n <= |blocks| && SamplesWait(r, Concat(Waiting(blocks, d, n))) && LastLengths(r, blocks, n)
    && (r.outputFlag == 0 <==> n <= d)
    && r.outPosLen == (if n <= d then 0 else (n - d) % LENGTHS_SIZE)
  }

  lemma {:induction false} NextWaiting(blocks: seq<seq<Sample>>, d: nat, n: nat)
    requires n < |blocks|
    ensures var s := Concat(Waiting(blocks, d, n)) + blocks[n];
      if n < d then Concat(Waiting(blocks, d, n + 1)) == s
      else
        && |blocks[n - d]| <= |s| && s[..|blocks[n - d]|] == blocks[n - d]
        && s[|blocks[n - d]|..] == Concat(Waiting(blocks, d, n + 1))
  {
    hide Concat;
    var all := Waiting(blocks, d, n) + [blocks[n]];
    ConcatSnoc(Waiting(blocks, d, n), blocks[n]);
    if n < d {
      assert Waiting(blocks, d, n + 1) == all;
    } else {
      assert all[0] == blocks[n - d] && Waiting(blocks, d, n + 1) == all[1..];
      ConcatHead(all);
    }
  }

  /** One call of a run: right exactly when the length read is right, and then the run goes on. */
  lemma {:induction false} RunStep(r: Rings, blocks: seq<seq<Sample>>, flags: seq<int>, d: nat, n: nat)
    requires n < |blocks| == |flags| && Running(r, blocks, d, n) && FlagFrom(flags, d)
    requires blocks[n] != [] && |Concat(Waiting(blocks, d, n))| + |blocks[n]| <= BUFFER_SIZE
    ensures var (t, out) := Worked(r, blocks[n], flags[n]);
      && (out == Delayed(blocks, d, n) <==> SameLength(blocks, d, n))
      && (SameLength(blocks, d, n) ==> Running(t, blocks, d, n + 1))
  {
    hide Concat, SamplesWait, LastLengths, Stored, Fetched, Waiting;
    FlagAt(flags, d, n);
    SoundWhenWaiting(r, Concat(Waiting(blocks, d, n)));
    SamplesStep(r, blocks[n], flags[n], Concat(Waiting(blocks, d, n)));
    NextWaiting(blocks, d, n);
    LastLengthsStep(r, blocks, flags[n], n);
    StoredParts(r, blocks[n], flags[n]);
    FetchedKeepsLengths(Stored(r, blocks[n], flags[n]), blocks, n + 1);
    if d <= n {
      LengthRead(Stored(r, blocks[n], flags[n]), blocks, d, n);
      NextPlace(n - d, 0);
    }
  }

  lemma FlagAt(flags: seq<int>, d: nat, n: nat)
    requires FlagFrom(flags, d) && n < |flags|
    ensures (n < d ==> flags[n] == 0) && (n == d ==> flags[n] != 0)
  {
  }

  lemma SoundWhenWaiting(r: Rings, s: seq<Sample>)
    requires SamplesWait(r, s)
    ensures r.Sound()
  {
  }

  lemma StoredParts(r: Rings, inp: seq<Sample>, flag: int)
    requires r.Sound()
    ensures var t := Stored(r, inp, flag);
      t.outPosLen == r.outPosLen && t.outputFlag == (if flag != 0 then flag else r.outputFlag)
  {
  }

  lemma FetchedKeepsLengths(r: Rings, blocks: seq<seq<Sample>>, n: nat)
    requires r.Sound() && LastLengths(r, blocks, n)
    ensures var t := Fetched(r).0;
      LastLengths(t, blocks, n) && t.outPosLen == Next(r.outPosLen, LENGTHS_SIZE) && t.outputFlag == r.outputFlag
  {
  }

  lemma {:induction false} RunKeeps(blocks: seq<seq<Sample>>, flags: seq<int>, d: nat, n: nat)
    requires Roomy(blocks, d) && n <= |blocks| == |flags| && FlagFrom(flags, d)
    requires forall i :: 0 <= i < n ==> SameLength(blocks, d, i)
    ensures Running(After(blocks, flags, n), blocks, d, n)
    ensures forall i :: 0 <= i < n ==> Output(blocks, flags, i) == Delayed(blocks, d, i)
  {
    hide Worked, Running, SameLength, Delayed, Output, Roomy, FlagFrom;
    if n == 0 {
      RunStarts(blocks, d);
    } else {
      RunKeeps(blocks, flags, d, n - 1);
      RoomAt(blocks, d, n - 1);
      RunStep(After(blocks, flags, n - 1), blocks, flags, d, n - 1);
      OutputIs(blocks, flags, n - 1);
    }
  }

  lemma RunStarts(blocks: seq<seq<Sample>>, d: nat)
    ensures Running(Empty(), blocks, d, 0)
  {
    assert Waiting(blocks, d, 0) == [];
  }

  lemma RoomAt(blocks: seq<seq<Sample>>, d: nat, n: nat)
    requires Roomy(blocks, d) && n < |blocks|
    ensures blocks[n] != [] && |Concat(Waiting(blocks, d, n))| + |blocks[n]| <= BUFFER_SIZE
  {
  }

  lemma {:induction false} FirstDifferent(blocks: seq<seq<Sample>>, d: nat, n: nat) returns (i: nat)
    requires n <= |blocks| && exists j :: 0 <= j < n && !SameLength(blocks, d, j)
    ensures i < n && !SameLength(blocks, d, i) && forall j :: 0 <= j < i ==> SameLength(blocks, d, j)
  {
    if j :| 0 <= j < n - 1 && !SameLength(blocks, d, j) {
      i := FirstDifferent(blocks, d, n - 1);
    } else {
      i := n - 1;
    }
  }

  /** For every delay d, however many blocks come before the flag: while the samples fit, every call gives
      back the block d calls before it exactly when that block always has the length the ring gives. */
  lemma {:induction false} DelayIff(blocks: seq<seq<Sample>>, flags: seq<int>, d: nat)
    requires Roomy(blocks, d) && |flags| == |blocks| && FlagFrom(flags, d)
    ensures (forall n :: 0 <= n < |blocks| ==> Output(blocks, flags, n) == Delayed(blocks, d, n))
        <==> (forall n :: 0 <= n < |blocks| ==> SameLength(blocks, d, n))
  {
    hide Output, After, SameLength, Roomy, Running;
    if forall n :: 0 <= n < |blocks| ==> SameLength(blocks, d, n) {
      RunKeeps(blocks, flags, d, |blocks|);
    } else {
      var i := FirstDifferent(blocks, d, |blocks|);
      RunKeeps(blocks, flags, d, i);
      RoomAt(blocks, d, i);
      RunStep(After(blocks, flags, i), blocks, flags, d, i);
      OutputIs(blocks, flags, i);
    }
  }

  lemma OutputIs(blocks: seq<seq<Sample>>, flags: seq<int>, n: nat)
    requires n < |blocks| == |flags|
    ensures Output(blocks, flags, n) == Worked(After(blocks, flags, n), blocks[n], flags[n]).1
  {
  }

  /** With at most nine blocks before the flag call n gives block n - d back, sample for sample, through any
      number of wrap-arounds. */
  lemma {:induction false} DelayLine(blocks: seq<seq<Sample>>, flags: seq<int>, d: nat)
    requires Roomy(blocks, d) && |flags| == |blocks| && FlagFrom(flags, d) && d < LENGTHS_SIZE
    ensures forall n :: 0 <= n < |blocks| ==> Output(blocks, flags, n) == Delayed(blocks, d, n)
  {
    hide Output, Roomy;
    DelayIff(blocks, flags, d);
    assert forall n :: 0 <= n < |blocks| ==> SameLength(blocks, d, n);
  }

  /** Ten blocks before the flag: right exactly when every block from the eleventh on has the length of the
      one ten before it. */
  lemma {:induction false} TenBeforeTheFlag(blocks: seq<seq<Sample>>, flags: seq<int>)
    requires Roomy(blocks, 10) && |flags| == |blocks| && FlagFrom(flags, 10)
    ensures (forall n :: 0 <= n < |blocks| ==> Output(blocks, flags, n) == Delayed(blocks, 10, n))
        <==> (forall n :: 10 <= n < |blocks| ==> |blocks[n]| == |blocks[n - 10]|)
  {
    hide Output, Roomy;
    DelayIff(blocks, flags, 10);
    assert forall n :: 10 <= n < |blocks| ==> (SameLength(blocks, 10, n) <==> |blocks[n]| == |blocks[n - 10]|);
  }

  /** Ten blocks of one sample, then one of two with the flag. */
  const ELEVEN: seq<seq<Sample>> := [[0], [0], [0], [0], [0], [0], [0], [0], [0], [0], [1, 1]]
  const LAST_FLAG: seq<int> := [0, 0, 0, 0, 0, 0, 0, 0, 0, 0, 1]

  /** On this input the eleventh call does not give the first block. */
  lemma {:induction false} EleventhBlockTooLong()
    ensures |ELEVEN| == |LAST_FLAG| == 11 && Output(ELEVEN, LAST_FLAG, 10) != ELEVEN[0]
  {
    hide Output, Running, After;
    ElevenFit();
    RunKeeps(ELEVEN, LAST_FLAG, 10, 10);
    RunStep(After(ELEVEN, LAST_FLAG, 10), ELEVEN, LAST_FLAG, 10, 10);
    OutputIs(ELEVEN, LAST_FLAG, 10);
  }

  lemma {:induction false} ElevenFit()
    ensures Roomy(ELEVEN, 10) && FlagFrom(LAST_FLAG, 10)
  {
    forall n | 0 <= n < |ELEVEN|
      ensures |Concat(Waiting(ELEVEN, 10, n))| + |ELEVEN[n]| <= BUFFER_SIZE
    {
      ShortBlocks(Waiting(ELEVEN, 10, n), 2);
    }
  }

  lemma {:induction false} ShortBlocks(blocks: seq<seq<Sample>>, most: nat)
    requires forall i :: 0 <= i < |blocks| ==> |blocks[i]| <= most
    ensures |Concat(blocks)| <= most * |blocks|
  {
    if blocks != [] {
      ShortBlocks(blocks[1..], most);
    }
  }
}
