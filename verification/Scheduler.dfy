/** The process table and its semaphores: post_objects, hwapi_relinquish and remove_process. */
module Scheduler {
  import opened TokenChain

  const MAX_PROCS: nat := 100

  // ----- Positions on a core -----

  /** The objects of a core, with the process in `also` counted in, hold the positions 0..last
      once each. */
  ghost predicate Lined(core: seq<nat>, idx: seq<int>, live: seq<bool>, c: nat, last: int) {
    && |core| == |idx| == |live|
    && (forall j :: 0 <= j < |core| && On(core, live, c, j) ==> 0 <= idx[j] <= last)
    && (forall j, k :: 0 <= j < k < |core| && On(core, live, c, j) && On(core, live, c, k) ==> idx[j] != idx[k])
    && (forall s :: 0 <= s <= last ==> Held(core, idx, live, c, s))
  }

  ghost predicate On(core: seq<nat>, live: seq<bool>, c: nat, j: int)
    requires |core| == |live| && 0 <= j < |core|
  {
    live[j] && core[j] == c
  }

  ghost predicate Held(core: seq<nat>, idx: seq<int>, live: seq<bool>, c: nat, s: int)
    requires |core| == |idx| == |live|
  {
    exists j :: 0 <= j < |core| && On(core, live, c, j) && idx[j] == s
  }

  /** Everybody behind process i on its core, up to position `last`, moves one place up. */
  function Closed(core: seq<nat>, idx: seq<int>, i: nat, last: int): (r: seq<int>)
    requires i < |core| == |idx|
    ensures |r| == |idx|
  {
    seq(|idx|, j requires 0 <= j < |idx| =>
      if core[j] == core[i] && idx[i] < idx[j] <= last then idx[j] - 1 else idx[j])
  }

  /** Removing a process closes its gap: the rest hold one position fewer, in the same order, and
      no other core notices. */
  lemma RemovalKeepsLine(core: seq<nat>, idx: seq<int>, live: seq<bool>, i: nat, last: int)
    requires i < |core| == |idx| == |live| && live[i] && Lined(core, idx, live, core[i], last)
    ensures var idx' := Closed(core, idx, i, last);
      && Lined(core, idx', live[i := false], core[i], last - 1)
      && (forall j, k :: 0 <= j < |core| && 0 <= k < |core| && j != i && k != i ==>
            On(core, live, core[i], j) && On(core, live, core[i], k) ==>
              (idx'[j] < idx'[k] <==> idx[j] < idx[k]))
      && (forall j :: 0 <= j < |core| && core[j] != core[i] ==> idx'[j] == idx[j])
  {
    var c, idx', rest := core[i], Closed(core, idx, i, last), live[i := false];
    forall j | 0 <= j < |core| && On(core, rest, c, j)
      ensures On(core, live, c, j) && idx[j] != idx[i] && 0 <= idx'[j] <= last - 1
    {
      assert On(core, live, c, j) && On(core, live, c, i);
    }
    forall s | 0 <= s <= last - 1
      ensures Held(core, idx', rest, c, s)
    {
      var t := if s < idx[i] then s else s + 1;
      assert Held(core, idx, live, c, t);
      var j :| 0 <= j < |core| && On(core, live, c, j) && idx[j] == t;
      assert On(core, rest, c, j) && idx'[j] == s;
    }
    forall j, k | 0 <= j < k < |core| && On(core, rest, c, j) && On(core, rest, c, k)
      ensures idx'[j] != idx'[k]
    {
      assert On(core, live, c, j) && On(core, live, c, k);
    }
  }

  /** How many table entries of core c stand at position s. */
  function CountAt(core: seq<nat>, idx: seq<int>, c: nat, s: int): nat
    requires |core| == |idx|
    decreases |core|
  {
    if core == [] then 0
    else
      var n := |core| - 1;
      CountAt(core[..n], idx[..n], c, s) + if core[n] == c && idx[n] == s then 1 else 0
  }

  lemma CountNext(core: seq<nat>, idx: seq<int>, c: nat, s: int, j: nat)
    requires j < |core| == |idx|
    ensures CountAt(core[..0], idx[..0], c, s) == 0
    ensures CountAt(core[..j + 1], idx[..j + 1], c, s)
         == CountAt(core[..j], idx[..j], c, s) + if core[j] == c && idx[j] == s then 1 else 0
  {
    assert core[..j + 1][..j] == core[..j] && idx[..j + 1][..j] == idx[..j];
  }

  /** The count is the number of table entries. */
  lemma {:induction false} CountIsSize(core: seq<nat>, idx: seq<int>, c: nat, s: int)
    requires |core| == |idx|
    ensures CountAt(core, idx, c, s) == |set j | 0 <= j < |core| && core[j] == c && idx[j] == s|
    decreases |core|
  {
    var all := set j | 0 <= j < |core| && core[j] == c && idx[j] == s;
    if core != [] {
      var n := |core| - 1;
      CountIsSize(core[..n], idx[..n], c, s);
      var rest := set j | 0 <= j < n && core[..n][j] == c && idx[..n][j] == s;
      if core[n] == c && idx[n] == s {
        assert all == rest + {n} && n !in rest;
      } else {
        assert all == rest;
      }
    }
  }

  class HwDb {
    const sem: array2<nat>
    const lastSemidx: array<int>
    const coreIdx: array<nat>
    const semIdx: array<int>
    const relinquished: array<bool>
    const relTstamp: array<int>
    const curTstamp: array<int>

    /** Semaphores start with one token each. */
    constructor (nofCores: nat)
      ensures Shape() && sem.Length0 == nofCores
      ensures fresh(sem) && fresh(lastSemidx) && fresh(coreIdx) && fresh(semIdx)
      ensures fresh(relinquished) && fresh(relTstamp) && fresh(curTstamp)
      ensures forall c, s :: 0 <= c < nofCores && 0 <= s < MAX_PROCS ==> sem[c, s] == 1
    {
      sem := new nat[nofCores, MAX_PROCS]((_, _) => 1);
      lastSemidx := new int[nofCores](_ => 0);
      coreIdx := new nat[MAX_PROCS](_ => 0);
      semIdx := new int[MAX_PROCS](_ => 0);
      relinquished := new bool[MAX_PROCS](_ => false);
      relTstamp := new int[MAX_PROCS](_ => 0);
      curTstamp := new int[MAX_PROCS](_ => 0);
    }

    ghost predicate Shape() {
      && sem.Length1 == MAX_PROCS && lastSemidx.Length == sem.Length0
      && coreIdx.Length == semIdx.Length == relinquished.Length == relTstamp.Length == curTstamp.Length == MAX_PROCS
      && semIdx != lastSemidx && semIdx != relTstamp && semIdx != curTstamp && relTstamp != curTstamp
    }

    /** The semaphores of core c. */
    ghost function Row(c: nat): (row: seq<nat>)
      requires Shape() && c < sem.Length0
      reads sem
      ensures |row| == MAX_PROCS && forall s :: 0 <= s < MAX_PROCS ==> row[s] == sem[c, s]
    {
      seq(MAX_PROCS, s requires 0 <= s < MAX_PROCS reads sem => sem[c, s])
    }

    /** A new time slot: one token for the first object of every core. */
    method PostObjects()
      requires Shape()
      modifies sem
      ensures forall c :: 0 <= c < sem.Length0 ==> Row(c) == AddToken(old(Row(c)), 0)
    {
      for i := 0 to sem.Length0
        invariant forall c, s :: 0 <= c < sem.Length0 && 0 <= s < MAX_PROCS ==>
          sem[c, s] == old(sem[c, s]) + if s == 0 && c < i then 1 else 0
      {
        sem[i, 0] := sem[i, 0] + 1;
      }
      forall c | 0 <= c < sem.Length0
        ensures Row(c) == AddToken(old(Row(c)), 0)
      {
      }
    }

    ghost predicate Seated(me: nat)
      requires Shape()
      reads coreIdx, semIdx
    {
      me < MAX_PROCS && coreIdx[me] < sem.Length0 && 0 <= semIdx[me] && semIdx[me] + 1 < MAX_PROCS
    }

    /** hwapi_relinquish up to the wait: note the time and hand the core to the successor. */
    method RelinquishPost(me: nat, tstamp: int)
      requires Shape() && Seated(me)
      modifies sem, relinquished, relTstamp
      ensures relinquished[..] == old(relinquished[..])[me := true]
      ensures relTstamp[..] == old(relTstamp[..])[me := tstamp]
      ensures forall c :: 0 <= c < sem.Length0 ==>
        Row(c) == if c == coreIdx[me] then AddToken(old(Row(c)), semIdx[me] + 1) else old(Row(c))
    {
      relTstamp[me] := tstamp;
      relinquished[me] := true;
      sem[coreIdx[me], semIdx[me] + 1] := sem[coreIdx[me], semIdx[me] + 1] + 1;
      forall c | 0 <= c < sem.Length0
        ensures Row(c) == if c == coreIdx[me] then AddToken(old(Row(c)), semIdx[me] + 1) else old(Row(c))
      {
      }
    }

    /** The wait of hwapi_relinquish when a token is there: the object's next time slot. */
    method RelinquishWake(me: nat)
      requires Shape() && Seated(me) && sem[coreIdx[me], semIdx[me]] > 0
      modifies sem, relinquished, curTstamp
      ensures relinquished[..] == old(relinquished[..])[me := false]
      ensures curTstamp[..] == old(curTstamp[..])[me := relTstamp[me] + 1]
      ensures forall c :: 0 <= c < sem.Length0 ==>
        Row(c) == if c == coreIdx[me] then TakeToken(old(Row(c)), semIdx[me]) else old(Row(c))
    {
      sem[coreIdx[me], semIdx[me]] := sem[coreIdx[me], semIdx[me]] - 1;
      relinquished[me] := false;
      curTstamp[me] := relTstamp[me] + 1;
      forall c | 0 <= c < sem.Length0
        ensures Row(c) == if c == coreIdx[me] then TakeToken(old(Row(c)), semIdx[me]) else old(Row(c))
      {
      }
    }

    /** remove_process: close the gap of process i, one position after the other, posting the
        semaphore of everybody who moves. */
    method RemoveProcess(i: nat)
      requires Shape() && i < MAX_PROCS && coreIdx[i] < sem.Length0
      requires 0 <= semIdx[i] && lastSemidx[coreIdx[i]] < MAX_PROCS
      modifies sem, semIdx, lastSemidx
      ensures semIdx[..] == Closed(coreIdx[..], old(semIdx[..]), i, old(lastSemidx[coreIdx[i]]))
      ensures lastSemidx[..] == old(lastSemidx[..])[coreIdx[i] := old(lastSemidx[coreIdx[i]]) - 1]
      ensures forall c, s :: 0 <= c < sem.Length0 && 0 <= s < MAX_PROCS ==>
        sem[c, s] == old(sem[c, s])
          + if c == coreIdx[i] && old(semIdx[i]) < s <= old(lastSemidx[coreIdx[i]])
            then CountAt(coreIdx[..], old(semIdx[..]), c, s) else 0
      ensures forall c, s :: 0 <= c < sem.Length0 && 0 <= s < MAX_PROCS ==>
        sem[c, s] == old(sem[c, s])
          + if c == coreIdx[i] && old(semIdx[i]) < s <= old(lastSemidx[coreIdx[i]])
            then |set j | 0 <= j < MAX_PROCS && coreIdx[..][j] == c && old(semIdx[..])[j] == s| else 0
    {
      ghost var core, idx0, p, last := coreIdx[..], semIdx[..], semIdx[i], lastSemidx[coreIdx[i]];
      var sem_i := semIdx[i] + 1;
      while sem_i <= lastSemidx[coreIdx[i]]
        invariant p + 1 <= sem_i && (sem_i <= last + 1 || sem_i == p + 1)
        invariant lastSemidx[..] == old(lastSemidx[..])
        invariant semIdx[..] == Closed(core, idx0, i, sem_i - 1)
        invariant forall c, s :: 0 <= c < sem.Length0 && 0 <= s < MAX_PROCS ==>
          sem[c, s] == old(sem[c, s]) + if c == core[i] && p < s < sem_i then CountAt(core, idx0, c, s) else 0
        decreases last - sem_i
      {
        MoveUp(i, sem_i, idx0);
        sem_i := sem_i + 1;
      }
      assert Closed(core, idx0, i, sem_i - 1) == Closed(core, idx0, i, last);
      forall c, s | 0 <= c < sem.Length0 && 0 <= s < MAX_PROCS
        ensures CountAt(core, idx0, c, s) == |set j | 0 <= j < MAX_PROCS && core[j] == c && idx0[j] == s|
      {
        CountIsSize(core, idx0, c, s);
      }
      lastSemidx[coreIdx[i]] := lastSemidx[coreIdx[i]] - 1;
    }

    /** The inner loop: everybody at position sem_i moves up. */
    method MoveUp(i: nat, sem_i: int, ghost idx0: seq<int>)
      requires Shape() && i < MAX_PROCS && coreIdx[i] < sem.Length0 && |idx0| == MAX_PROCS
      requires 0 <= idx0[i] < sem_i < MAX_PROCS && semIdx[..] == Closed(coreIdx[..], idx0, i, sem_i - 1)
      modifies sem, semIdx
      ensures semIdx[..] == Closed(coreIdx[..], idx0, i, sem_i)
      ensures forall c, s :: 0 <= c < sem.Length0 && 0 <= s < MAX_PROCS ==>
        sem[c, s] == old(sem[c, s])
          + if c == coreIdx[i] && s == sem_i then CountAt(coreIdx[..], idx0, c, s) else 0
    {
      hide CountAt;
      ghost var core := coreIdx[..];
      CountNext(core, idx0, core[i], sem_i, 0);
      for j := 0 to MAX_PROCS
        invariant forall x :: 0 <= x < MAX_PROCS ==>
          semIdx[x] == Closed(core, idx0, i, if x < j then sem_i else sem_i - 1)[x]
        invariant forall c, s :: 0 <= c < sem.Length0 && 0 <= s < MAX_PROCS ==>
          sem[c, s] == old(sem[c, s])
            + if c == core[i] && s == sem_i then CountAt(core[..j], idx0[..j], core[i], sem_i) else 0
      {
        CountNext(core, idx0, core[i], sem_i, j);
        if coreIdx[j] == coreIdx[i] && semIdx[j] == sem_i {
          semIdx[j] := semIdx[j] - 1;
          sem[coreIdx[i], sem_i] := sem[coreIdx[i], sem_i] + 1;
        }
      }
      assert core[..MAX_PROCS] == core && idx0[..MAX_PROCS] == idx0;
    }
  }

  // ----- The table follows the counting model -----

  /** The chain of one core in the table: objs[k] is the process at position k, waiting while it has
      relinquished, and the first semaphores of the core are those of the chain. */
  ghost predicate Matches(db: HwDb, core: nat, objs: seq<nat>, c: Chain)
    reads db.sem, db.coreIdx, db.semIdx, db.relinquished
  {
    && db.Shape() && core < db.sem.Length0 && |objs| < MAX_PROCS
    && TokenChain.Shape(c, |objs|)
    && (forall k :: 0 <= k < |objs| ==> AtPosition(db, core, objs[k], k))
    && (forall k :: 0 <= k < |objs| ==> c.waiting[k] == db.relinquished[objs[k]])
    && c.sem == db.Row(core)[..|objs| + 1]
  }

  ghost predicate AtPosition(db: HwDb, core: nat, me: nat, k: nat)
    requires db.Shape()
    reads db.coreIdx, db.semIdx
  {
    me < MAX_PROCS && db.coreIdx[me] == core && db.semIdx[me] == k
  }

  /** Fresh semaphores and running objects are the start of the chain. */
  lemma StartMatches(db: HwDb, core: nat, objs: seq<nat>)
    requires db.Shape() && core < db.sem.Length0 && |objs| < MAX_PROCS
    requires forall k :: 0 <= k < |objs| ==> AtPosition(db, core, objs[k], k) && !db.relinquished[objs[k]]
    requires forall s :: 0 <= s < MAX_PROCS ==> db.sem[core, s] == 1
    ensures Matches(db, core, objs, Started(|objs|))
  {
  }

  method TickStep(db: HwDb, core: nat, objs: seq<nat>, ghost c: Chain) returns (ghost d: Chain)
    requires Matches(db, core, objs, c)
    modifies db.sem
    ensures Enabled(c, |objs|, Tick) && d == Step(c, |objs|, Tick) && Matches(db, core, objs, d)
  {
    d := Step(c, |objs|, Tick);
    db.PostObjects();
  }

  /** hwapi_relinquish by the object at position k, up to the wait. */
  method PostStep(db: HwDb, core: nat, objs: seq<nat>, k: nat, tstamp: int, ghost c: Chain) returns (ghost d: Chain)
    requires Matches(db, core, objs, c) && k < |objs| && Enabled(c, |objs|, Post(k))
    modifies db.sem, db.relinquished, db.relTstamp
    ensures d == Step(c, |objs|, Post(k)) && Matches(db, core, objs, d)
  {
    d := Step(c, |objs|, Post(k));
    assert AtPosition(db, core, objs[k], k);
    db.RelinquishPost(objs[k], tstamp);
    forall i | 0 <= i < |objs|
      ensures AtPosition(db, core, objs[i], i) && d.waiting[i] == db.relinquished[objs[i]]
    {
      assert old(AtPosition(db, core, objs[i], i));
    }
  }

  /** The wait of the object at position k passes with a token, and the chain lets it wake up then. */
  method WakeStep(db: HwDb, core: nat, objs: seq<nat>, k: nat, ghost c: Chain) returns (ghost d: Chain)
    requires Matches(db, core, objs, c) && k < |objs| && db.relinquished[objs[k]] && db.sem[core, k] > 0
    modifies db.sem, db.relinquished, db.curTstamp
    ensures Enabled(c, |objs|, Wake(k)) && d == Step(c, |objs|, Wake(k)) && Matches(db, core, objs, d)
  {
    assert AtPosition(db, core, objs[k], k);
    assert c.sem[k] == db.Row(core)[k];
    d := Step(c, |objs|, Wake(k));
    db.RelinquishWake(objs[k]);
    forall i | 0 <= i < |objs|
      ensures AtPosition(db, core, objs[i], i) && d.waiting[i] == db.relinquished[objs[i]]
    {
      assert old(AtPosition(db, core, objs[i], i));
    }
  }
}
