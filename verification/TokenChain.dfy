/** The scheduling semaphores of one core: each time slot posts the first object, and an object
    that relinquishes posts its successor before it waits for its own turn. */
module TokenChain {

  /** n objects in a line with n + 1 semaphores; the last one has no reader. Counted for each
      object: how often it posted its successor and how often it was woken. */
  datatype Chain = Chain(sem: seq<nat>, waiting: seq<bool>, posted: seq<nat>, woken: seq<nat>, ticks: nat)

  datatype Event = Tick | Post(k: nat) | Wake(k: nat)

  ghost predicate Shape(c: Chain, n: nat) {
    |c.sem| == n + 1 && |c.waiting| == |c.posted| == |c.woken| == n
  }

  /** Semaphores are created with one token and objects start running. */
  function Started(n: nat): Chain {
    Chain(seq(n + 1, _ => 1), seq(n, _ => false), seq(n, _ => 0), seq(n, _ => 0), 0)
  }

  predicate Enabled(c: Chain, n: nat, e: Event)
    requires Shape(c, n)
  {
    match e
    case Tick => true
    case Post(k) => k < n && !c.waiting[k]
    case Wake(k) => k < n && c.waiting[k] && c.sem[k] > 0
  }

  /** sem_post and the passing of sem_wait on semaphore k of a core. */
  function AddToken(sem: seq<nat>, k: nat): seq<nat>
    requires k < |sem|
  {
    sem[k := sem[k] + 1]
  }

  function TakeToken(sem: seq<nat>, k: nat): seq<nat>
    requires k < |sem| && sem[k] > 0
  {
    sem[k := sem[k] - 1]
  }

  function Step(c: Chain, n: nat, e: Event): (d: Chain)
    requires Shape(c, n) && Enabled(c, n, e)
    ensures Shape(d, n)
  {
    match e
    case Tick => c.(sem := AddToken(c.sem, 0), ticks := c.ticks + 1)
    case Post(k) =>
      c.(sem := AddToken(c.sem, k + 1), waiting := c.waiting[k := true], posted := c.posted[k := c.posted[k] + 1])
    case Wake(k) =>
      c.(sem := TakeToken(c.sem, k), waiting := c.waiting[k := false], woken := c.woken[k := c.woken[k] + 1])
  }

  /** c is reached from the start by some interleaving. */
  ghost predicate Reached(c: Chain, n: nat, es: seq<Event>)
    decreases |es|
  {
    if es == [] then c == Started(n)
    else exists b :: Reached(b, n, es[..|es| - 1]) && Shape(b, n)
                     && Enabled(b, n, es[|es| - 1]) && c == Step(b, n, es[|es| - 1])
  }

  /** Tokens posted to semaphore k so far. */
  function Tokens(c: Chain, n: nat, k: nat): nat
    requires Shape(c, n) && k <= n
  {
    if k == 0 then c.ticks else c.posted[k - 1]
  }

  /** Tokens of semaphore k are either still there or were used for a wake-up. */
  ghost predicate Balanced(c: Chain, n: nat, k: nat)
    requires Shape(c, n)
  {
    k < n ==>
      && c.posted[k] == c.woken[k] + (if c.waiting[k] then 1 else 0)
      && c.sem[k] + c.woken[k] == 1 + Tokens(c, n, k)
  }

  ghost predicate Inv(c: Chain, n: nat) {
    && Shape(c, n)
    && (forall k: nat :: Balanced(c, n, k))
    && c.sem[n] == 1 + Tokens(c, n, n)
  }

  lemma StepKeepsInv(c: Chain, n: nat, e: Event)
    requires Inv(c, n) && Enabled(c, n, e)
    ensures Inv(Step(c, n, e), n)
  {
    var d := Step(c, n, e);
    forall k: nat
      ensures Balanced(d, n, k)
    {
      assert Balanced(c, n, k);
    }
    if e.Post? {
      assert Balanced(c, n, e.k);
    }
  }

  lemma {:induction false} ReachedKeepsInv(c: Chain, n: nat, es: seq<Event>)
    requires Reached(c, n, es)
    ensures Inv(c, n)
    decreases |es|
  {
    if es != [] {
      var b :| Reached(b, n, es[..|es| - 1]) && Shape(b, n)
               && Enabled(b, n, es[|es| - 1]) && c == Step(b, n, es[|es| - 1]);
      ReachedKeepsInv(b, n, es[..|es| - 1]);
      StepKeepsInv(b, n, es[|es| - 1]);
    }
  }

  lemma {:induction false} WakeUpBound(c: Chain, n: nat, k: nat)
    requires Inv(c, n) && k < n
    ensures c.woken[k] <= c.ticks + 1 + 2 * k
  {
    assert Balanced(c, n, k);
    if k > 0 {
      assert Balanced(c, n, k - 1);
      WakeUpBound(c, n, k - 1);
    }
  }

  /** Nobody overtakes: an object is woken at most once more than its predecessor relinquished,
      so at most ticks + 1 + 2k times. */
  lemma NoOvertaking(c: Chain, n: nat, es: seq<Event>, k: nat)
    requires Reached(c, n, es) && k < n
    ensures Shape(c, n) && c.woken[k] <= 1 + Tokens(c, n, k)
    ensures c.woken[k] <= c.ticks + 1 + 2 * k
  {
    ReachedKeepsInv(c, n, es);
    WakeUpBound(c, n, k);
    assert Balanced(c, n, k);
  }

  // ----- Quiescence -----

  /** Every object waits and has no token. */
  ghost predicate Blocked(c: Chain, n: nat) {
    Shape(c, n) && forall k :: 0 <= k < n ==> c.waiting[k] && c.sem[k] == 0
  }

  lemma {:induction false} BlockedCount(c: Chain, n: nat, k: nat)
    requires Inv(c, n) && Blocked(c, n) && k < n
    ensures c.woken[k] == c.ticks + 1 + 2 * k && c.posted[k] == c.woken[k] + 1
  {
    assert Balanced(c, n, k);
    if k > 0 {
      assert Balanced(c, n, k - 1);
      BlockedCount(c, n, k - 1);
    }
  }

  /** There is one quiescent state for each number of time slots. */
  lemma BlockedIsUnique(c: Chain, d: Chain, n: nat, es: seq<Event>, fs: seq<Event>)
    requires Reached(c, n, es) && Reached(d, n, fs)
    requires Blocked(c, n) && Blocked(d, n) && c.ticks == d.ticks
    ensures c == d
    ensures forall k :: 0 <= k < n ==> c.woken[k] == c.ticks + 1 + 2 * k
  {
    hide Inv, Balanced, Reached;
    ReachedKeepsInv(c, n, es);
    ReachedKeepsInv(d, n, fs);
    forall k | 0 <= k < n
      ensures c.woken[k] == d.woken[k] == c.ticks + 1 + 2 * k && c.posted[k] == d.posted[k]
    {
      BlockedCount(c, n, k);
      BlockedCount(d, n, k);
    }
    LastSemaphore(c, n);
    LastSemaphore(d, n);
    assert c.woken == d.woken && c.waiting == d.waiting && c.posted == d.posted;
    assert c.sem == d.sem;
  }

  lemma LastSemaphore(c: Chain, n: nat)
    requires Inv(c, n)
    ensures Shape(c, n) && c.sem[n] == 1 + Tokens(c, n, n)
  {
  }

  /** Operations the first m objects can still do before the next time slot. */
  ghost function Left(c: Chain, n: nat, m: nat): int
    requires Shape(c, n) && m <= n
  {
    if m == 0 then 0
    else Left(c, n, m - 1) + 2 * (c.ticks + 2 * m - 1) + 1 - c.woken[m - 1] - c.posted[m - 1]
  }

  lemma {:induction false} LeftIsNonNegative(c: Chain, n: nat, m: nat)
    requires Inv(c, n) && m <= n
    ensures Left(c, n, m) >= 0
  {
    if m > 0 {
      LeftIsNonNegative(c, n, m - 1);
      WakeUpBound(c, n, m - 1);
      assert Balanced(c, n, m - 1);
    }
  }

  lemma {:induction false} StepUsesOne(c: Chain, n: nat, e: Event, m: nat)
    requires Shape(c, n) && Enabled(c, n, e) && !e.Tick? && m <= n
    ensures Left(Step(c, n, e), n, m) == Left(c, n, m) - if e.k < m then 1 else 0
  {
    if m > 0 {
      StepUsesOne(c, n, e, m - 1);
    }
  }

  lemma BlockedIff(c: Chain, n: nat)
    requires Shape(c, n)
    ensures Blocked(c, n) <==> !exists e: Event :: !e.Tick? && Enabled(c, n, e)
  {
    if !Blocked(c, n) {
      var k :| 0 <= k < n && !(c.waiting[k] && c.sem[k] == 0);
      var e := if c.waiting[k] then Wake(k) else Post(k);
      assert !e.Tick? && Enabled(c, n, e);
    }
  }

  /** Without a new time slot every schedule settles: some operation is possible exactly while the
      chain is not blocked, and each one uses up one of finitely many. */
  lemma {:induction false} Settles(c: Chain, n: nat, es: seq<Event>)
    requires Reached(c, n, es)
    ensures Shape(c, n) && Left(c, n, n) >= 0
    ensures Blocked(c, n) <==> !exists e: Event :: !e.Tick? && Enabled(c, n, e)
    ensures forall e: Event :: !e.Tick? && Enabled(c, n, e) ==> Left(Step(c, n, e), n, n) == Left(c, n, n) - 1
  {
    hide Inv, Balanced, Left, Reached, Step, Blocked;
    ReachedKeepsInv(c, n, es);
    LastSemaphore(c, n);
    LeftIsNonNegative(c, n, n);
    BlockedIff(c, n);
    forall e: Event | !e.Tick? && Enabled(c, n, e)
      ensures Left(Step(c, n, e), n, n) == Left(c, n, n) - 1
    {
      StepUsesOne(c, n, e, n);
    }
  }

}
