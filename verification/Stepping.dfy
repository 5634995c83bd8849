/** Status() of phal_services.c on top of the handshake: running an object one step at a time. */
module Stepping {
  import opened Handshake

  const INIT: int := 2
  const RUN: int := 3
  const PAUSE: int := 4
  const STEP: int := 5
  const STOP: int := 6
  const ABNSTOP: int := 7

  /** Where the object is inside Status(); each place runs one operation on the shared record.
      `Asking` holds the clock value read before the semaphore is taken. */
  datatype Place =
    Polling | Counting | Committing | Acking | ReadingClock | Asking(t: int) | Closing | Returning | Stopped

  /** The shared record, the clock, the object's place, its time stamp and what Status() returned. */
  datatype Object = Object(s: Status, now: int, at: Place, tstamp: int, returned: seq<int>)

  datatype Move = Own(initDone: bool) | DaemonAck | Clock(now: int)

  /** The next operation of the object. While the status gives it nothing to do it relinquishes
      and polls again; after RUN it executes and calls Status() again. */
  function OwnMove(o: Object, initDone: bool): Object {
    match o.at
    case Polling =>
      var (s, r) := Get(o.s, o.now);
      var p := o.(s := s);
      if r == RUN then p.(tstamp := o.tstamp + 1, returned := o.returned + [RUN])
      else if r == INIT && !initDone then p.(returned := o.returned + [INIT])
      else if r == STOP || r == ABNSTOP then p.(at := Stopped, returned := o.returned + [STOP])
      else if r == STEP then p.(at := Counting)
      else p
    case Counting => o.(tstamp := o.tstamp + 1, at := Committing)
    case Committing => o.(s := Get(o.s, o.now).0, at := Acking)
    case Acking => o.(s := Ack(o.s).0, at := ReadingClock)
    case ReadingClock => o.(at := Asking(o.now))
    case Asking(t) => o.(s := New(o.s, PAUSE, t).0, at := Closing)
    case Closing => o.(s := Get(o.s, o.now).0, at := Returning)
    case Returning => o.(at := Polling, returned := o.returned + [RUN])
    case Stopped => o
  }

  function Next(o: Object, m: Move): Object {
    match m
    case Own(initDone) => OwnMove(o, initDone)
    case DaemonAck => o.(s := Ack(o.s).0)
    case Clock(now) => o.(now := now)
  }

  function Moves(o: Object, ms: seq<Move>): Object
    decreases |ms|
  {
    if ms == [] then o else Next(Moves(o, ms[..|ms| - 1]), ms[|ms| - 1])
  }

  // ----- Answers in a settled status -----

  /** One poll, from any record: the status is the next one when it is due or noticed, else the current one. RUN
      counts a time stamp and is answered; INIT is answered until initialization is done; both STOP statuses are
      answered STOP and end the object; STEP starts the stepping; anything else is polled again. */
  lemma PollAnswer(o: Object, initDone: bool)
    requires o.at.Polling?
    ensures var r := if o.s.next != o.s.cur && (o.s.progress >= 2 || o.now >= o.s.tstamp) then o.s.next else o.s.cur;
      var p := OwnMove(o, initDone);
      && (r == 3 ==> p.at.Polling? && p.tstamp == o.tstamp + 1 && p.returned == o.returned + [3])
      && (r == 2 ==> p.at.Polling? && p.tstamp == o.tstamp && p.returned == o.returned + if initDone then [] else [2])
      && (r == 6 || r == 7 ==> p.at.Stopped? && p.tstamp == o.tstamp && p.returned == o.returned + [6])
      && (r == 5 ==> p.at.Counting? && p.tstamp == o.tstamp && p.returned == o.returned)
      && (r != 2 && r != 3 && r != 5 && r != 6 && r != 7 ==>
            p.at.Polling? && p.tstamp == o.tstamp && p.returned == o.returned)
  {
  }

  /** The object's own operations, and those of them made before initialization is done. */
  function OwnMoves(ms: seq<Move>): nat
    decreases |ms|
  {
    if ms == [] then 0 else OwnMoves(ms[..|ms| - 1]) + if ms[|ms| - 1].Own? then 1 else 0
  }

  function EarlyMoves(ms: seq<Move>): nat
    decreases |ms|
  {
    if ms == [] then 0
    else EarlyMoves(ms[..|ms| - 1]) + if ms[|ms| - 1].Own? && !ms[|ms| - 1].initDone then 1 else 0
  }

  ghost predicate AllAre(returned: seq<int>, status: int) {
    forall i :: 0 <= i < |returned| ==> returned[i] == status
  }

  /** Over all runs of an object whose record shows one status and no other request, however acknowledgements and
      clock changes fall: in RUN every operation answers RUN and counts one time stamp; in INIT the answer is INIT
      as often as initialization is not done; STOP and ABNSTOP are answered by one STOP; no other status but STEP
      answers anything; and only RUN counts. */
  lemma {:induction false} AnswersInStatus(status: int, stamp: int, progress: int, now: int, tstamp: int,
                                           ms: seq<Move>)
    requires status != STEP
    ensures var o := Moves(Object(Status(status, status, stamp, progress), now, Polling, tstamp, []), ms);
      && (status == RUN ==>
            AllAre(o.returned, RUN) && |o.returned| == OwnMoves(ms) && o.tstamp == tstamp + |o.returned|)
      && (status == INIT ==> AllAre(o.returned, INIT) && |o.returned| == EarlyMoves(ms))
      && (status == STOP || status == ABNSTOP ==> o.returned == if OwnMoves(ms) == 0 then [] else [STOP])
      && (status != RUN && status != INIT && status != STOP && status != ABNSTOP ==> o.returned == [])
      && (status != RUN ==> o.tstamp == tstamp)
      && o.s.cur == o.s.next == status
      && (o.at.Polling? || (o.at.Stopped? && (status == STOP || status == ABNSTOP)))
      && ((status == STOP || status == ABNSTOP) ==> (o.at.Polling? <==> OwnMoves(ms) == 0))
    decreases |ms|
  {
    if ms != [] {
      AnswersInStatus(status, stamp, progress, now, tstamp, ms[..|ms| - 1]);
    }
  }

  // ----- One step -----

  /** The clock never reads less than the number -1 that marks a forced request. */
  ghost predicate ClockSane(ms: seq<Move>) {
    forall i :: 0 <= i < |ms| && ms[i].Clock? ==> ms[i].now > FORCED
  }

  /** The object polls while its own PAUSE request, made in the STEP branch, is not due yet. */
  predicate Relapse(o: Object, m: Move) {
    m.Own? && o.at.Polling? && o.s.cur == STEP && o.s.next == PAUSE && o.s.progress == 1 && o.now < o.s.tstamp
  }

  ghost predicate Steady(o: Object, ms: seq<Move>)
    decreases |ms|
  {
    ms == [] || (Steady(o, ms[..|ms| - 1]) && !Relapse(Moves(o, ms[..|ms| - 1]), ms[|ms| - 1]))
  }

  ghost predicate ClockForward(o: Object, ms: seq<Move>)
    decreases |ms|
  {
    ms == [] ||
    (ClockForward(o, ms[..|ms| - 1])
     && (ms[|ms| - 1].Clock? ==> ms[|ms| - 1].now >= Moves(o, ms[..|ms| - 1]).now))
  }

  /** A paused object whose STEP request has just been accepted. */
  function StepAccepted(due: int, now: int, tstamp: int): Object {
    Object(New(Status(PAUSE, PAUSE, now, 0), STEP, due).0, now, Polling, tstamp, [])
  }

  /** Operations of the object left until the record is back in PAUSE. */
  function Remaining(o: Object): nat {
    match o.at
    case Polling => if o.s.next == STEP then 10 else if o.s.cur == PAUSE then 0 else if o.s.progress == 2 then 1 else 2
    case Counting => 9
    case Committing => 8
    case Acking => 7
    case ReadingClock => 6
    case Asking(_) => 5
    case Closing => 4
    case Returning => 3
    case Stopped => 0
  }

  /** Time stamps counted, with the one the object is about to count. */
  function Counted(o: Object): int {
    o.tstamp + if o.at.Counting? then 1 else 0
  }

  ghost predicate StepInv(o: Object, due: int, tstamp: int) {
    o.now > FORCED &&
    match o.at
    case Polling =>
      if o.s.cur == PAUSE && o.s.next == STEP then
        o.s.progress == 1 && o.s.tstamp == due && o.tstamp == tstamp && o.returned == []
      else
        && o.s.next == PAUSE && (o.s.cur == STEP || o.s.cur == PAUSE)
        && (o.s.cur == STEP ==> o.s.progress == 1 || o.s.progress == 2)
        && (o.s.cur == PAUSE ==> o.s.progress == 2 || o.s.progress == 0)
        && o.tstamp == tstamp + 1 && o.returned == [RUN]
    case Counting =>
      o.s.cur == PAUSE && o.s.next == STEP && o.s.progress == 2 && o.tstamp == tstamp && o.returned == []
    case Committing =>
      o.s.cur == PAUSE && o.s.next == STEP && o.s.progress == 2 && o.tstamp == tstamp + 1 && o.returned == []
    case Acking =>
      && o.s.cur == STEP == o.s.next && (o.s.progress == 2 || o.s.progress == 0)
      && o.tstamp == tstamp + 1 && o.returned == []
    case ReadingClock =>
      o.s.cur == STEP == o.s.next && o.s.progress == 0 && o.tstamp == tstamp + 1 && o.returned == []
    case Asking(t) =>
      && o.s.cur == STEP == o.s.next && o.s.progress == 0 && t > FORCED
      && o.tstamp == tstamp + 1 && o.returned == []
    case Closing =>
      o.s.cur == STEP && o.s.next == PAUSE && o.s.progress == 1 && o.tstamp == tstamp + 1 && o.returned == []
    case Returning =>
      && o.s.cur == STEP && o.s.next == PAUSE && (o.s.progress == 1 || o.s.progress == 2)
      && o.tstamp == tstamp + 1 && o.returned == []
    case Stopped => false
  }

  lemma MoveKeepsStepInv(o: Object, m: Move, due: int, tstamp: int)
    requires StepInv(o, due, tstamp) && (m.Clock? ==> m.now > FORCED)
    ensures if Relapse(o, m) then Counted(Next(o, m)) == tstamp + 2 else StepInv(Next(o, m), due, tstamp)
    ensures !m.Own? ==> Remaining(Next(o, m)) <= Remaining(o)
    ensures m.Own? && (o.at.Polling? ==> o.now >= o.s.tstamp) && Remaining(o) > 0 ==>
      Remaining(Next(o, m)) < Remaining(o)
  {
  }

  /** Time stamps are never taken back. */
  lemma CountedGrows(o: Object, m: Move)
    ensures Counted(Next(o, m)) >= Counted(o)
  {
  }

  lemma {:induction false} SteadyIffCountedOnce(due: int, now: int, tstamp: int, ms: seq<Move>)
    requires due != FORCED && now > FORCED && ClockSane(ms)
    ensures var o := Moves(StepAccepted(due, now, tstamp), ms);
      if Steady(StepAccepted(due, now, tstamp), ms) then StepInv(o, due, tstamp) else Counted(o) >= tstamp + 2
    decreases |ms|
  {
    hide OwnMove, StepInv;
    var o := StepAccepted(due, now, tstamp);
    if ms == [] {
      StartsInStep(due, now, tstamp);
    } else {
      var before, m := Moves(o, ms[..|ms| - 1]), ms[|ms| - 1];
      SteadyIffCountedOnce(due, now, tstamp, ms[..|ms| - 1]);
      CountedGrows(before, m);
      if Steady(o, ms[..|ms| - 1]) {
        MoveKeepsStepInv(before, m, due, tstamp);
      }
    }
  }

  lemma StartsInStep(due: int, now: int, tstamp: int)
    requires due != FORCED && now > FORCED
    ensures StepInv(StepAccepted(due, now, tstamp), due, tstamp)
  {
  }

  /** However the daemon's acknowledgements and the clock fall: an accepted STEP counts at most one
      time stamp exactly when the object never polls before its PAUSE request is due. Then Status()
      returns RUN at most once, and exactly once by the time the record is back in PAUSE. */
  lemma StepRunsOnceIff(due: int, now: int, tstamp: int, ms: seq<Move>)
    requires due != FORCED && now > FORCED && ClockSane(ms)
    ensures var o := Moves(StepAccepted(due, now, tstamp), ms);
      && (Steady(StepAccepted(due, now, tstamp), ms) <==> Counted(o) <= tstamp + 1)
      && (Steady(StepAccepted(due, now, tstamp), ms) ==>
            && (o.returned == [] || o.returned == [RUN])
            && tstamp + |o.returned| <= o.tstamp <= tstamp + 1
            && (o.s.cur == o.s.next == PAUSE ==> o.returned == [RUN] && o.tstamp == tstamp + 1)
            && (Remaining(o) == 0 <==> o.s.cur == o.s.next == PAUSE))
  {
    SteadyIffCountedOnce(due, now, tstamp, ms);
  }

  /** Once the STEP request is due, every operation of the object brings it closer to PAUSE, and
      nobody else's takes it further away. */
  lemma StepAdvances(due: int, now: int, tstamp: int, ms: seq<Move>, m: Move)
    requires due != FORCED && now > FORCED && ClockSane(ms + [m])
    requires Steady(StepAccepted(due, now, tstamp), ms)
    ensures var o := Moves(StepAccepted(due, now, tstamp), ms);
      && Remaining(o) <= 10
      && (!m.Own? ==> Remaining(Next(o, m)) <= Remaining(o))
      && (m.Own? && (o.at.Polling? ==> o.now >= o.s.tstamp) && Remaining(o) > 0 ==>
            Remaining(Next(o, m)) < Remaining(o))
  {
    assert (ms + [m])[|ms|] == m && forall i :: 0 <= i < |ms| ==> (ms + [m])[i] == ms[i];
    SteadyIffCountedOnce(due, now, tstamp, ms);
    MoveKeepsStepInv(Moves(StepAccepted(due, now, tstamp), ms), m, due, tstamp);
  }

  /** Back in PAUSE, one acknowledgement makes the record free for the next request. */
  lemma PauseSettles(due: int, now: int, tstamp: int, ms: seq<Move>)
    requires due != FORCED && now > FORCED && ClockSane(ms) && Steady(StepAccepted(due, now, tstamp), ms)
    ensures var o := Moves(StepAccepted(due, now, tstamp), ms);
      o.s.cur == o.s.next == PAUSE ==> Next(o, DaemonAck).s.Free() && Next(o, DaemonAck).s.cur == 4
  {
    SteadyIffCountedOnce(due, now, tstamp, ms);
  }

  /** The PAUSE request carries a clock value already read. */
  ghost predicate PauseDue(o: Object) {
    && (o.at.Asking? ==> o.at.t <= o.now)
    && (o.s.cur == STEP && o.s.next == PAUSE ==> o.s.tstamp <= o.now)
  }

  lemma MoveKeepsPauseDue(o: Object, m: Move, due: int, tstamp: int)
    requires StepInv(o, due, tstamp) && PauseDue(o) && (m.Clock? ==> m.now >= o.now)
    ensures PauseDue(Next(o, m)) && !Relapse(o, m) && StepInv(Next(o, m), due, tstamp)
  {
  }

  /** A clock that never goes back is enough. */
  lemma {:induction false} ForwardIsSteady(due: int, now: int, tstamp: int, ms: seq<Move>)
    requires due != FORCED && now > FORCED && ClockForward(StepAccepted(due, now, tstamp), ms)
    ensures Steady(StepAccepted(due, now, tstamp), ms)
    ensures var o := Moves(StepAccepted(due, now, tstamp), ms); PauseDue(o) && StepInv(o, due, tstamp)
    decreases |ms|
  {
    hide OwnMove, StepInv, PauseDue;
    var o := StepAccepted(due, now, tstamp);
    if ms == [] {
      StartsInStep(due, now, tstamp);
      assert PauseDue(o) by { StartIsDue(due, now, tstamp); }
    } else {
      ForwardIsSteady(due, now, tstamp, ms[..|ms| - 1]);
      MoveKeepsPauseDue(Moves(o, ms[..|ms| - 1]), ms[|ms| - 1], due, tstamp);
    }
  }

  lemma StartIsDue(due: int, now: int, tstamp: int)
    requires due != FORCED
    ensures PauseDue(StepAccepted(due, now, tstamp))
  {
  }

  lemma {:induction false} MovesConcat(o: Object, a: seq<Move>, b: seq<Move>)
    ensures Moves(o, a + b) == Moves(Moves(o, a), b)
    decreases |b|
  {
    if b == [] {
      assert a + b == a;
    } else {
      MovesConcat(o, a, b[..|b| - 1]);
      assert (a + b)[..|a + b| - 1] == a + b[..|b| - 1];
    }
  }

  function Alone(o: Object, n: nat): Object
    decreases n
  {
    if n == 0 then o else Alone(OwnMove(o, true), n - 1)
  }

  lemma {:induction false} MovesAlone(o: Object, n: nat)
    ensures Moves(o, seq(n, _ => Own(true))) == Alone(o, n)
    decreases n
  {
    var all := seq(n, _ => Own(true));
    if n > 0 {
      var rest := seq(n - 1, _ => Own(true));
      assert all == [Own(true)] + rest;
      MovesConcat(o, [Own(true)], rest);
      assert Moves(o, [Own(true)]) == Next(Moves(o, [Own(true)][..0]), Own(true));
      MovesAlone(OwnMove(o, true), n - 1);
    }
  }

  /** A clock that drops behind the stamp of the object's own PAUSE request does make it run twice. */
  lemma ClockBackRunsTwice() returns (ms: seq<Move>)
    ensures Moves(StepAccepted(5, 5, 0), ms).returned == [RUN, RUN]
  {
    hide Moves, Alone;
    BeforeClosing();
    AfterClosing();
    ms := AloneClockAlone(StepAccepted(5, 5, 0), 6, Object(Status(STEP, PAUSE, 5, 1), 5, Closing, 1, []), 4, 10);
  }

  lemma BeforeClosing()
    ensures Alone(StepAccepted(5, 5, 0), 6) == Object(Status(STEP, PAUSE, 5, 1), 5, Closing, 1, [])
  {
  }

  lemma AfterClosing()
    ensures Alone(Object(Status(STEP, PAUSE, 5, 1), 4, Closing, 1, []), 10).returned == [RUN, RUN]
  {
  }

  lemma AloneClockAlone(o: Object, i: nat, p: Object, now: int, j: nat) returns (ms: seq<Move>)
    requires Alone(o, i) == p
    ensures Moves(o, ms) == Alone(p.(now := now), j)
  {
    hide OwnMove, Alone;
    var before, after := seq(i, _ => Own(true)), seq(j, _ => Own(true));
    ms := before + [Clock(now)] + after;
    MovesAlone(o, i);
    assert (before + [Clock(now)])[..i] == before;
    MovesConcat(o, before + [Clock(now)], after);
    MovesAlone(p.(now := now), j);
  }
}
