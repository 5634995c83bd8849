/** The object status handshake between the manager (requests), the object (polls) and the EXEC
    daemon (acknowledges). Every operation runs whole under the status semaphore. */
module Handshake {

  const FORCED: int := -1

  datatype Status = Status(cur: int, next: int, tstamp: int, progress: int) {
    predicate Free() {
      progress == 0 && next == cur
    }
  }

  // ----- One operation -----

  /** hwapi_proc_status_get: the status to run now, and the record it leaves. */
  function Get(s: Status, now: int): (r: (Status, int)) {
    if s.next == s.cur then (s, s.cur)
    else if s.progress >= 2 then (s.(cur := s.next), s.next)
    else if now >= s.tstamp then (s.(progress := 2), s.next)
    else (s, s.cur)
  }

  /** hwapi_proc_status_new behind its lookup; a refused request returns 0. */
  function New(s: Status, status: int, tstamp: int): (r: (Status, int)) {
    if s.Free() || tstamp == FORCED then (Status(s.cur, status, tstamp, 1), status) else (s, 0)
  }

  /** hwapi_proc_status_ack behind its lookup. */
  function Ack(s: Status): (r: (Status, int)) {
    if s.cur == s.next && s.progress == 2 then (s.(progress := 0), 1) else (s, 0)
  }

  /** The shared process table: object ids and status records. */
  class ProcDb {
    const objIds: array<int>
    const status: array<Status>
    var maxProcId: nat

    constructor (n: nat)
      ensures Valid() && maxProcId == 0 && objIds.Length == n && fresh(objIds) && fresh(status)
    {
      objIds := new int[n];
      status := new Status[n];
      maxProcId := 0;
    }

    ghost predicate Valid()
      reads this
    {
      objIds.Length == status.Length && maxProcId <= objIds.Length
    }

    /** Entry i is the first one of the object. */
    ghost predicate IsEntry(i: nat, objId: int)
      requires Valid()
      reads this, objIds
    {
      i < maxProcId && objIds[i] == objId && forall j :: 0 <= j < i ==> objIds[j] != objId
    }

    ghost predicate Absent(objId: int)
      requires Valid()
      reads this, objIds
    {
      forall j :: 0 <= j < maxProcId ==> objIds[j] != objId
    }

    method Find(objId: int) returns (i: nat)
      requires Valid()
      ensures if i == maxProcId then Absent(objId) else IsEntry(i, objId)
    {
      i := 0;
      while i < maxProcId && objIds[i] != objId
        invariant i <= maxProcId
        invariant forall j :: 0 <= j < i ==> objIds[j] != objId
      {
        i := i + 1;
      }
    }

    method StatusGet(my: nat, now: int) returns (r: int)
      requires Valid() && my < status.Length
      modifies status
      ensures r == Get(old(status[my]), now).1
      ensures status[..] == old(status[..])[my := Get(old(status[my]), now).0]
      ensures var p := old(status[my]);
        && status[..] == old(status[..])[my := status[my]]
        && status[my].next == p.next && status[my].tstamp == p.tstamp
        && (p.next == p.cur ==> r == p.cur && status[my] == p)
        && (p.next != p.cur && p.progress >= 2 ==> r == p.next && status[my] == p.(cur := p.next))
        && (p.next != p.cur && p.progress < 2 && now >= p.tstamp ==> r == p.next && status[my] == p.(progress := 2))
        && (p.next != p.cur && p.progress < 2 && now < p.tstamp ==> r == p.cur && status[my] == p)
    {
      var p := status[my];
      r := p.cur;
      if p.next != p.cur {
        if p.progress < 2 {
          if now >= p.tstamp {
            status[my] := p.(progress := 2);
            r := p.next;
          }
        } else {
          status[my] := p.(cur := p.next);
          r := status[my].cur;
        }
      }
    }

    /** A zero time stamp means now; a terminating object answers itself. */
    method StatusNew(objId: int, nextStatus: int, nextTstamp: int, now: int, selfTerminating: bool) returns (r: int)
      requires Valid()
      modifies status
      ensures selfTerminating ==> r == 1 && status[..] == old(status[..])
      ensures !selfTerminating && Absent(objId) ==> r == -1 && status[..] == old(status[..])
      ensures !selfTerminating ==> forall i: nat :: IsEntry(i, objId) ==>
        var new_ := New(old(status[i]), nextStatus, if nextTstamp == 0 then now else nextTstamp);
        r == new_.1 && status[..] == old(status[..])[i := new_.0]
      ensures !selfTerminating ==> forall i: nat :: IsEntry(i, objId) ==>
        var p, stamp := old(status[i]), if nextTstamp == 0 then now else nextTstamp;
        if (p.progress == 0 && p.next == p.cur) || stamp == -1 then
          r == nextStatus && status[..] == old(status[..])[i := Status(p.cur, nextStatus, stamp, 1)]
        else
          r == 0 && status[..] == old(status[..])
    {
      if selfTerminating {
        return 1;
      }
      var tstamp := nextTstamp;
      if nextTstamp == 0 {
        tstamp := now;
      }
      var i := Find(objId);
      if i == maxProcId {
        return -1;
      }
      var p := status[i];
      if (p.progress == 0 && p.next == p.cur) || tstamp == -1 {
        status[i] := Status(p.cur, nextStatus, tstamp, 1);
        r := nextStatus;
      } else {
        r := 0;
      }
    }

    method StatusAck(objId: int) returns (r: int)
      requires Valid()
      modifies status
      ensures Absent(objId) ==> r == -1 && status[..] == old(status[..])
      ensures forall i: nat :: IsEntry(i, objId) ==>
        r == Ack(old(status[i])).1 && status[..] == old(status[..])[i := Ack(old(status[i])).0]
      ensures forall i: nat :: IsEntry(i, objId) ==>
        var p := old(status[i]);
        if p.cur == p.next && p.progress == 2 then
          r == 1 && status[..] == old(status[..])[i := Status(p.cur, p.next, p.tstamp, 0)]
        else
          r == 0 && status[..] == old(status[..])
    {
      var i := Find(objId);
      if i == maxProcId {
        return -1;
      }
      var p := status[i];
      if p.cur == p.next && p.progress == 2 {
        status[i] := p.(progress := 0);
        r := 1;
      } else {
        r := 0;
      }
    }
  }

  // ----- All interleavings -----

  datatype Request = Request(status: int, due: int)
  datatype Commit = Commit(status: int, due: int, when: int)

  /** One record with the clock and what an observer has noted: requests accepted, switches of
      cur_status, and acknowledgements. */
  datatype World = World(s: Status, now: int, accepted: seq<Request>, commits: seq<Commit>, acks: nat)

  datatype Event = Tick(now: int) | Poll | Ask(status: int, tstamp: int) | Confirm

  /** hwapi_proc_create: status 0, changing to 1 (started) as soon as possible. */
  function Created(now: int): World {
    World(Status(0, 1, now, 1), now, [Request(1, now)], [], 0)
  }

  function IsForced(e: Event): bool {
    e.Ask? && e.tstamp == FORCED
  }

  /** The clock never goes back and requests are not forced. */
  predicate Allowed(w: World, e: Event) {
    match e
    case Tick(now) => now >= w.now
    case Ask(_, tstamp) => tstamp != FORCED
    case _ => true
  }

  predicate Differs(w: World, e: Event) {
    e.Ask? ==> e.status != w.s.cur
  }

  function Step(w: World, e: Event): World {
    match e
    case Tick(now) => w.(now := now)
    case Poll =>
      var s := Get(w.s, w.now).0;
      w.(s := s, commits := if s.cur == w.s.cur then w.commits else w.commits + [Commit(s.cur, s.tstamp, w.now)])
    case Ask(status, tstamp) =>
      w.(s := New(w.s, status, tstamp).0,
         accepted := if w.s.Free() || tstamp == FORCED then w.accepted + [Request(status, tstamp)] else w.accepted)
    case Confirm =>
      var (s, r) := Ack(w.s);
      w.(s := s, acks := w.acks + r)
  }

  function Run(w: World, es: seq<Event>): World
    decreases |es|
  {
    if es == [] then w else Step(Run(w, es[..|es| - 1]), es[|es| - 1])
  }

  ghost predicate Runnable(w: World, es: seq<Event>)
    decreases |es|
  {
    es == [] ||
    var v := Run(w, es[..|es| - 1]);
    Runnable(w, es[..|es| - 1]) && Allowed(v, es[|es| - 1]) && Differs(v, es[|es| - 1])
  }

  function Requested(c: Commit): Request {
    Request(c.status, c.due)
  }

  function Requests(cs: seq<Commit>): (rs: seq<Request>)
    ensures |rs| == |cs|
  {
    seq(|cs|, i requires 0 <= i < |cs| => Requested(cs[i]))
  }

  /** The four phases of one change: noted, noticed by the object, switched, acknowledged. */
  ghost predicate Inv(w: World) {
    && (forall i :: 0 <= i < |w.commits| ==> w.commits[i].due <= w.commits[i].when <= w.now)
    && w.s.cur == (if w.commits == [] then 0 else w.commits[|w.commits| - 1].status)
    && (if w.s.next != w.s.cur then
          && (w.s.progress == 1 || (w.s.progress == 2 && w.s.tstamp <= w.now))
          && w.accepted == Requests(w.commits) + [Request(w.s.next, w.s.tstamp)]
          && w.acks == |w.commits|
        else
          && w.accepted == Requests(w.commits)
          && (w.s.progress == 0 || w.s.progress == 2)
          && w.acks + (if w.s.progress == 0 then 0 else 1) == |w.commits|)
  }

  lemma StepKeepsInv(w: World, e: Event)
    requires Inv(w) && Allowed(w, e) && Differs(w, e)
    ensures Inv(Step(w, e))
  {
    if e.Poll? && w.s.next != w.s.cur && w.s.progress == 2 {
      var c := Commit(w.s.next, w.s.tstamp, w.now);
      assert Requests(w.commits + [c]) == Requests(w.commits) + [Requested(c)];
    }
  }

  lemma {:induction false} RunKeepsInv(now: int, es: seq<Event>)
    requires Runnable(Created(now), es)
    ensures Inv(Run(Created(now), es))
    decreases |es|
  {
    if es == [] {
      assert Requests([]) == [];
    } else {
      RunKeepsInv(now, es[..|es| - 1]);
      StepKeepsInv(Run(Created(now), es[..|es| - 1]), es[|es| - 1]);
    }
  }

  /** In every interleaving cur_status takes exactly the accepted requests, in order, all but at
      most the last one so far, and never before the time stamp of the request. */
  lemma StatusFollowsRequests(now: int, es: seq<Event>)
    requires Runnable(Created(now), es)
    ensures var w := Run(Created(now), es);
      && Requests(w.commits) <= w.accepted
      && |w.accepted| <= |w.commits| + 1
      && (w.s.next == w.s.cur <==> Requests(w.commits) == w.accepted)
      && w.acks <= |w.commits| <= w.acks + 1
      && forall i :: 0 <= i < |w.commits| ==> w.commits[i].due <= w.commits[i].when
  {
    RunKeepsInv(now, es);
  }

  /** A request is accepted exactly when all earlier ones were switched to and acknowledged. */
  lemma AcceptedWhenSettled(now: int, es: seq<Event>, status: int, tstamp: int)
    requires Runnable(Created(now), es) && tstamp != FORCED
    ensures var w := Run(Created(now), es);
      (Step(w, Ask(status, tstamp)).accepted != w.accepted)
      <==> (Requests(w.commits) == w.accepted && w.acks == |w.accepted|)
  {
    RunKeepsInv(now, es);
  }

  /** The answer to a request tells what became of it, in every state: the status itself exactly when the request
      is noted, and 0 exactly when nothing changes. */
  lemma AnswerTells(w: World, status: int, tstamp: int)
    requires status != 0
    ensures var v, r := Step(w, Ask(status, tstamp)), New(w.s, status, tstamp).1;
      && (r == status <==> v.accepted == w.accepted + [Request(status, tstamp)])
      && (r == status <==> |v.accepted| > |w.accepted|)
      && (r == 0 <==> v.s == w.s && v.accepted == w.accepted)
      && (r == status || r == 0)
      && (r == status ==> v.s == Status(w.s.cur, status, tstamp, 1))
  {
    assert |w.accepted + [Request(status, tstamp)]| > |w.accepted|;
  }

  /** A process starts with status 0 and the request for status 1, due at once: two polls and an acknowledgement
      settle it in status 1. */
  lemma FirstStatus(now: int)
    ensures var w := Created(now);
      && w.s.cur == 0 && w.accepted == [Request(1, now)] && w.commits == [] && w.acks == 0 && w.now == now
      && Get(w.s, now).1 == 1
      && var v := Step(Step(Step(w, Poll), Poll), Confirm); v.s.Free() && v.s.cur == 1 && v.acks == 1
  {
  }

  /** The value a poll returns: the new status from the first poll at or after its time stamp on,
      which is one poll before cur_status itself switches. */
  lemma PollReports(now: int, es: seq<Event>)
    requires Runnable(Created(now), es)
    ensures var w := Run(Created(now), es);
      Get(w.s, w.now).1 == if w.s.next != w.s.cur && w.now >= w.s.tstamp then w.s.next else w.s.cur
  {
    RunKeepsInv(now, es);
  }

  /** After the time stamp two polls and one acknowledgement finish a change. */
  lemma ChangeCompletes(now: int, es: seq<Event>)
    requires Runnable(Created(now), es)
    ensures var w := Run(Created(now), es);
      w.now >= w.s.tstamp ==>
        var v := Step(Step(Step(w, Poll), Poll), Confirm);
        v.s.Free() && v.s.cur == w.s.next && Requests(v.commits) == v.accepted == w.accepted
  {
    RunKeepsInv(now, es);
    var w := Run(Created(now), es);
    StepKeepsInv(w, Poll);
    StepKeepsInv(Step(w, Poll), Poll);
    StepKeepsInv(Step(Step(w, Poll), Poll), Confirm);
  }

  // ----- A request equal to the current status -----

  /** What an accepted request for the status the object already has leaves behind. */
  ghost predicate Wedged(s: Status) {
    s.cur == s.next && s.progress == 1
  }

  ghost predicate NoneForced(es: seq<Event>) {
    forall i :: 0 <= i < |es| ==> !IsForced(es[i])
  }

  /** Nothing but a forced request touches such a record; a forced request is always accepted. */
  lemma WedgedStep(w: World, e: Event)
    requires Wedged(w.s)
    ensures !IsForced(e) ==> Step(w, e).s == w.s && Step(w, e).accepted == w.accepted
    ensures IsForced(e) ==> |Step(w, e).accepted| > |w.accepted|
  {
  }

  lemma AcceptedGrows(w: World, e: Event)
    ensures |Step(w, e).accepted| >= |w.accepted|
  {
  }

  lemma {:induction false} WedgedRun(w: World, es: seq<Event>)
    requires Wedged(w.s)
    ensures NoneForced(es) ==> Run(w, es).s == w.s && Run(w, es).accepted == w.accepted
    ensures !NoneForced(es) ==> |Run(w, es).accepted| > |w.accepted|
    decreases |es|
  {
    hide Step;
    if es != [] {
      var h, e := es[..|es| - 1], es[|es| - 1];
      WedgedRun(w, h);
      if NoneForced(h) {
        WedgedStep(Run(w, h), e);
        assert NoneForced(es) <==> !IsForced(e);
      } else {
        AcceptedGrows(Run(w, h), e);
        var i :| 0 <= i < |h| && IsForced(h[i]);
        assert es[i] == h[i];
      }
    }
  }

  /** Over every run whatsoever: a record that holds a request for its own status stays as it is and accepts
      nothing exactly when no forced request comes. */
  lemma WedgedUntilForced(w: World, es: seq<Event>)
    requires Wedged(w.s)
    ensures (Run(w, es).s == w.s && Run(w, es).accepted == w.accepted) <==> NoneForced(es)
  {
    WedgedRun(w, es);
  }

  /** A free record can become free again without a forced request exactly when the request it accepts asks
      for a different status. */
  lemma FreeAgainIffDifferent(w: World, status: int, tstamp: int)
    requires w.s.Free() && tstamp != FORCED
    ensures (exists es :: NoneForced(es) && Run(Step(w, Ask(status, tstamp)), es).s.Free()) <==> status != w.s.cur
  {
    var v := Step(w, Ask(status, tstamp));
    if status != w.s.cur {
      var t := if v.now >= tstamp then v.now else tstamp;
      var es := [Tick(t), Poll, Poll, Confirm];
      RunFour(v, Tick(t), Poll, Poll, Confirm);
      assert NoneForced(es) && Run(v, es).s.Free();
    } else {
      forall es | NoneForced(es)
        ensures !Run(v, es).s.Free()
      {
        WedgedRun(v, es);
      }
    }
  }

  /** A forced request for another status frees any record again, whatever state it is in. */
  lemma ForcedFrees(w: World, status: int)
    requires status != w.s.cur && w.now > FORCED
    ensures var v := Run(w, [Ask(status, FORCED), Poll, Poll, Confirm]); v.s.Free() && v.s.cur == status
  {
    RunFour(w, Ask(status, FORCED), Poll, Poll, Confirm);
  }

  lemma RunFour(w: World, a: Event, b: Event, c: Event, d: Event)
    ensures Run(w, [a, b, c, d]) == Step(Step(Step(Step(w, a), b), c), d)
  {
    assert [a, b, c, d][..3] == [a, b, c];
    assert [a, b, c][..2] == [a, b];
    assert [a, b][..1] == [a];
    assert [a][..0] == [];
    assert Run(w, []) == w;
    assert Run(w, [a]) == Step(w, a);
    assert Run(w, [a, b]) == Step(Step(w, a), b);
    assert Run(w, [a, b, c]) == Step(Step(Step(w, a), b), c);
    assert [a, b, c, d][3] == d;
  }
}
