/** Time-stamped data interfaces: hwapi_itf_snd_ and hwapi_itf_rcv__ over a System V message queue. */
module TimedQueue {

  const MSG_BUFF_SZ: nat := 10 * 1024 * 1024

  /** A message: its type is the destination time stamp; `tstamp` is the stamp shown to the reader. */
  datatype Packet = Packet(dst: int, tstamp: int, body: seq<int>)

  datatype Picked = None | At(k: nat)

  /** msgrcv() of POSIX.1-2017 with type -t: the first message of the lowest type not above t. */
  ghost predicate IsPick(q: seq<Packet>, t: int, p: Picked) {
    match p
    case None => forall i :: 0 <= i < |q| ==> q[i].dst > t
    case At(k) =>
      && k < |q| && q[k].dst <= t
      && (forall i :: 0 <= i < |q| ==> q[k].dst <= q[i].dst)
      && (forall i :: 0 <= i < k ==> q[k].dst < q[i].dst)
  }

  function Without(q: seq<Packet>, k: nat): seq<Packet>
    requires k < |q|
  {
    q[..k] + q[k + 1..]
  }

  function Truncated(body: seq<int>, size: nat): (out: seq<int>)
    ensures out <= body && |out| <= size && (|body| <= size ==> out == body) && (|body| > size ==> |out| == size)
  {
    if |body| > size then body[..size] else body
  }

  /** The delays of an interface and of the system. */
  datatype Delays = Delays(itf: nat, system: nat, external: bool, externalDelay: nat) {
    function Effective(): nat {
      if itf != 0 then itf else system
    }

    /** How far ahead of the writer's clock packets are due. */
    function Constant(): nat {
      Effective() + if external then externalDelay else 0
    }
  }

  class Mailbox {
    var queue: seq<Packet>

    constructor ()
      ensures queue == []
    {
      queue := [];
    }

    /** hwapi_itf_snd_ for an object: bytes sent, 0 when the queue is full, -1 when too long or when
        the destination is not a valid message type. Without a delay the stamp shown to the reader is whatever
        the variable for it happens to hold (`unset`). */
    method Send(body: seq<int>, objTstamp: int, d: Delays, forced: int, full: bool, unset: int) returns (n: int)
      modifies this
      ensures var delay := if d.itf != 0 then d.itf else d.system;
        var dst := if forced > 0 then forced
                   else if delay == 0 then 1 else objTstamp + delay + if d.external then d.externalDelay else 0;
        if |body| > 10 * 1024 * 1024 || dst < 1 then n == -1 && queue == old(queue)
        else if full then n == 0 && queue == old(queue)
        else
          var shown := if delay == 0 then unset else objTstamp + delay;
          n == |body| && queue == old(queue) + [Packet(dst, shown, body)]
    {
      if |body| > MSG_BUFF_SZ {
        return -1;
      }
      var delay: int := d.itf;
      if delay == 0 {
        delay := d.system;
      }
      var dst;
      var tstamp := unset;
      if delay != 0 {
        tstamp := objTstamp;
        dst := tstamp + delay;
        if d.external {
          dst := dst + d.externalDelay;
        }
      } else {
        dst := 1;
      }
      if forced > 0 {
        dst := forced;
      }
      if dst < 1 {
        return -1;
      }
      if full {
        return 0;
      }
      queue := queue + [Packet(dst, tstamp + delay, body)];
      n := |body|;
    }

    /** The choice msgrcv() makes. */
    method Choose(t: int) returns (p: Picked)
      ensures IsPick(queue, t, p)
    {
      p := None;
      for i := 0 to |queue|
        invariant p.At? ==> p.k < i
        invariant IsPick(queue[..i], t, p)
      {
        if queue[i].dst <= t && (p.None? || queue[i].dst < queue[p.k].dst) {
          p := At(i);
        }
      }
      assert queue[..|queue|] == queue;
    }

    /** hwapi_itf_rcv__ for an object at time stamp t >= 1: nothing, or one packet cut to `size`. */
    method Receive(t: int, size: nat) returns (n: nat, out: seq<int>, tstamp: int, ghost p: Picked)
      requires t >= 1
      modifies this
      ensures IsPick(old(queue), t, p)
      ensures p.None? ==> n == 0 && out == [] && queue == old(queue)
      ensures p.At? ==>
        && queue == old(queue)[..p.k] + old(queue)[p.k + 1..]
        && n == |out| && out <= old(queue)[p.k].body
        && (|old(queue)[p.k].body| <= size ==> out == old(queue)[p.k].body)
        && (|old(queue)[p.k].body| > size ==> |out| == size)
        && tstamp == old(queue)[p.k].tstamp
    {
      var c := Choose(t);
      p := c;
      n, out, tstamp := 0, [], 0;
      if c.At? {
        var msg := queue[c.k];
        queue := queue[..c.k] + queue[c.k + 1..];
        n := |msg.body|;
        if n > size {
          n := size;
        }
        out := msg.body[..n];
        tstamp := msg.tstamp;
      }
    }
  }

  lemma PickIsUnique(q: seq<Packet>, t: int, p: Picked, r: Picked)
    requires IsPick(q, t, p) && IsPick(q, t, r)
    ensures p == r
  {
  }

  // ----- All runs of one writer and one reader -----

  /** The queue, everything sent and everything delivered so far with the reader's stamp, and the
      clocks of writer and reader. */
  datatype Link = Link(q: seq<Packet>, sent: seq<Packet>, got: seq<Packet>, at: seq<int>, writer: int, reader: int)

  datatype Event =
    | Advance(writer: int)
    | Put(packet: Packet)
    | Poll(t: int, p: Picked)

  const Empty: Link := Link([], [], [], [], 0, 1)

  /** The writer's clock never goes back and its interface has one positive delay, so stamps are the
      clock plus a constant; the reader's clock never goes back either. */
  ghost predicate Allowed(l: Link, e: Event, delay: nat) {
    match e
    case Advance(w) => w >= l.writer
    case Put(p) => delay > 0 && p.dst == l.writer + delay
    case Poll(t, p) => t >= l.reader && IsPick(l.q, t, p)
  }

  function Step(l: Link, e: Event): Link {
    match e
    case Advance(w) => l.(writer := w)
    case Put(p) => l.(q := l.q + [p], sent := l.sent + [p])
    case Poll(t, p) =>
      if p.At? && p.k < |l.q| then
        l.(q := Without(l.q, p.k), got := l.got + [l.q[p.k]], at := l.at + [t], reader := t)
      else
        l.(reader := t)
  }

  function Run(es: seq<Event>): Link
    decreases |es|
  {
    if es == [] then Empty else Step(Run(es[..|es| - 1]), es[|es| - 1])
  }

  ghost predicate Runnable(delay: nat, es: seq<Event>)
    decreases |es|
  {
    es == [] || (Runnable(delay, es[..|es| - 1]) && Allowed(Run(es[..|es| - 1]), es[|es| - 1], delay))
  }

  ghost predicate Sorted(q: seq<Packet>) {
    forall i, j :: 0 <= i < j < |q| ==> q[i].dst <= q[j].dst
  }

  ghost predicate Inv(l: Link, delay: nat) {
    && l.sent == l.got + l.q
    && Sorted(l.sent)
    && (forall i :: 0 <= i < |l.sent| ==> l.sent[i].dst <= l.writer + delay)
    && |l.at| == |l.got|
    && (forall i :: 0 <= i < |l.got| ==> l.got[i].dst <= l.at[i] <= l.reader)
  }

  /** In a queue of non-decreasing stamps the head is always the packet to take. */
  lemma SortedPicksHead(q: seq<Packet>, t: int, p: Picked)
    requires Sorted(q) && IsPick(q, t, p)
    ensures p.At? ==> p.k == 0
  {
    assert p.At? ==> p.k < |q| && q[0].dst <= q[p.k].dst;
  }

  lemma StepKeepsInv(l: Link, delay: nat, e: Event)
    requires Inv(l, delay) && Allowed(l, e, delay)
    ensures Inv(Step(l, e), delay)
  {
    match e
    case Advance(w) =>
    case Put(p) => assert l.got + (l.q + [p]) == (l.got + l.q) + [p];
    case Poll(t, p) =>
      SortedSuffix(l.got, l.q);
      SortedPicksHead(l.q, t, p);
      if p.At? {
        MoveHead(l.got, l.q);
      }
  }

  lemma SortedSuffix(a: seq<Packet>, b: seq<Packet>)
    requires Sorted(a + b)
    ensures Sorted(b)
  {
    forall i, j | 0 <= i < j < |b|
      ensures b[i].dst <= b[j].dst
    {
      assert (a + b)[|a| + i] == b[i] && (a + b)[|a| + j] == b[j];
    }
  }

  lemma MoveHead(a: seq<Packet>, b: seq<Packet>)
    requires b != []
    ensures a + b == (a + [b[0]]) + Without(b, 0)
  {
  }

  lemma {:induction false} RunKeepsInv(delay: nat, es: seq<Event>)
    requires Runnable(delay, es)
    ensures Inv(Run(es), delay)
    decreases |es|
  {
    if es != [] {
      RunKeepsInv(delay, es[..|es| - 1]);
      StepKeepsInv(Run(es[..|es| - 1]), delay, es[|es| - 1]);
    }
  }

  /** Packets come out in the order they were sent, none lost, none before its time. */
  lemma DeliveredInOrderAndOnTime(delay: nat, es: seq<Event>)
    requires Runnable(delay, es)
    ensures var l := Run(es);
      && l.sent == l.got + l.q
      && |l.at| == |l.got| && forall i :: 0 <= i < |l.got| ==> l.got[i].dst <= l.at[i]
  {
    RunKeepsInv(delay, es);
  }

  function DueBy(q: seq<Packet>, t: int): seq<Packet>
    decreases |q|
  {
    if q == [] then []
    else DueBy(q[..|q| - 1], t) + if q[|q| - 1].dst <= t then [q[|q| - 1]] else []
  }

  lemma {:induction false} DueBySplit(a: seq<Packet>, b: seq<Packet>, t: int)
    requires forall i :: 0 <= i < |a| ==> a[i].dst <= t
    requires forall i :: 0 <= i < |b| ==> b[i].dst > t
    ensures DueBy(a + b, t) == a
    decreases |a| + |b|
  {
    if b != [] {
      assert (a + b)[..|a + b| - 1] == a + b[..|b| - 1];
      DueBySplit(a, b[..|b| - 1], t);
    } else {
      assert a + b == a;
      AllDue(a, t);
    }
  }

  lemma {:induction false} AllDue(a: seq<Packet>, t: int)
    requires forall i :: 0 <= i < |a| ==> a[i].dst <= t
    ensures DueBy(a, t) == a
    decreases |a|
  {
    if a != [] {
      AllDue(a[..|a| - 1], t);
    }
  }

  /** A reader that finds nothing at its stamp has received exactly the packets due by then. */
  lemma DrainedMeansAllDue(delay: nat, es: seq<Event>)
    requires Runnable(delay, es) && IsPick(Run(es).q, Run(es).reader, None)
    ensures var l := Run(es); l.got == DueBy(l.sent, l.reader)
  {
    var l := Run(es);
    RunKeepsInv(delay, es);
    DueBySplit(l.got, l.q, l.reader);
  }

  /** Order is kept for every reading time exactly when no later packet has an earlier stamp than
      the head; a stamp that goes back overtakes. */
  lemma HeadFirstIff(q: seq<Packet>)
    requires q != []
    ensures (forall t, k :: IsPick(q, t, At(k)) ==> k == 0) <==> (forall i :: 0 <= i < |q| ==> q[0].dst <= q[i].dst)
  {
    if forall t, k :: IsPick(q, t, At(k)) ==> k == 0 {
      var k := Lowest(q, |q|);
      assert IsPick(q, q[k].dst, At(k));
    }
  }

  lemma {:induction false} Lowest(q: seq<Packet>, n: nat) returns (k: nat)
    requires 0 < n <= |q|
    ensures k < n && forall i :: 0 <= i < n ==> q[k].dst <= q[i].dst
    ensures forall i :: 0 <= i < k ==> q[k].dst < q[i].dst
  {
    if n == 1 {
      k := 0;
    } else {
      k := Lowest(q, n - 1);
      if q[n - 1].dst < q[k].dst {
        k := n - 1;
      }
    }
  }

  // ----- The calls are steps of such a run -----

  /** What writer and reader do: the writer's time slot, hwapi_itf_snd_ and hwapi_itf_rcv__. */
  datatype Call = Slot(writer: int) | Snd(body: seq<int>, full: bool) | Rcv(t: int, size: nat)

  /** The clocks of writer and reader after the calls. */
  function Clocks(calls: seq<Call>): (int, int)
    decreases |calls|
  {
    if calls == [] then (0, 1)
    else
      var (w, r) := Clocks(calls[..|calls| - 1]);
      match calls[|calls| - 1]
      case Slot(writer) => (writer, r)
      case Snd(_, _) => (w, r)
      case Rcv(t, _) => (w, t)
  }

  /** Neither clock goes back. */
  predicate InTime(call: Call, writer: int, reader: int) {
    match call
    case Slot(w) => w >= writer
    case Snd(_, _) => true
    case Rcv(t, _) => t >= reader
  }

  ghost predicate Timely(calls: seq<Call>)
    decreases |calls|
  {
    calls == [] ||
    var h := calls[..|calls| - 1];
    Timely(h) && InTime(calls[|calls| - 1], Clocks(h).0, Clocks(h).1)
  }

  /** A packet that the mailbox takes. */
  predicate Fits(call: Call) {
    call.Snd? && |call.body| <= MSG_BUFF_SZ && !call.full
  }

  function PacketOf(body: seq<int>, writer: int, d: Delays): Packet {
    Packet(writer + d.Constant(), writer + d.Effective(), body)
  }

  /** The choice as a function. */
  function Pick(q: seq<Packet>, t: int): (p: Picked)
    ensures IsPick(q, t, p)
    decreases |q|
  {
    if q == [] then None
    else
      var n := |q| - 1;
      var p := Pick(q[..n], t);
      if q[n].dst <= t && (p.None? || q[n].dst < q[p.k].dst) then At(n) else p
  }

  /** The step a call is, or none for a packet that is refused. */
  function EventsFor(l: Link, call: Call, d: Delays): seq<Event> {
    match call
    case Slot(w) => [Advance(w)]
    case Snd(body, _) => if Fits(call) then [Put(PacketOf(body, l.writer, d))] else []
    case Rcv(t, _) => [Poll(t, Pick(l.q, t))]
  }

  /** The run that mirrors the calls. */
  function EventsOf(calls: seq<Call>, d: Delays): seq<Event>
    decreases |calls|
  {
    if calls == [] then []
    else
      var es := EventsOf(calls[..|calls| - 1], d);
      es + EventsFor(Run(es), calls[|calls| - 1], d)
  }

  function Stepped(l: Link, call: Call, d: Delays): Link {
    var es := EventsFor(l, call, d);
    if es == [] then l else Step(l, es[0])
  }

  lemma {:induction false} RunOfCalls(calls: seq<Call>, call: Call, d: Delays)
    ensures var l := Run(EventsOf(calls, d));
      && EventsOf(calls + [call], d) == EventsOf(calls, d) + EventsFor(l, call, d)
      && Run(EventsOf(calls + [call], d)) == Stepped(l, call, d)
  {
    assert (calls + [call])[..|calls|] == calls;
    var es := EventsOf(calls, d);
    var more := EventsFor(Run(es), call, d);
    if more == [] {
      assert es + more == es;
    } else {
      assert more == [more[0]] && (es + more)[..|es + more| - 1] == es;
    }
  }

  /** The mirrored run is one of the allowed runs, with the clocks of the calls. */
  lemma {:induction false} CallsAreRunnable(calls: seq<Call>, d: Delays)
    requires Timely(calls) && d.Effective() > 0
    ensures var l := Run(EventsOf(calls, d));
      && Runnable(d.Constant(), EventsOf(calls, d))
      && (l.writer, l.reader) == Clocks(calls) && l.writer >= 0 && l.reader >= 1
    decreases |calls|
  {
    hide Step, Pick, IsPick;
    if calls != [] {
      var h, call := calls[..|calls| - 1], calls[|calls| - 1];
      assert calls == h + [call];
      CallsAreRunnable(h, d);
      RunOfCalls(h, call, d);
      StepClocks(Run(EventsOf(h, d)), call, d);
      AllowedStep(Run(EventsOf(h, d)), call, d);
      Extend(d.Constant(), EventsOf(h, d), EventsFor(Run(EventsOf(h, d)), call, d));
    }
  }

  lemma Extend(delay: nat, es: seq<Event>, more: seq<Event>)
    requires Runnable(delay, es) && |more| <= 1 && (more != [] ==> Allowed(Run(es), more[0], delay))
    ensures Runnable(delay, es + more)
  {
    if more == [] {
      assert es + more == es;
    } else {
      assert (es + more)[..|es + more| - 1] == es;
    }
  }

  lemma StepClocks(l: Link, call: Call, d: Delays)
    ensures var m := Stepped(l, call, d);
      && m.writer == (if call.Slot? then call.writer else l.writer)
      && m.reader == (if call.Rcv? then call.t else l.reader)
  {
  }

  lemma AllowedStep(l: Link, call: Call, d: Delays)
    requires InTime(call, l.writer, l.reader) && d.Effective() > 0
    ensures |EventsFor(l, call, d)| <= 1
    ensures EventsFor(l, call, d) != [] ==> Allowed(l, EventsFor(l, call, d)[0], d.Constant())
  {
  }

  // ----- The simple form: one line, served from its head -----

  /** The packets in line, what every receive returned, what the ones returned that handed a packet over, and
      these packets with the stamps at which they were. */
  datatype Line = Line(waiting: seq<Packet>, writer: int, texts: seq<seq<int>>,
                       given: seq<seq<int>>, handed: seq<Packet>, at: seq<int>)

  /** A receive returns the head of the line if it is due, and nothing otherwise. */
  function Served(f: Line, call: Call, d: Delays): Line {
    match call
    case Slot(w) => f.(writer := w)
    case Snd(body, _) => if Fits(call) then f.(waiting := f.waiting + [PacketOf(body, f.writer, d)]) else f
    case Rcv(t, size) =>
      if f.waiting != [] && f.waiting[0].dst <= t then
        var text := Truncated(f.waiting[0].body, size);
        f.(waiting := f.waiting[1..], texts := f.texts + [text], given := f.given + [text],
           handed := f.handed + [f.waiting[0]], at := f.at + [t])
      else
        f.(texts := f.texts + [[]])
  }

  function LineOf(calls: seq<Call>, d: Delays): Line
    decreases |calls|
  {
    if calls == [] then Line([], 0, [], [], [], []) else Served(LineOf(calls[..|calls| - 1], d), calls[|calls| - 1], d)
  }

  /** The text a receive returns. */
  function TextOf(l: Link, call: Call): seq<seq<int>> {
    if call.Rcv? then
      [var p := Pick(l.q, call.t); if p.At? then Truncated(l.q[p.k].body, call.size) else []]
    else []
  }

  ghost predicate Agree(l: Link, f: Line) {
    l.q == f.waiting && l.writer == f.writer && l.got == f.handed && l.at == f.at
  }

  /** In stamp order the selective receive is the receive from the head. */
  lemma StepAgrees(l: Link, f: Line, call: Call, d: Delays)
    requires Agree(l, f) && Sorted(l.q)
    ensures Agree(Stepped(l, call, d), Served(f, call, d))
    ensures Served(f, call, d).texts == f.texts + TextOf(l, call)
  {
    if call.Rcv? {
      var p := Pick(l.q, call.t);
      SortedPicksHead(l.q, call.t, p);
      assert p.At? ==> Without(l.q, 0) == l.q[1..];
    }
  }

  /** The queue with selective receive does what one line served from its head does: the texts of all
      receives are determined by this simple form. */
  lemma {:induction false} QueueIsLine(calls: seq<Call>, d: Delays)
    requires Timely(calls) && d.Effective() > 0
    ensures Agree(Run(EventsOf(calls, d)), LineOf(calls, d)) && Sorted(Run(EventsOf(calls, d)).q)
    decreases |calls|
  {
    hide Stepped, Served, EventsFor, Agree, Sorted;
    CallsAreRunnable(calls, d);
    QueueSorted(d.Constant(), EventsOf(calls, d));
    if calls == [] {
      StartAgrees(d);
    } else {
      var h, call := calls[..|calls| - 1], calls[|calls| - 1];
      assert calls == h + [call];
      QueueIsLine(h, d);
      RunOfCalls(h, call, d);
      StepAgrees(Run(EventsOf(h, d)), LineOf(h, d), call, d);
    }
  }

  lemma StartAgrees(d: Delays)
    ensures Agree(Run(EventsOf([], d)), LineOf([], d))
  {
  }

  lemma QueueSorted(delay: nat, es: seq<Event>)
    requires Runnable(delay, es)
    ensures Sorted(Run(es).q)
  {
    RunKeepsInv(delay, es);
    SortedSuffix(Run(es).got, Run(es).q);
  }

  /** The packets the mailbox took, in order. */
  function Accepted(calls: seq<Call>, d: Delays): seq<Packet>
    decreases |calls|
  {
    if calls == [] then []
    else
      var h, call := calls[..|calls| - 1], calls[|calls| - 1];
      Accepted(h, d) + if Fits(call) then [PacketOf(call.body, Clocks(h).0, d)] else []
  }

  lemma {:induction false} SentIsAccepted(calls: seq<Call>, d: Delays)
    requires Timely(calls) && d.Effective() > 0
    ensures Run(EventsOf(calls, d)).sent == Accepted(calls, d)
    decreases |calls|
  {
    hide Pick, IsPick, Stepped, EventsFor, Run, Fits, PacketOf;
    if calls == [] {
      SessionStart(d);
    } else {
      var h, call := calls[..|calls| - 1], calls[|calls| - 1];
      assert calls == h + [call];
      SentIsAccepted(h, d);
      CallsAreRunnable(h, d);
      RunOfCalls(h, call, d);
      StepSends(Run(EventsOf(h, d)), call, d);
    }
  }

  lemma StepSends(l: Link, call: Call, d: Delays)
    ensures Stepped(l, call, d).sent == l.sent + if Fits(call) then [PacketOf(call.body, l.writer, d)] else []
  {
    hide Pick;
  }

  function Bodies(packets: seq<Packet>): (bs: seq<seq<int>>)
    ensures |bs| == |packets|
  {
    seq(|packets|, i requires 0 <= i < |packets| => packets[i].body)
  }

  /** Every receive has room for every packet. */
  ghost predicate AllFit(calls: seq<Call>) {
    forall i, j :: 0 <= i < |calls| && 0 <= j < |calls| && calls[i].Snd? && calls[j].Rcv? ==>
      |calls[i].body| <= calls[j].size
  }

  /** The texts that are not empty; an empty one looks like nothing to the reader. */
  function NonEmpty(texts: seq<seq<int>>): seq<seq<int>>
    decreases |texts|
  {
    if texts == [] then []
    else NonEmpty(texts[..|texts| - 1]) + if texts[|texts| - 1] == [] then [] else [texts[|texts| - 1]]
  }

  lemma NonEmptySnoc(texts: seq<seq<int>>, text: seq<int>)
    ensures NonEmpty(texts + [text]) == NonEmpty(texts) + if text == [] then [] else [text]
  {
    assert (texts + [text])[..|texts|] == texts;
  }

  /** What the receives give are the packets handed over, each from its start; the other receives return
      nothing. */
  lemma {:induction false} TextsAreHanded(calls: seq<Call>, d: Delays)
    ensures var f := LineOf(calls, d);
      && |f.given| == |f.handed| && NonEmpty(f.texts) == NonEmpty(f.given)
      && forall i :: 0 <= i < |f.given| ==> f.given[i] <= f.handed[i].body
    decreases |calls|
  {
    hide Truncated, NonEmpty;
    if calls == [] {
      NothingYet();
    } else {
      var h, call := calls[..|calls| - 1], calls[|calls| - 1];
      TextsAreHanded(h, d);
      var f := LineOf(h, d);
      NonEmptySnoc(f.texts, []);
      if call.Rcv? && f.waiting != [] {
        var text := Truncated(f.waiting[0].body, call.size);
        NonEmptySnoc(f.texts, text);
        NonEmptySnoc(f.given, text);
      }
    }
  }

  lemma NothingYet()
    ensures NonEmpty([]) == []
  {
  }

  /** With room for every packet they are whole. */
  lemma {:induction false} TextsAreBodies(calls: seq<Call>, d: Delays)
    requires AllFit(calls)
    ensures LineOf(calls, d).given == Bodies(LineOf(calls, d).handed)
    ensures forall i :: 0 <= i < |LineOf(calls, d).waiting| ==> FromCall(calls, LineOf(calls, d).waiting[i].body)
    decreases |calls|
  {
    hide Truncated, FromCall, AllFit, Fits;
    if calls != [] {
      var h, call := calls[..|calls| - 1], calls[|calls| - 1];
      NoLonger(calls);
      TextsAreBodies(h, d);
      var f := LineOf(h, d);
      StillFromCall(calls);
      if call.Rcv? && f.waiting != [] {
        BodyFits(calls, f.waiting[0].body, |h|);
        assert Bodies(f.handed + [f.waiting[0]]) == Bodies(f.handed) + [f.waiting[0].body];
      }
    }
  }

  lemma StillFromCall(calls: seq<Call>)
    requires calls != []
    ensures forall body :: FromCall(calls[..|calls| - 1], body) ==> FromCall(calls, body)
    ensures calls[|calls| - 1].Snd? ==> FromCall(calls, calls[|calls| - 1].body)
  {
    var h := calls[..|calls| - 1];
    forall body | FromCall(h, body)
      ensures FromCall(calls, body)
    {
      var i :| 0 <= i < |h| && h[i].Snd? && h[i].body == body;
      assert calls[i] == h[i];
    }
  }

  ghost predicate FromCall(calls: seq<Call>, body: seq<int>) {
    exists i :: 0 <= i < |calls| && calls[i].Snd? && calls[i].body == body
  }

  lemma NoLonger(calls: seq<Call>)
    requires calls != []
    ensures AllFit(calls) ==> AllFit(calls[..|calls| - 1])
  {
  }

  lemma BodyFits(calls: seq<Call>, body: seq<int>, j: nat)
    requires FromCall(calls, body) && j < |calls| && calls[j].Rcv?
    ensures AllFit(calls) ==> |body| <= calls[j].size
  {
  }

  /** The bodies of all sends. */
  function SentBodies(calls: seq<Call>): seq<seq<int>>
    decreases |calls|
  {
    if calls == [] then []
    else SentBodies(calls[..|calls| - 1]) + if calls[|calls| - 1].Snd? then [calls[|calls| - 1].body] else []
  }

  /** A packet is taken unless it is too long or the queue is full, and its stamp is the writer's clock and the
      delays. */
  lemma {:induction false} TakenWithStamp(calls: seq<Call>, call: Call, d: Delays)
    ensures var delay := if d.itf != 0 then d.itf else d.system;
      Accepted(calls + [call], d) == Accepted(calls, d) +
        if call.Snd? && |call.body| <= 10 * 1024 * 1024 && !call.full then
          [Packet(Clocks(calls).0 + delay + (if d.external then d.externalDelay else 0), Clocks(calls).0 + delay,
                  call.body)]
        else []
  {
    assert (calls + [call])[..|calls|] == calls;
  }

  /** When nothing is refused, the packets taken are those sent. */
  lemma {:induction false} AcceptedAreSent(calls: seq<Call>, d: Delays)
    ensures (forall i :: 0 <= i < |calls| && calls[i].Snd? ==>
               |calls[i].body| <= 10 * 1024 * 1024 && !calls[i].full) ==>
              Bodies(Accepted(calls, d)) == SentBodies(calls)
    decreases |calls|
  {
    if calls != [] {
      var h, call := calls[..|calls| - 1], calls[|calls| - 1];
      AcceptedAreSent(h, d);
      if Fits(call) {
        var p := PacketOf(call.body, Clocks(h).0, d);
        assert Bodies(Accepted(h, d) + [p]) == Bodies(Accepted(h, d)) + [p.body];
      }
    }
  }

  /** On every timely sequence of calls: what was handed over and what still waits are the packets taken, in
      order, and nothing was handed over before its stamp. */
  lemma {:induction false} HandedOverOnTime(calls: seq<Call>, d: Delays)
    requires Timely(calls) && d.Effective() > 0
    ensures var f := LineOf(calls, d);
      && Accepted(calls, d) == f.handed + f.waiting
      && |f.at| == |f.handed| && forall i :: 0 <= i < |f.handed| ==> f.handed[i].dst <= f.at[i]
  {
    CallsAreRunnable(calls, d);
    DeliveredInOrderAndOnTime(d.Constant(), EventsOf(calls, d));
    QueueIsLine(calls, d);
    SentIsAccepted(calls, d);
  }

  /** A last receive at t that finds nothing: exactly the packets due by t were handed over. */
  lemma {:induction false} NothingFoundMeansAllHanded(calls: seq<Call>, t: int, size: nat, d: Delays)
    requires Timely(calls + [Rcv(t, size)]) && d.Effective() > 0
    ensures var f := LineOf(calls, d);
      LineOf(calls + [Rcv(t, size)], d).handed == f.handed <==> f.handed == DueBy(Accepted(calls, d), t)
  {
    hide Pick, IsPick, Accepted, DueBy;
    var all := calls + [Rcv(t, size)];
    assert all[..|calls|] == calls;
    QueueIsLine(calls, d);
    HandedOverOnTime(calls, d);
    HandedBy(calls, t, d);
    var f := LineOf(calls, d);
    DueInLine(f.handed, f.waiting, t);
  }

  /** Nothing handed over so far was due later than the reader's clock. */
  lemma {:induction false} HandedBy(calls: seq<Call>, t: int, d: Delays)
    requires Timely(calls) && d.Effective() > 0 && t >= Clocks(calls).1
    ensures forall i :: 0 <= i < |LineOf(calls, d).handed| ==> LineOf(calls, d).handed[i].dst <= t
  {
    CallsAreRunnable(calls, d);
    RunKeepsInv(d.Constant(), EventsOf(calls, d));
    QueueIsLine(calls, d);
  }

  lemma {:induction false} DueInLine(handed: seq<Packet>, waiting: seq<Packet>, t: int)
    requires Sorted(waiting) && forall i :: 0 <= i < |handed| ==> handed[i].dst <= t
    ensures handed == DueBy(handed + waiting, t) <==> waiting == [] || waiting[0].dst > t
  {
    if waiting == [] || waiting[0].dst > t {
      DueBySplit(handed, waiting, t);
    } else {
      assert handed + waiting == (handed + [waiting[0]]) + waiting[1..];
      DueByGrows(handed + [waiting[0]], waiting[1..], t);
      AllDue(handed + [waiting[0]], t);
    }
  }

  lemma {:induction false} DueByGrows(a: seq<Packet>, b: seq<Packet>, t: int)
    ensures |DueBy(a + b, t)| >= |DueBy(a, t)|
    decreases |b|
  {
    if b == [] {
      assert a + b == a;
    } else {
      assert (a + b)[..|a + b| - 1] == a + b[..|b| - 1];
      DueByGrows(a, b[..|b| - 1], t);
    }
  }

  /** One call on the mailbox is the step of the run that mirrors it. */
  method Perform(box: Mailbox, call: Call, d: Delays, writer: int, unset: int, ghost l: Link)
    returns (writer': int, texts: seq<seq<int>>)
    requires d.Effective() > 0 && box.queue == l.q && writer == l.writer >= 0 && l.reader >= 1
    requires InTime(call, l.writer, l.reader)
    modifies box
    ensures box.queue == Stepped(l, call, d).q && writer' == Stepped(l, call, d).writer
    ensures texts == TextOf(l, call)
  {
    hide IsPick;
    writer', texts := writer, [];
    match call
    case Slot(w) =>
      writer' := w;
    case Snd(body, full) =>
      var n := box.Send(body, writer, d, 0, full, unset);
    case Rcv(t, size) =>
      var n, text, stamp, p := box.Receive(t, size);
      PickIsThe(l.q, t, p);
      CutIsThe(text, if p.At? then l.q[p.k].body else [], size);
      texts := [text];
  }

  lemma CutIsThe(out: seq<int>, body: seq<int>, size: nat)
    requires out <= body && (|body| <= size ==> out == body) && (|body| > size ==> |out| == size)
    ensures out == Truncated(body, size)
  {
  }

  lemma PickIsThe(q: seq<Packet>, t: int, p: Picked)
    requires IsPick(q, t, p)
    ensures p == Pick(q, t) && (p.At? ==> p.k < |q|)
  {
    PickIsUnique(q, t, p, Pick(q, t));
  }

  /** Any timely sequence of calls on one mailbox, whatever is refused or cut short: the receives return what
      a line served from its head returns. */
  method Session(calls: seq<Call>, d: Delays, unset: int) returns (texts: seq<seq<int>>)
    requires d.Effective() > 0 && Timely(calls)
    ensures texts == LineOf(calls, d).texts
    ensures AllFit(calls) ==> NonEmpty(texts) <= NonEmpty(Bodies(Accepted(calls, d)))
  {
    hide LineOf, Timely, EventsOf, Stepped, Served, Run, Pick, Agree, InTime, Clocks, Sorted;
    var box := new Mailbox();
    var writer := 0;
    texts := [];
    SessionStart(d);
    for i := 0 to |calls|
      invariant fresh(box) && box.queue == Run(EventsOf(calls[..i], d)).q
      invariant writer == Run(EventsOf(calls[..i], d)).writer
      invariant texts == LineOf(calls[..i], d).texts
    {
      ghost var h, l := calls[..i], Run(EventsOf(calls[..i], d));
      var more;
      NextCall(calls, i, d);
      writer, more := Perform(box, calls[i], d, writer, unset, l);
      texts := texts + more;
    }
    assert calls[..|calls|] == calls;
    HandedOverOnTime(calls, d);
    TextsAreHanded(calls, d);
    if AllFit(calls) {
      TextsAreBodies(calls, d);
    }
    HandedBodies(LineOf(calls, d).handed, LineOf(calls, d).waiting);
  }

  lemma HandedBodies(handed: seq<Packet>, waiting: seq<Packet>)
    ensures NonEmpty(Bodies(handed)) <= NonEmpty(Bodies(handed + waiting))
  {
    assert Bodies(handed + waiting) == Bodies(handed) + Bodies(waiting);
    NonEmptyPrefix(Bodies(handed), Bodies(waiting));
  }

  lemma {:induction false} NonEmptyPrefix(a: seq<seq<int>>, b: seq<seq<int>>)
    ensures NonEmpty(a) <= NonEmpty(a + b)
    decreases |b|
  {
    if b == [] {
      assert a + b == a;
    } else {
      var h, t := b[..|b| - 1], b[|b| - 1];
      NonEmptyPrefix(a, h);
      assert a + b == (a + h) + [t];
      NonEmptySnoc(a + h, t);
    }
  }

  lemma SessionStart(d: Delays)
    ensures Run(EventsOf([], d)) == Empty && LineOf([], d).texts == []
  {
  }

  lemma {:induction false} TimelyPrefix(calls: seq<Call>, i: nat)
    requires Timely(calls) && i <= |calls|
    ensures Timely(calls[..i])
    ensures i < |calls| ==> InTime(calls[i], Clocks(calls[..i]).0, Clocks(calls[..i]).1)
    decreases |calls|
  {
    if i == |calls| {
      assert calls[..i] == calls;
    } else if i < |calls| - 1 {
      var h := calls[..|calls| - 1];
      TimelyPrefix(h, i);
      assert h[..i] == calls[..i];
    }
  }

  lemma {:induction false} NextCall(calls: seq<Call>, i: nat, d: Delays)
    requires i < |calls| && Timely(calls) && d.Effective() > 0
    ensures var l := Run(EventsOf(calls[..i], d));
      && InTime(calls[i], l.writer, l.reader) && l.writer >= 0 && l.reader >= 1
      && Run(EventsOf(calls[..i + 1], d)) == Stepped(l, calls[i], d)
      && LineOf(calls[..i + 1], d).texts == LineOf(calls[..i], d).texts + TextOf(l, calls[i])
  {
    hide Stepped, Served, Agree, Sorted, InTime, TextOf;
    var h := calls[..i];
    TimelyPrefix(calls, i);
    assert calls[..i + 1] == h + [calls[i]] && calls[..i + 1][..i] == h;
    CallsAreRunnable(h, d);
    RunOfCalls(h, calls[i], d);
    QueueIsLine(h, d);
    StepAgrees(Run(EventsOf(h, d)), LineOf(h, d), calls[i], d);
  }
}
