/**
 * Runs of the sixteen-slot table with calls for any kqueues interleaved: each kqueue sees its
 * own ordered map, every event is accounted for, and keys stay in the order they arrived.
 */
module KeventRuns {
  import opened KeventQueue

  /** What a caller asks for; whether there is a slot to stash in is not the caller's choice. */
  datatype Request = Keep(evs: seq<Event>) | Forget(ident: nat, filter: int) | Take(max: nat, closed: set<nat>)

  datatype Call = Call(kq: int, request: Request)

  function Served(t: seq<Slot>, c: Call): seq<Slot> {
    match c.request
    case Keep(evs) => Stashed(t, c.kq, evs)
    case Forget(ident, filter) => Invalidated(t, c.kq, ident, filter)
    case Take(max, closed) => Drained(t, c.kq, max)
  }

  function RunTable(t: seq<Slot>, calls: seq<Call>): seq<Slot>
    decreases |calls|
  {
    if |calls| == 0 then t else RunTable(Served(t, calls[0]), calls[1..])
  }

  ghost predicate Proper(calls: seq<Call>) { forall i :: 0 <= i < |calls| ==> calls[i].kq != FREE }

  /** What a call is to the account of its own kqueue. */
  function Seen(t: seq<Slot>, c: Call): Op {
    match c.request
    case Keep(evs) => if SlotFor(t, c.kq) < |t| then Stash(evs) else NoSlot(evs)
    case Forget(ident, filter) => Invalidate(ident, filter)
    case Take(max, closed) => Wait(max, closed)
  }

  /** The calls for one kqueue, each as the table of its time made it out. */
  function Project(t: seq<Slot>, calls: seq<Call>, kq: int): seq<Op>
    decreases |calls|
  {
    if |calls| == 0 then []
    else (if calls[0].kq == kq then [Seen(t, calls[0])] else []) + Project(Served(t, calls[0]), calls[1..], kq)
  }

  // ------------------------------------------------------------ one call

  lemma ServedValid(t: seq<Slot>, c: Call)
    requires ValidTable(t) && c.kq != FREE
    ensures ValidTable(Served(t, c))
  {
    hide ValidTable, Stashed, Invalidated, Drained;
    match c.request
    case Keep(evs) => StashRefines(t, c.kq, evs, c.kq);
    case Forget(ident, filter) => InvalidateRefines(t, c.kq, ident, filter, c.kq);
    case Take(max, closed) => DrainRefines(t, c.kq, max, c.kq);
  }

  lemma ServedOthers(t: seq<Slot>, c: Call, other: int)
    requires ValidTable(t) && c.kq != FREE && other != c.kq && other != FREE
    ensures Held(Served(t, c), other) == Held(t, other)
  {
    hide ValidTable, Stashed, Invalidated, Drained, Held;
    match c.request
    case Keep(evs) => StashRefines(t, c.kq, evs, other);
    case Forget(ident, filter) => InvalidateRefines(t, c.kq, ident, filter, other);
    case Take(max, closed) => DrainRefines(t, c.kq, max, other);
  }

  lemma ServedOwn(t: seq<Slot>, c: Call, a: Account)
    requires ValidTable(t) && c.kq != FREE && a.held == Held(t, c.kq)
    ensures Apply(a, Seen(t, c)).held == Held(Served(t, c), c.kq)
  {
    hide ValidTable, Stashed, Invalidated, Drained, Held, PutAll, PutAllFates, Remove, Matching, Live, StaleOf;
    match c.request
    case Keep(evs) => StashRefines(t, c.kq, evs, c.kq);
    case Forget(ident, filter) => InvalidateRefines(t, c.kq, ident, filter, c.kq);
    case Take(max, closed) => DrainRefines(t, c.kq, max, c.kq);
  }

  // ------------------------------------------------------------ whole runs

  lemma {:induction false} RunValid(t: seq<Slot>, calls: seq<Call>)
    requires ValidTable(t) && Proper(calls)
    ensures ValidTable(RunTable(t, calls))
    decreases |calls|
  {
    hide ValidTable, Served;
    if |calls| > 0 {
      ServedValid(t, calls[0]);
      RunValid(Served(t, calls[0]), calls[1..]);
    }
  }

  lemma RunCons(a: Account, op: Op, ops: seq<Op>)
    ensures RunOps(a, [op] + ops) == RunOps(Apply(a, op), ops)
  {
    hide Apply;
    assert ([op] + ops)[1..] == ops;
  }

  /** The shared table gives each kqueue exactly the map it would have alone, whatever the others do. */
  lemma {:induction false} TableRefines(t: seq<Slot>, calls: seq<Call>, kq: int, a: Account)
    requires ValidTable(t) && Proper(calls) && kq != FREE && a.held == Held(t, kq)
    ensures Held(RunTable(t, calls), kq) == RunOps(a, Project(t, calls, kq)).held
    decreases |calls|
  {
    hide ValidTable, Served, Held, Apply, Seen, RunOps;
    if |calls| > 0 {
      var c, rest := calls[0], calls[1..];
      var u := Served(t, c);
      ServedValid(t, c);
      if c.kq == kq {
        ServedOwn(t, c, a);
        TableRefines(u, rest, kq, Apply(a, Seen(t, c)));
        RunCons(a, Seen(t, c), Project(u, rest, kq));
      } else {
        ServedOthers(t, c, kq);
        TableRefines(u, rest, kq, a);
        assert [] + Project(u, rest, kq) == Project(u, rest, kq);
      }
    } else {
      RunNone(a);
    }
  }

  lemma RunNone(a: Account)
    ensures RunOps(a, []) == a
  {}

  // ------------------------------------------------- where every event goes

  /** All events stashed for kq, in the order of the calls. */
  function Arrivals(calls: seq<Call>, kq: int): seq<Event>
    decreases |calls|
  {
    if |calls| == 0 then [] else ArrivalsOf(calls[0], kq) + Arrivals(calls[1..], kq)
  }

  function ArrivalsOf(c: Call, kq: int): seq<Event> {
    if c.kq == kq && c.request.Keep? then c.request.evs else []
  }

  /** All events that draining kq handed out, from the table alone. */
  function Returned(t: seq<Slot>, calls: seq<Call>, kq: int): multiset<Event>
    decreases |calls|
  {
    if |calls| == 0 then multiset{} else ReturnedBy(t, calls[0], kq) + Returned(Served(t, calls[0]), calls[1..], kq)
  }

  function ReturnedBy(t: seq<Slot>, c: Call, kq: int): multiset<Event> {
    if c.kq == kq && c.request.Take? then multiset(Delivered(t, kq, c.request.max, c.request.closed)) else multiset{}
  }

  lemma {:induction false} PutAllDelivers(q: seq<Event>, evs: seq<Event>, f: Fates)
    ensures PutAllFates(q, evs, f).delivered == f.delivered
    decreases |evs|
  {
    hide Put;
    if |evs| > 0 { PutAllDelivers(Put(q, evs[0]), evs[1..], PutFate(q, evs[0], f)); }
  }

  lemma SeenBooks(t: seq<Slot>, c: Call, a: Account)
    requires a.held == Held(t, c.kq)
    ensures var b := Apply(a, Seen(t, c));
      && b.stashed == a.stashed + multiset(ArrivalsOf(c, c.kq))
      && b.fates.delivered == a.fates.delivered + ReturnedBy(t, c, c.kq)
  {
    hide Held, PutAll, PutAllFates, Remove, Matching, Live, StaleOf, SlotFor;
    if c.request.Keep? { PutAllDelivers(a.held, c.request.evs, a.fates); }
  }

  /** The account books exactly the events that went in and those that came out. */
  lemma {:induction false} TableBooks(t: seq<Slot>, calls: seq<Call>, kq: int, a: Account)
    requires ValidTable(t) && Proper(calls) && kq != FREE && a.held == Held(t, kq)
    ensures var b := RunOps(a, Project(t, calls, kq));
      && b.stashed == a.stashed + multiset(Arrivals(calls, kq))
      && b.fates.delivered == a.fates.delivered + Returned(t, calls, kq)
    decreases |calls|
  {
    hide ValidTable, Served, Held, Apply, Seen, RunOps, ArrivalsOf, ReturnedBy;
    if |calls| > 0 {
      var c, rest := calls[0], calls[1..];
      var u := Served(t, c);
      ServedValid(t, c);
      if c.kq == kq {
        ServedOwn(t, c, a);
        SeenBooks(t, c, a);
        TableBooks(u, rest, kq, Apply(a, Seen(t, c)));
        RunCons(a, Seen(t, c), Project(u, rest, kq));
      } else {
        ServedOthers(t, c, kq);
        TableBooks(u, rest, kq, a);
        assert [] + Project(u, rest, kq) == Project(u, rest, kq);
        OtherBooks(t, c, kq);
      }
    } else {
      RunNone(a);
    }
  }

  lemma OtherBooks(t: seq<Slot>, c: Call, kq: int)
    requires c.kq != kq
    ensures ArrivalsOf(c, kq) == [] && ReturnedBy(t, c, kq) == multiset{}
  {}

  const EMPTY: seq<Slot> := seq(TABLE_SIZE, _ => Slot(FREE, []))
  const OPENED := Account([], NO_FATES, multiset{})

  lemma EmptyTable(kq: int)
    ensures ValidTable(EMPTY) && Held(EMPTY, kq) == [] && Balanced(OPENED) && ValidQueue(OPENED.held)
  {}

  /**
   * Over every run from the empty table, every event stashed for a kqueue was handed out by one
   * of its drains, replaced by a newer one of its key, invalidated, found on a closed
   * descriptor, dropped for lack of room, or is still held; and held keys are distinct.
   */
  lemma TableConserves(calls: seq<Call>, kq: int)
    requires Proper(calls) && kq != FREE
    ensures var t, f := RunTable(EMPTY, calls), RunOps(OPENED, Project(EMPTY, calls, kq)).fates;
      && ValidTable(t) && ValidQueue(Held(t, kq))
      && f.delivered == Returned(EMPTY, calls, kq)
      && multiset(Arrivals(calls, kq)) == Total(f) + multiset(Held(t, kq))
  {
    hide ValidTable, RunTable, Project, RunOps, Held, ValidQueue, Total;
    EmptyTable(kq);
    RunValid(EMPTY, calls);
    TableRefines(EMPTY, calls, kq, OPENED);
    TableBooks(EMPTY, calls, kq, OPENED);
    RunConserves(OPENED, Project(EMPTY, calls, kq));
    assert multiset{} + Returned(EMPTY, calls, kq) == Returned(EMPTY, calls, kq);
    assert multiset{} + multiset(Arrivals(calls, kq)) == multiset(Arrivals(calls, kq));
  }

  /** A stash goes unheard only if sixteen other kqueues own the table. */
  lemma NoSlotMeansFull(t: seq<Slot>, c: Call)
    requires ValidTable(t) && c.kq != FREE
    ensures Seen(t, c).NoSlot? ==>
      && (forall i :: 0 <= i < TABLE_SIZE ==> t[i].kq != FREE && t[i].kq != c.kq)
      && (forall i, j :: 0 <= i < j < TABLE_SIZE ==> t[i].kq != t[j].kq)
  {
    hide ValidQueue;
  }

  // --------------------------------------------------------- arrival order

  /** An event with the number of the arrival that put its key in the queue. */
  datatype Stamped = Stamped(ev: Event, born: nat)

  function Plain(q: seq<Stamped>): (r: seq<Event>)
    ensures |r| == |q| && forall i :: 0 <= i < |q| ==> r[i] == q[i].ev
  {
    seq(|q|, i requires 0 <= i < |q| => q[i].ev)
  }

  /** now: the number of this arrival. */
  function StampPut(q: seq<Stamped>, e: Event, now: nat): seq<Stamped> {
    var n := Find(Plain(q), e);
    if n < |q| then q[n := Stamped(e, q[n].born)] else if |q| < MAX_PENDING then q + [Stamped(e, now)] else q
  }

  function StampPutAll(q: seq<Stamped>, evs: seq<Event>, now: nat): seq<Stamped>
    decreases |evs|
  {
    if |evs| == 0 then q else StampPutAll(StampPut(q, evs[0], now), evs[1..], now + 1)
  }

  function StampRemove(q: seq<Stamped>, ident: nat, filter: int): seq<Stamped> {
    if |q| == 0 then []
    else (if Matches(q[0].ev, ident, filter) then [] else [q[0]]) + StampRemove(q[1..], ident, filter)
  }

  /** The queue and all arrivals so far. */
  datatype History = History(q: seq<Stamped>, arrived: seq<Event>)

  function Record(h: History, op: Op): History {
    match op
    case Stash(evs) => History(StampPutAll(h.q, evs, |h.arrived|), h.arrived + evs)
    case NoSlot(evs) => h.(arrived := h.arrived + evs)
    case Invalidate(ident, filter) => h.(q := StampRemove(h.q, ident, filter))
    case Wait(max, closed) => h.(q := h.q[Taken(Plain(h.q), max)..])
  }

  function RecordAll(h: History, ops: seq<Op>): History
    decreases |ops|
  {
    if |ops| == 0 then h else RecordAll(Record(h, ops[0]), ops[1..])
  }

  /** In order of arrival, each entry with the key of the arrival that opened it. */
  ghost predicate InOrder(q: seq<Stamped>, arrived: seq<Event>) {
    && (forall i :: 0 <= i < |q| ==> q[i].born < |arrived| && SameKey(arrived[q[i].born], q[i].ev))
    && forall i, j :: 0 <= i < j < |q| ==> q[i].born < q[j].born
  }

  lemma PlainAppend(q: seq<Stamped>, x: Stamped)
    ensures Plain(q + [x]) == Plain(q) + [x.ev]
    ensures Plain([x] + q) == [x.ev] + Plain(q)
  {}

  lemma StampPutPlain(q: seq<Stamped>, e: Event, now: nat)
    ensures Plain(StampPut(q, e, now)) == Put(Plain(q), e)
  {
    var n := Find(Plain(q), e);
    if n < |q| {
      assert Plain(q[n := Stamped(e, q[n].born)]) == Plain(q)[n := e];
    } else {
      PlainAppend(q, Stamped(e, now));
    }
  }

  lemma StampPutOrder(q: seq<Stamped>, e: Event, arrived: seq<Event>)
    requires InOrder(q, arrived)
    ensures InOrder(StampPut(q, e, |arrived|), arrived + [e])
  {
    var n := Find(Plain(q), e);
    var r, more := StampPut(q, e, |arrived|), arrived + [e];
    forall i | 0 <= i < |r|
      ensures r[i].born < |more| && SameKey(more[r[i].born], r[i].ev)
    {
      if i < |q| { assert r[i].born == q[i].born; }
    }
  }

  lemma {:induction false} StampPutAllKeeps(q: seq<Stamped>, evs: seq<Event>, arrived: seq<Event>)
    requires InOrder(q, arrived)
    ensures var r := StampPutAll(q, evs, |arrived|);
      Plain(r) == PutAll(Plain(q), evs) && InOrder(r, arrived + evs)
    decreases |evs|
  {
    hide InOrder, StampPut, Put;
    if |evs| == 0 {
      assert arrived + evs == arrived;
    } else {
      StampPutPlain(q, evs[0], |arrived|);
      StampPutOrder(q, evs[0], arrived);
      StampPutAllKeeps(StampPut(q, evs[0], |arrived|), evs[1..], arrived + [evs[0]]);
      assert arrived + [evs[0]] + evs[1..] == arrived + evs;
    }
  }

  lemma {:induction false} StampRemovePlain(q: seq<Stamped>, ident: nat, filter: int)
    ensures Plain(StampRemove(q, ident, filter)) == Remove(Plain(q), ident, filter)
  {
    hide Matches;
    if |q| > 0 {
      StampRemovePlain(q[1..], ident, filter);
      assert Plain(q)[1..] == Plain(q[1..]);
      PlainAppend(StampRemove(q[1..], ident, filter), q[0]);
    }
  }

  lemma {:induction false} StampRemoveOrder(q: seq<Stamped>, ident: nat, filter: int, arrived: seq<Event>)
    requires InOrder(q, arrived)
    ensures InOrder(StampRemove(q, ident, filter), arrived)
    ensures forall x :: x in StampRemove(q, ident, filter) ==> x in q
  {
    hide Matches, InOrder;
    if |q| > 0 {
      var rest := StampRemove(q[1..], ident, filter);
      OrderTail(q, 1, arrived);
      StampRemoveOrder(q[1..], ident, filter, arrived);
      OrderFront(q, rest, arrived);
      assert [] + rest == rest;
    }
  }

  lemma OrderTail(q: seq<Stamped>, k: nat, arrived: seq<Event>)
    requires InOrder(q, arrived) && k <= |q|
    ensures InOrder(q[k..], arrived)
  {}

  lemma OrderFront(q: seq<Stamped>, r: seq<Stamped>, arrived: seq<Event>)
    requires InOrder(q, arrived) && |q| > 0 && InOrder(r, arrived) && forall x :: x in r ==> x in q[1..]
    ensures InOrder([q[0]] + r, arrived)
    ensures forall x :: x in [q[0]] + r ==> x in q
  {
    var s := [q[0]] + r;
    forall j | 0 < j < |s|
      ensures s[0].born < s[j].born
    {
      assert r[j - 1] in r;
      var k :| 0 <= k < |q[1..]| && q[1..][k] == r[j - 1];
      assert q[k + 1] == s[j];
    }
  }

  lemma RecordKeeps(h: History, a: Account, op: Op)
    requires InOrder(h.q, h.arrived) && Plain(h.q) == a.held
    ensures InOrder(Record(h, op).q, Record(h, op).arrived) && Plain(Record(h, op).q) == Apply(a, op).held
  {
    hide StampPutAll, StampRemove, PutAll, PutAllFates, Remove, Matching, Live, StaleOf, InOrder;
    match op
    case Stash(evs) => StampPutAllKeeps(h.q, evs, h.arrived);
    case NoSlot(evs) => MoreArrived(h.q, h.arrived, evs);
    case Invalidate(ident, filter) =>
      StampRemovePlain(h.q, ident, filter);
      StampRemoveOrder(h.q, ident, filter, h.arrived);
    case Wait(max, closed) =>
      var k := Taken(a.held, max);
      OrderTail(h.q, k, h.arrived);
      assert Plain(h.q[k..]) == Plain(h.q)[k..];
  }

  lemma MoreArrived(q: seq<Stamped>, arrived: seq<Event>, evs: seq<Event>)
    requires InOrder(q, arrived)
    ensures InOrder(q, arrived + evs)
  {
    forall i | 0 <= i < |q|
      ensures SameKey((arrived + evs)[q[i].born], q[i].ev)
    {}
  }

  lemma {:induction false} RecordAllKeeps(h: History, a: Account, ops: seq<Op>)
    requires InOrder(h.q, h.arrived) && Plain(h.q) == a.held
    ensures var r := RecordAll(h, ops); InOrder(r.q, r.arrived) && Plain(r.q) == RunOps(a, ops).held
    decreases |ops|
  {
    hide InOrder, Record, Apply;
    if |ops| > 0 {
      RecordKeeps(h, a, ops[0]);
      RecordAllKeeps(Record(h, ops[0]), Apply(a, ops[0]), ops[1..]);
    }
  }

  lemma RecordCons(h: History, op: Op, ops: seq<Op>)
    ensures RecordAll(h, [op] + ops) == RecordAll(Record(h, op), ops)
  {
    hide Record;
    assert ([op] + ops)[1..] == ops;
  }

  lemma RecordSeen(t: seq<Slot>, c: Call, h: History)
    ensures Record(h, Seen(t, c)).arrived == h.arrived + ArrivalsOf(c, c.kq)
  {
    hide StampPutAll, StampRemove, SlotFor;
  }

  /** The history has recorded the events of the calls for kq, and in their order. */
  lemma {:induction false} RecordedArrivals(t: seq<Slot>, calls: seq<Call>, kq: int, h: History)
    ensures RecordAll(h, Project(t, calls, kq)).arrived == h.arrived + Arrivals(calls, kq)
    decreases |calls|
  {
    hide Served, Seen, Record, ArrivalsOf;
    if |calls| > 0 {
      var c, rest := calls[0], calls[1..];
      var u := Served(t, c);
      if c.kq == kq {
        RecordSeen(t, c, h);
        RecordedArrivals(u, rest, kq, Record(h, Seen(t, c)));
        RecordCons(h, Seen(t, c), Project(u, rest, kq));
        var here := ArrivalsOf(c, kq);
        assert h.arrived + here + Arrivals(rest, kq) == h.arrived + (here + Arrivals(rest, kq));
      } else {
        RecordedArrivals(u, rest, kq, h);
        assert [] + Project(u, rest, kq) == Project(u, rest, kq);
        OtherBooks(t, c, kq);
        assert [] + Arrivals(rest, kq) == Arrivals(rest, kq);
      }
    } else {
      assert h.arrived + [] == h.arrived;
    }
  }

  /** Over every run, what a kqueue holds is in the order in which its keys first arrived. */
  lemma TableInArrivalOrder(calls: seq<Call>, kq: int)
    requires Proper(calls) && kq != FREE
    ensures var q := RecordAll(History([], []), Project(EMPTY, calls, kq)).q;
      Held(RunTable(EMPTY, calls), kq) == Plain(q) && InOrder(q, Arrivals(calls, kq))
  {
    hide ValidTable, RunTable, Project, RunOps, RecordAll, Held;
    EmptyTable(kq);
    TableRefines(EMPTY, calls, kq, OPENED);
    RecordAllKeeps(History([], []), OPENED, Project(EMPTY, calls, kq));
    RecordedArrivals(EMPTY, calls, kq, History([], []));
    assert [] + Arrivals(calls, kq) == Arrivals(calls, kq);
  }
}
