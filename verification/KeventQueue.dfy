/**
 * The events held back per kqueue, as values: an ordered map keyed by (ident, filter) for each
 * kqueue, the table that stores sixteen of them, and what happens to every event over a run.
 */
module KeventQueue {

  const TABLE_SIZE := 16
  const MAX_PENDING := 32
  const FREE := -1

  datatype Event = Event(ident: nat, filter: int, flags: nat, data: int, udata: nat)

  predicate SameKey(a: Event, b: Event) { a.ident == b.ident && a.filter == b.filter }

  // ------------------------------------------------------------ one queue

  /** Index of the event with e's key, or |q|. */
  function Find(q: seq<Event>, e: Event): (n: nat)
    ensures n <= |q|
    ensures n < |q| ==> SameKey(q[n], e)
    ensures forall i :: 0 <= i < n ==> !SameKey(q[i], e)
  {
    if |q| == 0 || SameKey(q[0], e) then 0 else 1 + Find(q[1..], e)
  }

  /** One event stashed: coalesced with its key's, appended, or dropped when full. */
  function Put(q: seq<Event>, e: Event): seq<Event> {
    var n := Find(q, e);
    if n < |q| then q[n := e] else if |q| < MAX_PENDING then q + [e] else q
  }

  function PutAll(q: seq<Event>, evs: seq<Event>): seq<Event>
    decreases |evs|
  {
    if |evs| == 0 then q else PutAll(Put(q, evs[0]), evs[1..])
  }

  predicate Matches(e: Event, ident: nat, filter: int) { e.ident == ident && e.filter == filter }

  function Remove(q: seq<Event>, ident: nat, filter: int): seq<Event> {
    if |q| == 0 then []
    else (if Matches(q[0], ident, filter) then [] else [q[0]]) + Remove(q[1..], ident, filter)
  }

  const EVFILT_READ := -1
  const EVFILT_WRITE := -2
  const EVFILT_VNODE := -4

  /** A filter on a descriptor, and that descriptor is closed. */
  predicate Stale(e: Event, closed: set<nat>) {
    (e.filter == EVFILT_READ || e.filter == EVFILT_WRITE || e.filter == EVFILT_VNODE) && e.ident in closed
  }

  function Live(q: seq<Event>, closed: set<nat>): (r: seq<Event>)
    ensures |r| <= |q|
  {
    if |q| == 0 then [] else (if Stale(q[0], closed) then [] else [q[0]]) + Live(q[1..], closed)
  }

  function Taken(q: seq<Event>, max: nat): nat { if |q| > max then max else |q| }

  ghost predicate DistinctKeys(q: seq<Event>) {
    forall i, j :: 0 <= i < j < |q| ==> !SameKey(q[i], q[j])
  }

  ghost predicate ValidQueue(q: seq<Event>) { DistinctKeys(q) && |q| <= MAX_PENDING }

  lemma PutValid(q: seq<Event>, e: Event)
    requires ValidQueue(q)
    ensures ValidQueue(Put(q, e))
  {}

  /** Keys keep the order of their first insertion, and the newest event of a key is held. */
  lemma PutMeaning(q: seq<Event>, e: Event)
    requires ValidQueue(q)
    ensures var r := Put(q, e);
      && |r| >= |q|
      && (forall i :: 0 <= i < |q| ==> SameKey(r[i], q[i]) && (!SameKey(q[i], e) ==> r[i] == q[i]))
      && (Find(q, e) < |q| || |q| < MAX_PENDING ==> e in r)
      && (forall x :: x in r && SameKey(x, e) ==> x == e)
  {
    var n := Find(q, e);
    var r := Put(q, e);
    if n < |q| { assert r[n] == e; } else if |q| < MAX_PENDING { assert r[|q|] == e; }
  }

  lemma {:induction false} PutAllValid(q: seq<Event>, evs: seq<Event>)
    requires ValidQueue(q)
    ensures ValidQueue(PutAll(q, evs))
    decreases |evs|
  {
    hide ValidQueue, Put;
    if |evs| > 0 {
      PutValid(q, evs[0]);
      PutAllValid(Put(q, evs[0]), evs[1..]);
    }
  }

  /** Exactly the events that do not match remain, and keys stay distinct. */
  lemma {:induction false} RemoveMeaning(q: seq<Event>, ident: nat, filter: int)
    ensures |Remove(q, ident, filter)| <= |q|
    ensures forall x :: x in Remove(q, ident, filter) <==> x in q && !Matches(x, ident, filter)
    ensures DistinctKeys(q) ==> DistinctKeys(Remove(q, ident, filter))
  {
    if |q| > 0 {
      RemoveMeaning(q[1..], ident, filter);
      assert q == [q[0]] + q[1..];
      if DistinctKeys(q) { DistinctTail(q); DistinctFront(q[0], q[1..], Remove(q[1..], ident, filter)); }
    }
  }

  lemma DistinctTail(q: seq<Event>)
    requires |q| > 0 && DistinctKeys(q)
    ensures DistinctKeys(q[1..]) && forall x :: x in q[1..] ==> !SameKey(q[0], x)
  {}

  lemma DistinctFront(a: Event, q: seq<Event>, r: seq<Event>)
    requires DistinctKeys(r) && (forall x :: x in r ==> x in q) && forall x :: x in q ==> !SameKey(a, x)
    ensures DistinctKeys([a] + r)
  {
    assert forall i :: 0 <= i < |r| ==> r[i] in r;
  }

  lemma {:induction false} LiveMeaning(q: seq<Event>, closed: set<nat>)
    ensures forall x :: x in Live(q, closed) <==> x in q && !Stale(x, closed)
    ensures DistinctKeys(q) ==> DistinctKeys(Live(q, closed))
  {
    hide Stale;
    if |q| > 0 {
      LiveMeaning(q[1..], closed);
      assert q == [q[0]] + q[1..];
      if DistinctKeys(q) { DistinctTail(q); DistinctFront(q[0], q[1..], Live(q[1..], closed)); }
    }
  }

  // ------------------------------------------------------------ the table

  datatype Slot = Slot(kq: int, q: seq<Event>)

  /** The slot of kq; failing that the first free one; failing that |t|. */
  function SlotOf(t: seq<Slot>, kq: int): (n: nat)
    ensures n <= |t|
    ensures n < |t| ==> t[n].kq == kq
    ensures forall i :: 0 <= i < n ==> t[i].kq != kq
  {
    if |t| == 0 || t[0].kq == kq then 0 else 1 + SlotOf(t[1..], kq)
  }

  function SlotFor(t: seq<Slot>, kq: int): (n: nat)
    ensures n <= |t|
  {
    if SlotOf(t, kq) < |t| then SlotOf(t, kq) else SlotOf(t, FREE)
  }

  ghost predicate ValidTable(t: seq<Slot>) {
    && |t| == TABLE_SIZE
    && (forall i :: 0 <= i < |t| ==> ValidQueue(t[i].q) && (t[i].kq == FREE ==> t[i].q == []))
    && forall i, j :: 0 <= i < j < |t| && t[i].kq == t[j].kq ==> t[i].kq == FREE
  }

  /** The abstract view: each kqueue's held events. */
  function Held(t: seq<Slot>, kq: int): seq<Event> {
    var n := SlotOf(t, kq);
    if n < |t| then t[n].q else []
  }

  predicate AllEmpty(t: seq<Slot>) { forall i :: 0 <= i < |t| ==> t[i].q == [] }

  function Stashed(t: seq<Slot>, kq: int, evs: seq<Event>): seq<Slot> {
    var n := SlotFor(t, kq);
    if n < |t| then t[n := Slot(kq, PutAll(t[n].q, evs))] else t
  }

  function Invalidated(t: seq<Slot>, kq: int, ident: nat, filter: int): seq<Slot> {
    var n := SlotOf(t, kq);
    if n < |t| then t[n := t[n].(q := Remove(t[n].q, ident, filter))] else t
  }

  function Drained(t: seq<Slot>, kq: int, max: nat): seq<Slot> {
    var n := SlotOf(t, kq);
    if n < |t| then t[n := t[n].(q := t[n].q[Taken(t[n].q, max)..])] else t
  }

  function Delivered(t: seq<Slot>, kq: int, max: nat, closed: set<nat>): seq<Event> {
    Live(Held(t, kq)[..Taken(Held(t, kq), max)], closed)
  }

  lemma SlotUnique(t: seq<Slot>, kq: int, i: nat)
    requires ValidTable(t) && kq != FREE && i < |t| && t[i].kq == kq
    ensures SlotOf(t, kq) == i
  {
    hide ValidQueue;
  }

  /** Replacing the queue in kq's own slot changes what kq holds and nothing else. */
  lemma SlotReplaced(t: seq<Slot>, n: nat, kq: int, q: seq<Event>, other: int)
    requires ValidTable(t) && kq != FREE && n < |t| && ValidQueue(q)
    requires t[n].kq == kq || (t[n].kq == FREE && SlotOf(t, kq) == |t|)
    ensures var r := t[n := Slot(kq, q)];
      ValidTable(r) && Held(r, kq) == q && (other != kq && other != FREE ==> Held(r, other) == Held(t, other))
  {
    hide ValidQueue;
    var r := t[n := Slot(kq, q)];
    assert ValidTable(r);
    SlotUnique(r, kq, n);
    if other != kq && other != FREE { OtherKept(t, r, n, other); }
  }

  lemma OtherKept(t: seq<Slot>, r: seq<Slot>, n: nat, other: int)
    requires |r| == |t| && n < |t| && r == t[n := r[n]] && t[n].kq != other && r[n].kq != other
    ensures Held(r, other) == Held(t, other)
  {
    var a, b := SlotOf(t, other), SlotOf(r, other);
    if a < |t| { assert r[a] == t[a]; }
    if b < |r| { assert r[b] == t[b]; }
  }

  lemma HeldValid(t: seq<Slot>, kq: int)
    requires ValidTable(t)
    ensures ValidQueue(Held(t, kq))
  {}

  /** Stashing is inserting into kq's ordered map, unless all sixteen slots belong to others. */
  lemma StashRefines(t: seq<Slot>, kq: int, evs: seq<Event>, other: int)
    requires ValidTable(t) && kq != FREE
    ensures ValidTable(Stashed(t, kq, evs))
    ensures SlotFor(t, kq) < |t| ==> Held(Stashed(t, kq, evs), kq) == PutAll(Held(t, kq), evs)
    ensures SlotFor(t, kq) == |t| ==> Stashed(t, kq, evs) == t && Held(t, kq) == []
    ensures other != kq && other != FREE ==> Held(Stashed(t, kq, evs), other) == Held(t, other)
  {
    hide ValidQueue, PutAll;
    var n := SlotFor(t, kq);
    if n < |t| {
      QueueAt(t, n);
      assert t[n].q == Held(t, kq) by { FreeSlotEmpty(t, kq); }
      PutAllValid(t[n].q, evs);
      SlotReplaced(t, n, kq, PutAll(t[n].q, evs), other);
    }
  }

  lemma QueueAt(t: seq<Slot>, n: nat)
    requires ValidTable(t) && n < |t|
    ensures ValidQueue(t[n].q)
  {}

  lemma FreeSlotEmpty(t: seq<Slot>, kq: int)
    requires ValidTable(t) && SlotFor(t, kq) < |t|
    ensures t[SlotFor(t, kq)].q == Held(t, kq)
  {
    hide ValidQueue;
  }

  lemma InvalidateRefines(t: seq<Slot>, kq: int, ident: nat, filter: int, other: int)
    requires ValidTable(t) && kq != FREE
    ensures ValidTable(Invalidated(t, kq, ident, filter))
    ensures Held(Invalidated(t, kq, ident, filter), kq) == Remove(Held(t, kq), ident, filter)
    ensures other != kq && other != FREE ==> Held(Invalidated(t, kq, ident, filter), other) == Held(t, other)
  {
    hide ValidQueue, Remove;
    var n := SlotOf(t, kq);
    if n < |t| {
      QueueAt(t, n);
      RemoveValid(t[n].q, ident, filter);
      SlotReplaced(t, n, kq, Remove(t[n].q, ident, filter), other);
    } else {
      RemoveNothing(ident, filter);
    }
  }

  lemma RemoveValid(q: seq<Event>, ident: nat, filter: int)
    requires ValidQueue(q)
    ensures ValidQueue(Remove(q, ident, filter))
  {
    RemoveMeaning(q, ident, filter);
  }

  lemma RemoveNothing(ident: nat, filter: int)
    ensures Remove([], ident, filter) == []
  {}

  lemma DrainRefines(t: seq<Slot>, kq: int, max: nat, other: int)
    requires ValidTable(t) && kq != FREE
    ensures ValidTable(Drained(t, kq, max))
    ensures Held(Drained(t, kq, max), kq) == Held(t, kq)[Taken(Held(t, kq), max)..]
    ensures other != kq && other != FREE ==> Held(Drained(t, kq, max), other) == Held(t, other)
  {
    hide ValidQueue;
    var n := SlotOf(t, kq);
    if n < |t| {
      QueueAt(t, n);
      SuffixValid(t[n].q, Taken(t[n].q, max));
      SlotReplaced(t, n, kq, t[n].q[Taken(t[n].q, max)..], other);
    }
  }

  lemma SuffixValid(q: seq<Event>, k: nat)
    requires ValidQueue(q) && k <= |q|
    ensures ValidQueue(q[k..])
  {}

  // ------------------------------------------------- where every event goes

  /** Everything that can become of a stashed event. */
  datatype Fates = Fates(delivered: multiset<Event>, overwritten: multiset<Event>, invalidated: multiset<Event>,
                         stale: multiset<Event>, dropped: multiset<Event>)

  const NO_FATES := Fates(multiset{}, multiset{}, multiset{}, multiset{}, multiset{})

  function Total(f: Fates): multiset<Event> {
    f.delivered + f.overwritten + f.invalidated + f.stale + f.dropped
  }

  function PutFate(q: seq<Event>, e: Event, f: Fates): Fates {
    var n := Find(q, e);
    if n < |q| then f.(overwritten := f.overwritten + multiset{q[n]})
    else if |q| < MAX_PENDING then f
    else f.(dropped := f.dropped + multiset{e})
  }

  function PutAllFates(q: seq<Event>, evs: seq<Event>, f: Fates): Fates
    decreases |evs|
  {
    if |evs| == 0 then f else PutAllFates(Put(q, evs[0]), evs[1..], PutFate(q, evs[0], f))
  }

  function Matching(q: seq<Event>, ident: nat, filter: int): multiset<Event> {
    if |q| == 0 then multiset{}
    else (if Matches(q[0], ident, filter) then multiset{q[0]} else multiset{}) + Matching(q[1..], ident, filter)
  }

  function StaleOf(q: seq<Event>, closed: set<nat>): multiset<Event> {
    if |q| == 0 then multiset{}
    else (if Stale(q[0], closed) then multiset{q[0]} else multiset{}) + StaleOf(q[1..], closed)
  }

  /** One operation on one kqueue; NoSlot is a stash with every slot owned by other kqueues. */
  datatype Op = Stash(evs: seq<Event>) | NoSlot(evs: seq<Event>) | Invalidate(ident: nat, filter: int)
      | Wait(max: nat, closed: set<nat>)

  /** What one kqueue holds, and the fates of what it no longer holds. */
  datatype Account = Account(held: seq<Event>, fates: Fates, stashed: multiset<Event>)

  function Apply(a: Account, op: Op): Account {
    match op
    case Stash(evs) =>
      Account(PutAll(a.held, evs), PutAllFates(a.held, evs, a.fates), a.stashed + multiset(evs))
    case NoSlot(evs) =>
      a.(fates := a.fates.(dropped := a.fates.dropped + multiset(evs)), stashed := a.stashed + multiset(evs))
    case Invalidate(ident, filter) =>
      a.(held := Remove(a.held, ident, filter),
         fates := a.fates.(invalidated := a.fates.invalidated + Matching(a.held, ident, filter)))
    case Wait(max, closed) =>
      var n := Taken(a.held, max);
      a.(held := a.held[n..],
         fates := a.fates.(delivered := a.fates.delivered + multiset(Live(a.held[..n], closed)),
                           stale := a.fates.stale + StaleOf(a.held[..n], closed)))
  }

  function RunOps(a: Account, ops: seq<Op>): Account
    decreases |ops|
  {
    if |ops| == 0 then a else RunOps(Apply(a, ops[0]), ops[1..])
  }

  ghost predicate Balanced(a: Account) { a.stashed == Total(a.fates) + multiset(a.held) }

  lemma PutBalance(q: seq<Event>, e: Event, f: Fates)
    ensures Total(PutFate(q, e, f)) + multiset(Put(q, e)) == Total(f) + multiset(q) + multiset{e}
  {
    var n := Find(q, e);
    if n < |q| {
      assert multiset(q[n := e]) == multiset(q) - multiset{q[n]} + multiset{e};
      assert q[n] in multiset(q);
    }
  }

  lemma {:induction false} PutAllBalance(q: seq<Event>, evs: seq<Event>, f: Fates)
    ensures Total(PutAllFates(q, evs, f)) + multiset(PutAll(q, evs)) == Total(f) + multiset(q) + multiset(evs)
    decreases |evs|
  {
    hide Total, Put, PutFate;
    if |evs| > 0 {
      PutBalance(q, evs[0], f);
      PutAllBalance(Put(q, evs[0]), evs[1..], PutFate(q, evs[0], f));
      assert evs == [evs[0]] + evs[1..];
    }
  }

  /** One event at the front of a queue, kept or taken out. */
  lemma FrontBalance(q: seq<Event>, e: Event, tail: seq<Event>, kept: seq<Event>, out: multiset<Event>)
    requires q == [e] + tail && multiset(tail) == multiset(kept) + out
    ensures multiset(q) == multiset(kept) + (multiset{e} + out)
    ensures multiset(q) == multiset([e] + kept) + out
  {}

  lemma FrontKept(q: seq<Event>)
    requires |q| > 0
    ensures q == [q[0]] + q[1..]
  {}

  lemma NothingOut(kept: seq<Event>, out: multiset<Event>)
    ensures [] + kept == kept && multiset{} + out == out
  {}

  lemma {:induction false} RemoveBalance(q: seq<Event>, ident: nat, filter: int)
    ensures multiset(q) == multiset(Remove(q, ident, filter)) + Matching(q, ident, filter)
  {
    if |q| > 0 {
      RemoveBalance(q[1..], ident, filter);
      var kept, out := Remove(q[1..], ident, filter), Matching(q[1..], ident, filter);
      assert Remove(q, ident, filter) == (if Matches(q[0], ident, filter) then [] else [q[0]]) + kept;
      assert Matching(q, ident, filter) == (if Matches(q[0], ident, filter) then multiset{q[0]} else multiset{}) + out;
      hide Remove, Matching;
      FrontKept(q);
      NothingOut(kept, out);
      FrontBalance(q, q[0], q[1..], kept, out);
    }
  }

  lemma {:induction false} LiveBalance(q: seq<Event>, closed: set<nat>)
    ensures multiset(q) == multiset(Live(q, closed)) + StaleOf(q, closed)
  {
    hide Stale;
    if |q| > 0 {
      LiveBalance(q[1..], closed);
      var kept, out := Live(q[1..], closed), StaleOf(q[1..], closed);
      assert Live(q, closed) == (if Stale(q[0], closed) then [] else [q[0]]) + kept;
      assert StaleOf(q, closed) == (if Stale(q[0], closed) then multiset{q[0]} else multiset{}) + out;
      hide Live, StaleOf;
      FrontKept(q);
      NothingOut(kept, out);
      FrontBalance(q, q[0], q[1..], kept, out);
    }
  }

  lemma ApplyBalance(a: Account, op: Op)
    requires Balanced(a)
    ensures Balanced(Apply(a, op))
  {
    hide Live, StaleOf, Remove, Matching, PutAll, PutAllFates;
    match op
    case Stash(evs) => PutAllBalance(a.held, evs, a.fates);
    case NoSlot(evs) =>
    case Invalidate(ident, filter) => RemoveBalance(a.held, ident, filter);
    case Wait(max, closed) =>
      var n := Taken(a.held, max);
      LiveBalance(a.held[..n], closed);
      assert a.held == a.held[..n] + a.held[n..];
  }

  lemma ApplyValid(a: Account, op: Op)
    requires ValidQueue(a.held)
    ensures ValidQueue(Apply(a, op).held)
  {
    hide ValidQueue, Live, StaleOf, Remove, Matching, PutAll, PutAllFates;
    match op
    case Stash(evs) => PutAllValid(a.held, evs);
    case NoSlot(evs) =>
    case Invalidate(ident, filter) => RemoveValid(a.held, ident, filter);
    case Wait(max, closed) => SuffixValid(a.held, Taken(a.held, max));
  }

  /**
   * Over every run, each stashed event is delivered once, replaced by a newer one of its key,
   * invalidated, found on a closed descriptor, dropped for lack of room, or still held; and
   * the keys held stay distinct.
   */
  lemma {:induction false} RunConserves(a: Account, ops: seq<Op>)
    requires Balanced(a) && ValidQueue(a.held)
    ensures Balanced(RunOps(a, ops)) && ValidQueue(RunOps(a, ops).held)
    decreases |ops|
  {
    hide Balanced, ValidQueue, Apply;
    if |ops| > 0 {
      ApplyBalance(a, ops[0]);
      ApplyValid(a, ops[0]);
      RunConserves(Apply(a, ops[0]), ops[1..]);
    }
  }
}
