/** kevent64_wrapper around the stash: registrations hold events back, waits deliver them. */
module KeventShim {
  import opened KeventQueue
  import opened KeventStash

  const EV_ERROR := 0x4000

  predicate IsError(e: Event) { (e.flags / EV_ERROR) % 2 == 1 }

  function Errors(k: seq<Event>): seq<Event> {
    if |k| == 0 then [] else (if IsError(k[0]) then [k[0]] else []) + Errors(k[1..])
  }

  function Fires(k: seq<Event>): seq<Event> {
    if |k| == 0 then [] else (if IsError(k[0]) then [] else [k[0]]) + Fires(k[1..])
  }

  /** What one call can hold back. */
  function Held32(k: seq<Event>): seq<Event> { if |k| > MAX_PENDING then k[..MAX_PENDING] else k }

  /** The kernel's answer: a count, or a negative error with no events. */
  datatype Kernel = Failed(rc: int) | Events(list: seq<Event>)

  /** The stash between calls. */
  ghost predicate Sound(st: Stash)
    reads st, st.kqs, st.counts, st.evs
  {
    st.Valid() && ValidTable(st.Table()) && (!st.any ==> AllEmpty(st.Table()))
  }

  lemma StashedSound(t: seq<Slot>, kq: int, evs: seq<Event>, any: bool)
    requires ValidTable(t) && kq != FREE && (!any ==> AllEmpty(t))
    ensures ValidTable(Stashed(t, kq, evs))
    ensures !(any || SlotFor(t, kq) < TABLE_SIZE) ==> AllEmpty(Stashed(t, kq, evs))
  {
    StashRefines(t, kq, evs, kq);
  }

  /** Case 1: a registration with error events only; the other fires wait for the next wait. */
  method Register(st: Stash, kq: int, answer: Kernel) returns (rc: int, out: seq<Event>)
    requires Sound(st) && kq != FREE && (answer.Failed? ==> answer.rc < 0)
    modifies st.kqs, st.counts, st.evs, st`any
    ensures Sound(st)
    ensures answer.Failed? ==> rc == answer.rc && out == [] && st.Table() == old(st.Table())
    ensures answer.Events? ==> out == Errors(answer.list) && rc == |out|
    ensures answer.Events? ==>
      st.Table() == if Fires(answer.list) == [] then old(st.Table())
                    else Stashed(old(st.Table()), kq, Held32(Fires(answer.list)))
  {
    hide ValidTable, AllEmpty, Stashed, Errors, Fires, IsError, SlotFor, Held32;
    out := [];
    if answer.Failed? { return answer.rc, []; }
    var k := answer.list;
    var toStash: seq<Event> := [];
    var i := 0;
    ghost var held: seq<Event> := [];
    assert k[0..] == k && [] + Errors(k) == Errors(k) && [] + Fires(k) == Fires(k);
    NoneHeld();
    while i < |k|
      invariant 0 <= i <= |k| && toStash == Held32(held)
      invariant out + Errors(k[i..]) == Errors(k) && held + Fires(k[i..]) == Fires(k)
      modifies {}
    {
      SplitStep(k, i, out, held);
      if IsError(k[i]) {
        out := out + [k[i]];
      } else {
        HeldStep(held, k[i]);
        if |toStash| < MAX_PENDING { toStash := toStash + [k[i]]; }
        held := held + [k[i]];
      }
      i := i + 1;
    }
    SplitStep(k, i, out, held);
    rc := |out|;
    SomeHeld(held);
    if |toStash| > 0 {
      StashedSound(st.Table(), kq, toStash, st.any);
      st.StashEvents(kq, toStash);
    }
  }

  lemma SplitStep(k: seq<Event>, i: nat, out: seq<Event>, held: seq<Event>)
    requires i <= |k|
    ensures i == |k| ==> out + Errors(k[i..]) == out && held + Fires(k[i..]) == held
    ensures i < |k| ==>
      && out + Errors(k[i..]) == (if IsError(k[i]) then out + [k[i]] else out) + Errors(k[i + 1..])
      && held + Fires(k[i..]) == (if IsError(k[i]) then held else held + [k[i]]) + Fires(k[i + 1..])
  {
    hide IsError;
    if i < |k| { assert k[i..][0] == k[i] && k[i..][1..] == k[i + 1..]; }
  }

  lemma NoneHeld()
    ensures Held32([]) == []
  {}

  lemma SomeHeld(held: seq<Event>)
    ensures Held32(held) == [] <==> held == []
    ensures |Held32(held)| <= MAX_PENDING
  {}

  lemma HeldStep(held: seq<Event>, e: Event)
    ensures Held32(held + [e]) == if |Held32(held)| < MAX_PENDING then Held32(held) + [e] else Held32(held)
  {
    if |held| >= MAX_PENDING { assert (held + [e])[..MAX_PENDING] == held[..MAX_PENDING]; }
  }

  // ------------------------------------------------------------- waiting

  predicate HasKey(q: seq<Event>, e: Event) { exists i :: 0 <= i < |q| && SameKey(q[i], e) }

  /** The kernel's events whose key was not delivered from the stash. */
  function Fresh(d: seq<Event>, k: seq<Event>): (r: seq<Event>)
    ensures |r| <= |k|
  {
    if |k| == 0 then [] else (if HasKey(d, k[0]) then [] else [k[0]]) + Fresh(d, k[1..])
  }

  function WaitList(d: seq<Event>, answer: Kernel): seq<Event> {
    if answer.Failed? then d else d + Fresh(d, answer.list)
  }

  /** Compacting the duplicates out of the kernel's part of the list, in place. */
  method DropDuplicates(list: array<Event>, kept: nat, n: nat) returns (w: nat)
    requires kept + n <= list.Length
    modifies list
    ensures w <= n && list[..kept] == old(list[..kept])
    ensures list[kept..kept + w] == Fresh(old(list[..kept]), old(list[kept..kept + n]))
  {
    hide HasKey, Fresh, SameKey;
    ghost var d, k := list[..kept], list[kept..kept + n];
    ghost var done: seq<Event> := [];
    w := 0;
    var i := 0;
    assert k[0..] == k && [] + Fresh(d, k) == Fresh(d, k);
    while i < n
      invariant 0 <= w <= i <= n && |done| == w
      invariant forall j :: 0 <= j < kept ==> list[j] == d[j]
      invariant forall j :: 0 <= j < w ==> list[kept + j] == done[j]
      invariant forall j :: i <= j < n ==> list[kept + j] == k[j]
      invariant done + Fresh(d, k[i..]) == Fresh(d, k)
    {
      FreshStep(d, k, i, done);
      var e := list[kept + i];
      var dup := Contains(list, kept, e);
      assert list[..kept] == d;
      if !dup {
        MoveEvent(list, kept + i, kept + w);
        done := done + [e];
        w := w + 1;
      }
      i := i + 1;
    }
    FreshStep(d, k, i, done);
    assert list[kept..kept + w] == done;
  }

  method MoveEvent(list: array<Event>, from: nat, to: nat)
    requires to <= from < list.Length
    modifies list
    ensures list[to] == old(list[from])
    ensures forall k :: 0 <= k < list.Length && k != to ==> list[k] == old(list[k])
  {
    list[to] := list[from];
  }

  method Contains(list: array<Event>, kept: nat, e: Event) returns (dup: bool)
    requires kept <= list.Length
    ensures dup == HasKey(list[..kept], e)
  {
    var j := 0;
    while j < kept
      invariant 0 <= j <= kept && forall i :: 0 <= i < j ==> !SameKey(list[i], e)
    {
      if SameKey(list[j], e) {
        assert list[..kept][j] == list[j];
        return true;
      }
      j := j + 1;
    }
    dup := false;
  }

  lemma FreshStep(d: seq<Event>, k: seq<Event>, i: nat, done: seq<Event>)
    requires i <= |k|
    ensures i == |k| ==> done + Fresh(d, k[i..]) == done
    ensures i < |k| ==>
      done + Fresh(d, k[i..]) == (if HasKey(d, k[i]) then done else done + [k[i]]) + Fresh(d, k[i + 1..])
  {
    hide HasKey;
    if i < |k| { assert k[i..][0] == k[i] && k[i..][1..] == k[i + 1..]; }
  }

  /**
   * Case 2: the stash first, but only for a pure wait; then the kernel, which is told how much
   * room is left and must not wait if anything was delivered.
   */
  method Wait(st: Stash, kq: int, nchanges: nat, nevents: nat, closed: set<nat>, kernel: (nat, bool) -> Kernel)
    returns (rc: int, out: seq<Event>)
    requires Sound(st) && kq != FREE
    requires forall room, now :: kernel(room, now).Events? ==> |kernel(room, now).list| <= room
    modifies st.counts, st.evs, st`any
    ensures Sound(st)
    ensures var drains := nchanges == 0 && nevents > 0;
      var d := if drains then Delivered(old(st.Table()), kq, nevents, closed) else [];
      && |d| <= nevents
      && st.Table() == (if drains then Drained(old(st.Table()), kq, nevents) else old(st.Table()))
      && var answer := kernel(nevents - |d|, |d| > 0);
         && out == WaitList(d, answer)
         && rc == (if answer.Failed? && d == [] then answer.rc else |out|)
         && |out| <= nevents
  {
    hide ValidTable, Delivered, Drained, AllEmpty, Fresh;
    var d: seq<Event> := [];
    if nchanges == 0 && nevents > 0 {
      DeliveredFits(st.Table(), kq, nevents, closed);
      DrainSound(st.Table(), kq, nevents, st.any);
      d := st.Drain(kq, nevents, closed);
    }
    var answer := kernel(nevents - |d|, |d| > 0);
    if answer.Failed? { return if d == [] then answer.rc else |d|, d; }
    out := Merge(d, answer.list);
    rc := |out|;
  }

  /** The list the caller sees: the delivered events, then the kernel's without duplicates. */
  method Merge(d: seq<Event>, k: seq<Event>) returns (out: seq<Event>)
    ensures out == d + Fresh(d, k)
  {
    hide Fresh;
    var list := new Event[|d| + |k|](i requires 0 <= i < |d| + |k| => if i < |d| then d[i] else k[i - |d|]);
    assert list[..|d|] == d && list[|d|..|d| + |k|] == k;
    var w := DropDuplicates(list, |d|, |k|);
    out := list[..|d| + w];
    assert out == list[..|d|] + list[|d|..|d| + w];
  }

  lemma DeliveredFits(t: seq<Slot>, kq: int, max: nat, closed: set<nat>)
    ensures |Delivered(t, kq, max, closed)| <= max
  {}

  lemma DrainSound(t: seq<Slot>, kq: int, max: nat, any: bool)
    requires ValidTable(t) && kq != FREE && (!any ==> AllEmpty(t))
    ensures ValidTable(Drained(t, kq, max))
    ensures !any ==> AllEmpty(Drained(t, kq, max))
  {
    DrainRefines(t, kq, max, kq);
  }

  /** The changelist's deletions and disablings, before the kernel sees them. */
  method Forget(st: Stash, kq: int, ident: nat, filter: int)
    requires Sound(st) && kq != FREE
    modifies st.counts, st.evs
    ensures Sound(st) && st.Table() == Invalidated(old(st.Table()), kq, ident, filter)
    ensures forall x :: x in Held(st.Table(), kq) ==> !Matches(x, ident, filter)
  {
    hide ValidTable, AllEmpty, Invalidated, Held;
    InvalidateSound(st.Table(), kq, ident, filter, st.any);
    st.InvalidateFilter(kq, ident, filter);
  }

  lemma InvalidateSound(t: seq<Slot>, kq: int, ident: nat, filter: int, any: bool)
    requires ValidTable(t) && kq != FREE && (!any ==> AllEmpty(t))
    ensures ValidTable(Invalidated(t, kq, ident, filter))
    ensures !any ==> AllEmpty(Invalidated(t, kq, ident, filter))
    ensures forall x :: x in Held(Invalidated(t, kq, ident, filter), kq) ==> !Matches(x, ident, filter)
  {
    hide ValidQueue, Remove, Matches;
    InvalidateRefines(t, kq, ident, filter, kq);
    RemoveMeaning(Held(t, kq), ident, filter);
    if !any { EmptyInvalidated(t, kq, ident, filter); }
  }

  // --------------------------------------------------- what a wait returns

  lemma {:induction false} FreshMeaning(d: seq<Event>, k: seq<Event>)
    ensures forall x :: x in Fresh(d, k) <==> x in k && !HasKey(d, x)
    ensures DistinctKeys(k) ==> DistinctKeys(Fresh(d, k))
  {
    hide HasKey;
    if |k| > 0 {
      FreshMeaning(d, k[1..]);
      assert k == [k[0]] + k[1..];
      if DistinctKeys(k) {
        DistinctTail(k);
        DistinctFront(k[0], k[1..], Fresh(d, k[1..]));
      }
    }
  }

  /**
   * A wait never hands out the same filter twice: no kernel event whose key was also delivered
   * from the stash, and, the kernel's own being distinct, no two events of one key at all.
   * Nothing else of the kernel's is lost.
   */
  lemma WaitDistinct(t: seq<Slot>, kq: int, max: nat, closed: set<nat>, k: seq<Event>)
    requires ValidTable(t) && DistinctKeys(k)
    ensures var d := Delivered(t, kq, max, closed);
      && DistinctKeys(WaitList(d, Events(k)))
      && (forall x :: x in Fresh(d, k) ==> !HasKey(d, x))
      && (forall x :: x in k ==> x in WaitList(d, Events(k)) || HasKey(d, x))
      && (forall x :: x in d ==> x in Held(t, kq) && !Stale(x, closed))
  {
    hide HasKey, Live, Fresh, ValidTable, ValidQueue, Stale;
    var d, q := Delivered(t, kq, max, closed), Held(t, kq);
    HeldValid(t, kq);
    PrefixDistinct(q, Taken(q, max));
    LiveMeaning(q[..Taken(q, max)], closed);
    FreshMeaning(d, k);
    JoinDistinct(d, Fresh(d, k));
  }

  lemma PrefixDistinct(q: seq<Event>, n: nat)
    requires ValidQueue(q) && n <= |q|
    ensures DistinctKeys(q[..n]) && forall x :: x in q[..n] ==> x in q
  {}

  lemma KeyInside(a: seq<Event>, i: nat, x: Event)
    requires i < |a|
    ensures SameKey(a[i], x) ==> HasKey(a, x)
  {}

  lemma JoinDistinct(a: seq<Event>, b: seq<Event>)
    requires DistinctKeys(a) && DistinctKeys(b) && forall x :: x in b ==> !HasKey(a, x)
    ensures DistinctKeys(a + b)
  {
    var r := a + b;
    forall i, j | 0 <= i < j < |r|
      ensures !SameKey(r[i], r[j])
    {
      if i < |a| && j >= |a| {
        assert r[j] in b;
        KeyInside(a, i, r[j]);
      }
    }
  }
}
