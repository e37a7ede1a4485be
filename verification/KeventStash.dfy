/** kevent64_shim's stash: the locked table of held-back events and its pending flag. */
module KeventStash {
  import opened KeventQueue

  class Stash {
    const kqs: array<int>
    const counts: array<nat>
    const evs: array2<Event>
    /** Read without the lock by kq_invalidate_filter. */
    var any: bool

    constructor ()
      ensures Valid() && ValidTable(Table()) && AllEmpty(Table()) && !any
      ensures fresh(kqs) && fresh(counts) && fresh(evs)
    {
      kqs := new int[TABLE_SIZE](_ => FREE);
      counts := new nat[TABLE_SIZE](_ => 0);
      evs := new Event[TABLE_SIZE, MAX_PENDING]((_, _) => Event(0, 0, 0, 0, 0));
      any := false;
    }

    predicate Valid()
      reads counts
    {
      && kqs.Length == TABLE_SIZE && counts.Length == TABLE_SIZE
      && evs.Length0 == TABLE_SIZE && evs.Length1 == MAX_PENDING
      && kqs as object != counts
      && forall i :: 0 <= i < TABLE_SIZE ==> counts[i] <= MAX_PENDING
    }

    function Row(i: nat): (q: seq<Event>)
      requires Valid() && i < TABLE_SIZE
      reads counts, evs
      ensures |q| == counts[i] && forall j :: 0 <= j < |q| ==> q[j] == evs[i, j]
    {
      var n := counts[i];
      seq(n, j requires 0 <= j < n && n <= evs.Length1 && i < evs.Length0 reads evs => evs[i, j])
    }

    function Table(): (t: seq<Slot>)
      requires Valid()
      reads kqs, counts, evs
      ensures |t| == TABLE_SIZE && forall i :: 0 <= i < TABLE_SIZE ==> t[i] == Slot(kqs[i], Row(i))
    {
      seq(TABLE_SIZE, i requires 0 <= i < TABLE_SIZE && Valid() reads kqs, counts, evs => Slot(kqs[i], Row(i)))
    }

    method FindSlot(kq: int) returns (slot: int)
      requires Valid()
      ensures var n := SlotFor(Table(), kq); slot == if n < TABLE_SIZE then n else -1
    {
      slot := -1;
      var i := 0;
      ghost var t := Table();
      while i < TABLE_SIZE
        invariant 0 <= i <= TABLE_SIZE && forall j :: 0 <= j < i ==> t[j].kq != kq
        invariant if slot >= 0 then slot < i && t[slot].kq == FREE && forall j :: 0 <= j < slot ==> t[j].kq != FREE
                  else slot == -1 && forall j :: 0 <= j < i ==> t[j].kq != FREE
      {
        assert t[i].kq == kqs[i];
        if kqs[i] == kq {
          SlotIs(t, kq, i);
          return i;
        }
        if slot < 0 && kqs[i] == FREE { slot := i; }
        i := i + 1;
      }
      SlotNone(t, kq);
      if slot >= 0 { SlotIs(t, FREE, slot); } else { SlotNone(t, FREE); }
    }

    method FindKey(slot: nat, e: Event) returns (j: nat)
      requires Valid() && slot < TABLE_SIZE
      ensures j == Find(Row(slot), e)
    {
      j := 0;
      ghost var q := Row(slot);
      while j < counts[slot]
        invariant j <= |q| && forall i :: 0 <= i < j ==> !SameKey(q[i], e)
      {
        assert q[j] == evs[slot, j];
        if SameKey(evs[slot, j], e) {
          FindIs(q, e, j);
          return;
        }
        j := j + 1;
      }
      FindNone(q, e);
    }

    /** One event coalesced, appended or dropped. */
    method PutOne(slot: nat, e: Event)
      requires Valid() && slot < TABLE_SIZE
      modifies counts, evs
      ensures Valid() && Row(slot) == Put(old(Row(slot)), e)
      ensures forall i :: 0 <= i < TABLE_SIZE && i != slot ==> Row(i) == old(Row(i))
    {
      hide Find;
      ghost var q := Row(slot);
      var dup := FindKey(slot, e);
      if dup < counts[slot] {
        evs[slot, dup] := e;
        assert Row(slot) == q[dup := e];
      } else if counts[slot] < MAX_PENDING {
        evs[slot, counts[slot]] := e;
        counts[slot] := counts[slot] + 1;
        assert Row(slot) == q + [e];
      }
    }

    method PutEvents(slot: nat, incoming: seq<Event>)
      requires Valid() && slot < TABLE_SIZE
      modifies counts, evs
      ensures Valid() && Row(slot) == PutAll(old(Row(slot)), incoming)
      ensures forall i :: 0 <= i < TABLE_SIZE && i != slot ==> Row(i) == old(Row(i))
    {
      hide Put;
      var i := 0;
      assert incoming[0..] == incoming;
      while i < |incoming|
        invariant 0 <= i <= |incoming| && Valid()
        invariant PutAll(Row(slot), incoming[i..]) == PutAll(old(Row(slot)), incoming)
        invariant forall k :: 0 <= k < TABLE_SIZE && k != slot ==> Row(k) == old(Row(k))
      {
        assert incoming[i..][0] == incoming[i] && incoming[i..][1..] == incoming[i + 1..];
        PutOne(slot, incoming[i]);
        i := i + 1;
      }
    }

    /** kq_stash. */
    method StashEvents(kq: int, incoming: seq<Event>)
      requires Valid()
      modifies kqs, counts, evs, this`any
      ensures Valid() && Table() == Stashed(old(Table()), kq, incoming)
      ensures any == (old(any) || SlotFor(old(Table()), kq) < TABLE_SIZE)
    {
      hide PutAll, SlotFor;
      var slot := FindSlot(kq);
      if slot >= 0 {
        kqs[slot] := kq;
        PutEvents(slot, incoming);
        any := true;
        assert Table() == old(Table())[slot := Slot(kq, PutAll(old(Row(slot)), incoming))];
      }
    }

    /** The compaction of one slot. */
    method Compact(slot: nat, ident: nat, filter: int)
      requires Valid() && slot < TABLE_SIZE
      modifies counts, evs
      ensures Valid() && Row(slot) == Remove(old(Row(slot)), ident, filter)
      ensures forall i :: 0 <= i < TABLE_SIZE && i != slot ==> Row(i) == old(Row(i))
    {
      hide Remove;
      ghost var q := Row(slot);
      var out, j := 0, 0;
      ghost var kept: seq<Event> := [];
      assert q[0..] == q && kept + Remove(q, ident, filter) == Remove(q, ident, filter);
      while j < counts[slot]
        invariant 0 <= out <= j <= counts[slot] == |q| && Valid()
        invariant |kept| == out && forall i :: 0 <= i < out ==> evs[slot, i] == kept[i]
        invariant forall i :: j <= i < |q| ==> evs[slot, i] == q[i]
        invariant kept + Remove(q[j..], ident, filter) == Remove(q, ident, filter)
        invariant counts[..] == old(counts[..])
        invariant forall i, k :: 0 <= i < TABLE_SIZE && i != slot && 0 <= k < MAX_PENDING ==>
            evs[i, k] == old(evs[i, k])
      {
        RemoveStep(q, j, ident, filter, kept);
        if !Matches(evs[slot, j], ident, filter) {
          kept := kept + [q[j]];
          if out != j { evs[slot, out] := evs[slot, j]; }
          out := out + 1;
        }
        j := j + 1;
      }
      RemoveStep(q, j, ident, filter, kept);
      counts[slot] := out;
      RowIs(slot, kept);
      RowsKept(slot);
    }

    /** kq_invalidate_filter; the flag is read first, without the lock. */
    method InvalidateFilter(kq: int, ident: nat, filter: int)
      requires Valid() && (!any ==> AllEmpty(Table()))
      modifies counts, evs
      ensures Valid() && Table() == Invalidated(old(Table()), kq, ident, filter)
    {
      hide Remove, SlotOf;
      if !any {
        EmptyInvalidated(Table(), kq, ident, filter);
        return;
      }
      ghost var t := Table();
      var i := 0;
      while i < TABLE_SIZE
        invariant 0 <= i <= TABLE_SIZE && Table() == t && Valid() && forall j :: 0 <= j < i ==> t[j].kq != kq
      {
        assert t[i].kq == kqs[i];
        if kqs[i] == kq {
          SlotIs(t, kq, i);
          Compact(i, ident, filter);
          assert Table() == t[i := Slot(kq, Remove(t[i].q, ident, filter))];
          return;
        }
        i := i + 1;
      }
      SlotNone(t, kq);
    }

    twostate lemma RowsKept(slot: nat)
      requires old(Valid()) && Valid() && slot < TABLE_SIZE
      requires forall i :: 0 <= i < TABLE_SIZE && i != slot ==> counts[i] == old(counts[i])
      requires forall i, k :: 0 <= i < TABLE_SIZE && i != slot && 0 <= k < MAX_PENDING ==> evs[i, k] == old(evs[i, k])
      ensures forall i :: 0 <= i < TABLE_SIZE && i != slot ==> Row(i) == old(Row(i))
    {
      forall i | 0 <= i < TABLE_SIZE && i != slot
        ensures Row(i) == old(Row(i))
      {
        var a, b := Row(i), old(Row(i));
        forall j | 0 <= j < |a|
          ensures a[j] == b[j]
        {
          assert evs[i, j] == old(evs[i, j]);
        }
        assert a == b;
      }
    }

    /** Taking up to max events from the front of a slot. */
    method TakeFront(slot: nat, max: nat, closed: set<nat>) returns (out: seq<Event>)
      requires Valid() && slot < TABLE_SIZE
      modifies counts, evs
      ensures Valid()
      ensures var q, n := old(Row(slot)), Taken(old(Row(slot)), max); out == Live(q[..n], closed) && Row(slot) == q[n..]
      ensures forall i :: 0 <= i < TABLE_SIZE && i != slot ==> Row(i) == old(Row(i))
    {
      hide Live, Stale;
      ghost var q := Row(slot);
      var take := if counts[slot] > max then max else counts[slot];
      out := [];
      var j := 0;
      assert q[..take][0..] == q[..take] && out + Live(q[..take], closed) == Live(q[..take], closed);
      while j < take
        invariant 0 <= j <= take && out + Live(q[..take][j..], closed) == Live(q[..take], closed)
        modifies {}
      {
        LiveStep(q[..take], j, closed, out);
        var e := evs[slot, j];
        assert q[..take][j] == q[j] == e;
        if !Stale(e, closed) { out := out + [e]; }
        j := j + 1;
      }
      LiveStep(q[..take], j, closed, out);
      ShiftDown(slot, take);
    }

    method ShiftDown(slot: nat, take: nat)
      requires Valid() && slot < TABLE_SIZE && take <= counts[slot]
      modifies counts, evs
      ensures Valid() && Row(slot) == old(Row(slot))[take..]
      ensures forall i :: 0 <= i < TABLE_SIZE && i != slot ==> Row(i) == old(Row(i))
    {
      ghost var q := Row(slot);
      var remaining := counts[slot] - take;
      MoveDown(slot, take, q);
      counts[slot] := remaining;
      RowIs(slot, q[take..]);
      RowsKept(slot);
    }

    /** The loop alone: the entries of the row move, no other row changes. */
    method MoveDown(slot: nat, take: nat, ghost q: seq<Event>)
      requires Valid() && slot < TABLE_SIZE && take <= counts[slot] && q == Row(slot)
      modifies evs
      ensures var rest := q[take..]; forall i :: 0 <= i < |rest| ==> evs[slot, i] == rest[i]
      ensures forall i, k :: 0 <= i < TABLE_SIZE && i != slot && 0 <= k < MAX_PENDING ==> evs[i, k] == old(evs[i, k])
    {
      ghost var rest := q[take..];
      var remaining := counts[slot] - take;
      var j := 0;
      while j < remaining
        invariant 0 <= j <= remaining
        invariant forall i :: 0 <= i < j ==> evs[slot, i] == rest[i]
        invariant forall i :: j <= i < |q| ==> evs[slot, i] == q[i]
        invariant forall i, k :: 0 <= i < TABLE_SIZE && i != slot && 0 <= k < MAX_PENDING ==>
            evs[i, k] == old(evs[i, k])
      {
        assert evs[slot, j + take] == q[j + take] == rest[j];
        evs[slot, j] := evs[slot, j + take];
        j := j + 1;
      }
    }

    lemma RowIs(slot: nat, q: seq<Event>)
      requires Valid() && slot < TABLE_SIZE && |q| == counts[slot] && forall j :: 0 <= j < |q| ==> evs[slot, j] == q[j]
      ensures Row(slot) == q
    {}

    /** kq_drain. */
    method Drain(kq: int, max: nat, closed: set<nat>) returns (out: seq<Event>)
      requires Valid() && ValidTable(Table()) && kq != FREE
      modifies counts, evs, this`any
      ensures Valid() && Table() == Drained(old(Table()), kq, max) && out == Delivered(old(Table()), kq, max, closed)
      ensures any == (old(any) && !AllEmpty(Table()))
    {
      hide Live, SlotOf, ValidTable;
      ghost var t := Table();
      out := [];
      var i := 0;
      while i < TABLE_SIZE && !(kqs[i] == kq && counts[i] > 0)
        invariant 0 <= i <= TABLE_SIZE && forall j :: 0 <= j < i ==> t[j].kq != kq || t[j].q == []
      {
        assert t[i].kq == kqs[i] && |t[i].q| == counts[i];
        i := i + 1;
      }
      if i < TABLE_SIZE {
        assert t[i].kq == kqs[i];
        SlotUnique(t, kq, i);
        out := TakeFront(i, max, closed);
        assert Table() == t[i := Slot(kq, t[i].q[Taken(t[i].q, max)..])];
      } else {
        NothingHeld(t, kq, max, closed);
      }
      any := UpdateFlag();
    }

    method UpdateFlag() returns (still: bool)
      requires Valid()
      ensures still == (any && !AllEmpty(Table()))
    {
      var i := 0;
      while i < TABLE_SIZE
        invariant 0 <= i <= TABLE_SIZE && forall j :: 0 <= j < i ==> Table()[j].q == []
      {
        assert Table()[i].q == Row(i) && |Row(i)| == counts[i];
        if counts[i] > 0 {
          assert Table()[i].q != [];
          return any;
        }
        i := i + 1;
      }
      still := false;
    }
  }

  // -------------------------------------------------------- small facts

  lemma {:induction false} SlotIs(t: seq<Slot>, kq: int, n: nat)
    requires n < |t| && t[n].kq == kq && forall i :: 0 <= i < n ==> t[i].kq != kq
    ensures SlotOf(t, kq) == n
  {
    if n > 0 { SlotIs(t[1..], kq, n - 1); }
  }

  lemma SlotNone(t: seq<Slot>, kq: int)
    requires forall i :: 0 <= i < |t| ==> t[i].kq != kq
    ensures SlotOf(t, kq) == |t|
  {}

  lemma {:induction false} FindIs(q: seq<Event>, e: Event, n: nat)
    requires n < |q| && SameKey(q[n], e) && forall i :: 0 <= i < n ==> !SameKey(q[i], e)
    ensures Find(q, e) == n
  {
    if n > 0 { FindIs(q[1..], e, n - 1); }
  }

  lemma FindNone(q: seq<Event>, e: Event)
    requires forall i :: 0 <= i < |q| ==> !SameKey(q[i], e)
    ensures Find(q, e) == |q|
  {}

  lemma RemoveStep(q: seq<Event>, j: nat, ident: nat, filter: int, kept: seq<Event>)
    requires j <= |q|
    ensures j == |q| ==> kept + Remove(q[j..], ident, filter) == kept
    ensures j < |q| ==>
      kept + Remove(q[j..], ident, filter) ==
      (if Matches(q[j], ident, filter) then kept else kept + [q[j]]) + Remove(q[j + 1..], ident, filter)
  {
    if j < |q| { assert q[j..][0] == q[j] && q[j..][1..] == q[j + 1..]; }
  }

  lemma LiveStep(q: seq<Event>, j: nat, closed: set<nat>, out: seq<Event>)
    requires j <= |q|
    ensures j == |q| ==> out + Live(q[j..], closed) == out
    ensures j < |q| ==>
      out + Live(q[j..], closed) == (if Stale(q[j], closed) then out else out + [q[j]]) + Live(q[j + 1..], closed)
  {
    hide Stale;
    if j < |q| { assert q[j..][0] == q[j] && q[j..][1..] == q[j + 1..]; }
  }

  lemma EmptyInvalidated(t: seq<Slot>, kq: int, ident: nat, filter: int)
    requires AllEmpty(t)
    ensures Invalidated(t, kq, ident, filter) == t
  {}

  lemma NothingHeld(t: seq<Slot>, kq: int, max: nat, closed: set<nat>)
    requires forall j :: 0 <= j < |t| ==> t[j].kq != kq || t[j].q == []
    ensures Drained(t, kq, max) == t && Delivered(t, kq, max, closed) == []
  {}
}
