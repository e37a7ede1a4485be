/** patch_macho: sorting the commands to remove by position and closing the gaps in place. */
module CommandRemoval {
  import opened ByteStrings

  datatype Item = Item(pos: nat, size: nat)

  // ----------------------------------------------------------- the sort

  predicate Descending(s: seq<Item>) { forall i, j :: 0 <= i < j < |s| ==> s[i].pos >= s[j].pos }

  /** Everything before i is in place: in order, and no later item belongs before it. */
  predicate SortedUpTo(s: seq<Item>, i: nat)
    requires i <= |s|
  {
    Descending(s[..i]) && forall a, b :: 0 <= a < i <= b < |s| ==> s[a].pos >= s[b].pos
  }

  lemma Extend(s: seq<Item>, i: nat)
    requires i < |s| && SortedUpTo(s, i) && forall b :: i < b < |s| ==> s[i].pos >= s[b].pos
    ensures SortedUpTo(s, i + 1)
  {}

  lemma SwapKeeps(s: seq<Item>, i: nat, j: nat)
    requires i < j < |s| && SortedUpTo(s, i)
    ensures var t := s[i := s[j]][j := s[i]]; SortedUpTo(t, i) && multiset(t) == multiset(s)
  {
    var t := s[i := s[j]][j := s[i]];
    assert t[..i] == s[..i];
    forall a, b | 0 <= a < i <= b < |t|
      ensures t[a].pos >= t[b].pos
    {
      assert t[a] == s[a];
    }
  }

  method SortDescending(a: array<Item>)
    modifies a
    ensures Descending(a[..]) && multiset(a[..]) == multiset(old(a[..]))
  {
    hide SortedUpTo;
    if a.Length == 0 { return; }
    SortedNone(a[..]);
    var i := 0;
    while i < a.Length - 1
      invariant 0 <= i <= a.Length - 1 && SortedUpTo(a[..], i) && multiset(a[..]) == multiset(old(a[..]))
    {
      var j := i + 1;
      while j < a.Length
        invariant i < j <= a.Length && SortedUpTo(a[..], i) && multiset(a[..]) == multiset(old(a[..]))
        invariant forall b :: i < b < j ==> a[i].pos >= a[b].pos
      {
        if a[j].pos > a[i].pos {
          ghost var s := a[..];
          SwapKeeps(s, i, j);
          a[i], a[j] := a[j], a[i];
          assert a[..] == s[i := s[j]][j := s[i]];
        }
        j := j + 1;
      }
      Extend(a[..], i);
      i := i + 1;
    }
    SortedAll(a[..], i);
  }

  lemma SortedNone(s: seq<Item>)
    ensures SortedUpTo(s, 0)
  {}

  lemma SortedAll(s: seq<Item>, i: nat)
    requires i + 1 == |s| && SortedUpTo(s, i)
    ensures Descending(s)
  {
    assert forall k :: 0 <= k < i ==> s[..i][k] == s[k];
  }

  // -------------------------------------------------------- the gaps

  predicate Covered(items: seq<Item>, k: nat) {
    exists i :: 0 <= i < |items| && items[i].pos <= k < items[i].pos + items[i].size
  }

  /** The bytes of b from k on that belong to no item, in order. */
  function Kept(b: Bytes, items: seq<Item>, k: nat): Bytes
    decreases |b| - k
  {
    if k >= |b| then [] else (if Covered(items, k) then [] else [b[k]]) + Kept(b, items, k + 1)
  }

  function Without(b: Bytes, it: Item): (r: Bytes)
    requires it.pos + it.size <= |b|
    ensures |r| == |b| - it.size
  {
    b[..it.pos] + b[it.pos + it.size..]
  }

  /** Items from i on start and end below limit. */
  predicate Below(items: seq<Item>, limit: nat) {
    forall i :: 0 <= i < |items| ==> items[i].pos + items[i].size <= limit
  }

  lemma CoveredSplit(it: Item, rest: seq<Item>, k: nat)
    ensures Covered([it] + rest, k) <==> it.pos <= k < it.pos + it.size || Covered(rest, k)
  {
    var all := [it] + rest;
    assert all[0] == it;
    if i :| 0 <= i < |rest| && rest[i].pos <= k < rest[i].pos + rest[i].size { assert all[i + 1] == rest[i]; }
  }

  /** Past the end of the last item everything is kept. */
  lemma {:induction false} KeptTail(b: Bytes, items: seq<Item>, k: nat)
    requires k <= |b| && forall j :: k <= j < |b| ==> !Covered(items, j)
    ensures Kept(b, items, k) == b[k..]
    decreases |b| - k
  {
    hide Covered;
    if k < |b| { KeptTail(b, items, k + 1); }
  }

  lemma {:induction false} KeptSkip(b: Bytes, items: seq<Item>, k: nat, e: nat)
    requires k <= e <= |b| && forall j :: k <= j < e ==> Covered(items, j)
    ensures Kept(b, items, k) == Kept(b, items, e)
    decreases e - k
  {
    hide Covered;
    if k < e { KeptSkip(b, items, k + 1, e); }
  }

  lemma TailUncovered(it: Item, rest: seq<Item>, k: nat)
    requires Below(rest, it.pos) && k >= it.pos
    ensures !Covered(rest, k) && (Covered([it] + rest, k) <==> k < it.pos + it.size)
  {
    CoveredSplit(it, rest, k);
  }

  /** Removing the highest item first leaves the positions of the others valid. */
  lemma {:induction false} KeptWithout(b: Bytes, it: Item, rest: seq<Item>, k: nat)
    requires it.pos + it.size <= |b| && Below(rest, it.pos) && k <= it.pos
    ensures Kept(b, [it] + rest, k) == Kept(Without(b, it), rest, k)
    decreases it.pos - k
  {
    hide Covered, Below;
    var w := Without(b, it);
    if k < it.pos {
      CoveredSplit(it, rest, k);
      KeptWithout(b, it, rest, k + 1);
      assert w[k] == b[k];
    } else {
      var e := it.pos + it.size;
      forall j | it.pos <= j
        ensures !Covered(rest, j) && (Covered([it] + rest, j) <==> j < e)
      {
        TailUncovered(it, rest, j);
      }
      KeptSkip(b, [it] + rest, k, e);
      KeptTail(b, [it] + rest, e);
      KeptTail(w, rest, k);
      assert w[it.pos..] == b[e..];
    }
  }

  predicate Disjoint(items: seq<Item>) {
    forall i, j :: 0 <= i < |items| && 0 <= j < |items| && i != j ==>
      items[i].pos + items[i].size <= items[j].pos || items[j].pos + items[j].size <= items[i].pos
  }

  /** Disjoint nonempty items in descending order: each one ends below the one before it. */
  lemma NextBelow(items: seq<Item>)
    requires Disjoint(items) && Descending(items) && |items| > 0
    requires forall i :: 0 <= i < |items| ==> items[i].size > 0
    ensures Below(items[1..], items[0].pos) && Disjoint(items[1..]) && Descending(items[1..])
  {
    forall i | 0 <= i < |items| - 1
      ensures items[1..][i].pos + items[1..][i].size <= items[0].pos
    {
      assert items[1..][i] == items[i + 1];
      assert items[0].pos >= items[i + 1].pos;
    }
  }

  /** memmove of the tail [pos+size, end) down to pos. */
  method CloseGap(buf: array<Byte>, it: Item, end: nat)
    requires it.pos + it.size <= end <= buf.Length
    modifies buf
    ensures buf[..end - it.size] == Without(old(buf[..end]), it)
    ensures forall k :: end <= k < buf.Length ==> buf[k] == old(buf[k])
  {
    ghost var b := buf[..];
    var k := it.pos;
    while k < end - it.size
      invariant it.pos <= k <= end - it.size
      invariant forall j :: 0 <= j < it.pos ==> buf[j] == b[j]
      invariant forall j :: it.pos <= j < k ==> buf[j] == b[j + it.size]
      invariant forall j :: k <= j < buf.Length ==> buf[j] == b[j]
    {
      buf[k] := buf[k + it.size];
      k := k + 1;
    }
    GapClosed(b, buf[..], it, end);
    assert b[..end] == old(buf[..end]);
    assert buf[..][..end - it.size] == buf[..end - it.size];
  }

  lemma GapClosed(b: Bytes, c: Bytes, it: Item, end: nat)
    requires it.pos + it.size <= end <= |b| == |c|
    requires forall j :: 0 <= j < it.pos ==> c[j] == b[j]
    requires forall j :: it.pos <= j < end - it.size ==> c[j] == b[j + it.size]
    ensures c[..end - it.size] == Without(b[..end], it)
  {
    var w := Without(b[..end], it);
    forall j | 0 <= j < end - it.size
      ensures w[j] == c[j]
    {
      if j >= it.pos { assert w[j] == b[..end][it.pos + it.size..][j - it.pos]; }
    }
  }

  /**
   * The removal loop on the load commands [0, end): what is left is every byte of every other
   * command, in order.
   */
  method RemoveSorted(buf: array<Byte>, items: array<Item>, end: nat) returns (newEnd: nat)
    requires end <= buf.Length && buf != items as object
    requires Disjoint(items[..]) && Descending(items[..]) && Below(items[..], end)
    requires forall i :: 0 <= i < items.Length ==> items[i].size > 0
    modifies buf
    ensures newEnd <= end && buf[..newEnd] == Kept(old(buf[..end]), items[..], 0)
  {
    hide Kept, Without, Disjoint, Descending, Below;
    var i := 0;
    newEnd := end;
    ghost var all := Kept(buf[..end], items[..], 0);
    assert items[0..] == items[..];
    while i < items.Length
      invariant 0 <= i <= items.Length && newEnd <= end <= buf.Length
      invariant Disjoint(items[i..]) && Descending(items[i..]) && Below(items[i..], newEnd)
      invariant Kept(buf[..newEnd], items[i..], 0) == all
    {
      ghost var left := items[i..];
      assert left[0] == items[i] && left[1..] == items[i + 1..] && left == [items[i]] + items[i + 1..];
      NextBelow(left);
      BelowHead(left, newEnd);
      ghost var b := buf[..newEnd];
      KeptWithout(b, items[i], items[i + 1..], 0);
      CloseGap(buf, items[i], newEnd);
      BelowMore(items[i + 1..], items[i].pos, newEnd - items[i].size);
      newEnd := newEnd - items[i].size;
      i := i + 1;
    }
    NoItems(items[i..]);
    KeptTail(buf[..newEnd], items[i..], 0);
  }

  lemma BelowHead(items: seq<Item>, limit: nat)
    requires |items| > 0 && Below(items, limit)
    ensures items[0].pos + items[0].size <= limit
  {}

  lemma BelowMore(items: seq<Item>, limit: nat, more: nat)
    requires Below(items, limit) && limit <= more
    ensures Below(items, more)
  {}

  lemma NoItems(items: seq<Item>)
    requires |items| == 0
    ensures forall k: nat :: !Covered(items, k)
  {}

  // ------------------------------------------------------ any order

  /** Distinct commands of the table, none overlapping another, all below end. */
  ghost predicate Separate(ms: multiset<Item>, end: nat) {
    && (forall x :: x in ms ==> ms[x] == 1 && x.size > 0 && x.pos + x.size <= end)
    && forall x, y :: x in ms && y in ms && x != y ==> x.pos + x.size <= y.pos || y.pos + y.size <= x.pos
  }

  lemma SeparateItems(s: seq<Item>, end: nat)
    requires Separate(multiset(s), end)
    ensures Disjoint(s) && Below(s, end) && forall i :: 0 <= i < |s| ==> s[i].size > 0
  {
    forall i, j | 0 <= i < |s| && 0 <= j < |s| && i != j
      ensures s[i].pos + s[i].size <= s[j].pos || s[j].pos + s[j].size <= s[i].pos
    {
      assert s[i] in multiset(s) && s[j] in multiset(s);
      if i < j { NoRepeat(s, i, j); } else { NoRepeat(s, j, i); }
    }
    forall i | 0 <= i < |s|
      ensures s[i].size > 0 && s[i].pos + s[i].size <= end
    {
      assert s[i] in multiset(s);
    }
  }

  lemma NoRepeat(s: seq<Item>, i: nat, j: nat)
    requires i < j < |s| && forall x :: x in multiset(s) ==> multiset(s)[x] == 1
    ensures s[i] != s[j]
  {
    Twice(s, i, j);
    assert s[i] in multiset(s);
  }

  lemma Twice(s: seq<Item>, i: nat, j: nat)
    requires i < j < |s|
    ensures s[i] == s[j] ==> multiset(s)[s[i]] >= 2
  {
    assert s == s[..j] + [s[j]] + s[j + 1..];
    assert s[i] in s[..j];
    assert multiset(s) == multiset(s[..j]) + multiset([s[j]]) + multiset(s[j + 1..]);
  }

  lemma CoveredIn(s: seq<Item>, k: nat)
    ensures Covered(s, k) <==> exists x :: x in multiset(s) && x.pos <= k < x.pos + x.size
  {
    if i :| 0 <= i < |s| && s[i].pos <= k < s[i].pos + s[i].size { assert s[i] in multiset(s); }
    if x :| x in multiset(s) && x.pos <= k < x.pos + x.size { assert x in s; }
  }

  lemma {:induction false} KeptByCover(b: Bytes, s: seq<Item>, t: seq<Item>, k: nat)
    requires multiset(s) == multiset(t)
    ensures Kept(b, s, k) == Kept(b, t, k)
    decreases |b| - k
  {
    hide Covered;
    if k < |b| {
      CoveredIn(s, k);
      CoveredIn(t, k);
      KeptByCover(b, s, t, k + 1);
    }
  }

  /** Both steps: whatever the order the commands were noted in, the others survive untouched. */
  method RemoveCommands(buf: array<Byte>, items: array<Item>, end: nat) returns (newEnd: nat)
    requires end <= buf.Length && buf != items as object && Separate(multiset(items[..]), end)
    modifies buf, items
    ensures newEnd <= end && buf[..newEnd] == Kept(old(buf[..end]), old(items[..]), 0)
  {
    hide Kept, Separate, Disjoint, Descending, Below;
    SortDescending(items);
    SeparateItems(items[..], end);
    KeptByCover(buf[..end], old(items[..]), items[..], 0);
    newEnd := RemoveSorted(buf, items, end);
  }
}
