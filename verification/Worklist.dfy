/**
 * lde_rd_zcnt: recursive-descent discovery of patchable sites in one function, with the
 * stack that marks at push time.
 */
module Worklist {
  import opened ByteStrings
  import opened X86Len
  import opened ControlFlow
  import Branches
  import VexDecode

  // ---------------------------------------------------------------- the graph

  datatype Func = Func(text: Bytes, fstart: nat, fend: nat)

  predicate ValidFunc(f: Func) { f.fstart <= f.fend <= |f.text| }

  predicate InFunc(f: Func, x: int) { f.fstart <= x < f.fend }

  /** The bytes a decoder at x may see. */
  function View(f: Func, x: int): Bytes
    requires ValidFunc(f) && InFunc(f, x)
  {
    f.text[x..f.fend]
  }

  predicate Decodes(f: Func, x: int)
    requires ValidFunc(f)
  {
    InFunc(f, x) && Length(View(f, x)).len > 0
  }

  predicate IsSite(f: Func, x: int)
    requires ValidFunc(f)
  {
    Decodes(f, x) && Length(View(f, x)).zk != 0
  }

  /** y is the in-function fall-through or direct branch target of the instruction at x. */
  predicate Edge(f: Func, x: int, y: int)
    requires ValidFunc(f)
  {
    Decodes(f, x) && InFunc(f, y) &&
    var w := Classify(View(f, x), x);
    y == w.tgt || (!w.term && y == x + Length(View(f, x)).len)
  }

  /** Where a branch takes control inside the function is an edge, loop branches apart. */
  lemma TakenEdge(f: Func, x: int, y: int)
    requires ValidFunc(f) && InFunc(f, x) && InFunc(f, y) && Branches.Takes(View(f, x), x, y)
    ensures Edge(f, x, y) || (IsLoop(View(f, x)) && Length(View(f, x)).len > 0 && y == LoopTarget(View(f, x), x))
  {
    hide Branches.Takes, Length, Classify, IsLoop, LoopTarget;
    Branches.TakenReported(View(f, x), x, y);
  }

  ghost predicate IsPath(f: Func, p: seq<int>)
    requires ValidFunc(f)
  {
    && |p| > 0 && p[0] == f.fstart && InFunc(f, f.fstart)
    && forall i :: 0 <= i < |p| - 1 ==> Edge(f, p[i], p[i + 1])
  }

  /** A set that holds the entry and is closed under edges holds every reachable offset. */
  lemma {:induction false} ClosedHoldsPath(f: Func, s: set<int>, p: seq<int>)
    requires ValidFunc(f) && IsPath(f, p)
    requires f.fstart in s && forall x, y :: x in s && Edge(f, x, y) ==> y in s
    ensures p[|p| - 1] in s
    decreases |p|
  {
    hide Edge;
    if |p| > 1 {
      var q := p[..|p| - 1];
      ClosedHoldsPath(f, s, q);
      assert Edge(f, p[|p| - 2], p[|p| - 1]);
    }
  }

  // ---------------------------------------------------------------- the stack

  /** Distinct values in [lo, lo + n) are at most n. */
  lemma {:induction false} DistinctBound(s: set<int>, lo: int, n: nat)
    requires forall x :: x in s ==> lo <= x < lo + n
    ensures |s| <= n
    decreases n
  {
    if n > 0 {
      var top := lo + n - 1;
      var r := s - {top};
      DistinctBound(r, lo, n - 1);
      if top in s { assert s == r + {top}; } else { assert s == r; }
    } else {
      assert forall x :: x !in s;
      assert s == {};
    }
  }

  class Stack {
    const lo: int
    const n: nat
    const vis: array<bool>
    const stk: array<int>
    var sp: nat
    ghost var pending: set<int>   // what is on the stack
    ghost var done: set<int>      // what has been popped

    ghost predicate Valid()
      reads this, vis, stk
    {
      && vis.Length == n && stk.Length == n && sp <= n
      && |pending| == sp
      && pending !! done
      && (forall x :: x in pending || x in done ==> lo <= x < lo + n)
      && (forall i :: 0 <= i < sp ==> stk[i] in pending)
      && (forall i, j :: 0 <= i < j < sp ==> stk[i] != stk[j])
      && (forall x :: lo <= x < lo + n ==> (vis[x - lo] <==> x in pending || x in done))
    }

    constructor (lo: int, n: nat)
      ensures Valid() && this.lo == lo && this.n == n
      ensures pending == {} && done == {}
      ensures fresh(vis) && fresh(stk)
    {
      this.lo, this.n := lo, n;
      vis := new bool[n](i => false);
      stk := new int[n];
      sp := 0;
      pending, done := {}, {};
    }

    /** Z_PUSH: marks at push time, so the sp < n guard can never drop an unmarked offset. */
    method Push(x: int)
      requires Valid()
      modifies this, vis, stk
      ensures Valid() && done == old(done)
      ensures pending == old(pending) + if lo <= x < lo + n && x !in done then {x} else {}
    {
      if lo <= x < lo + n && !vis[x - lo] && sp < n {
        vis[x - lo] := true;
        stk[sp] := x;
        sp := sp + 1;
        pending := pending + {x};
      } else if lo <= x < lo + n && x !in pending && x !in done {
        DistinctBound(pending + {x}, lo, n);
        assert false;
      }
    }

    method Pop() returns (x: int)
      requires Valid() && sp > 0
      modifies this
      ensures Valid() && sp == old(sp) - 1
      ensures x in old(pending) && pending == old(pending) - {x} && done == old(done) + {x}
      ensures x !in old(done) && lo <= x < lo + n
    {
      sp := sp - 1;
      x := stk[sp];
      pending := pending - {x};
      done := done + {x};
    }
  }

  // -------------------------------------------------------------- discovery

  /** Every popped, decodable instruction has what the search follows from it marked. */
  ghost predicate ClosedUpTo(f: Func, readable: nat, leaAt: map<int, int>, marked: set<int>)
    requires ValidFunc(f) && readable <= |f.text|
  {
    forall x, y :: x in leaAt && Follows(f, readable, leaAt, x, y) ==> y in marked
  }

  /** out is, without repetition, sites that have been popped; all of them unless out is full. */
  ghost predicate Collected(f: Func, done: set<int>, out: seq<int>, maxout: nat)
    requires ValidFunc(f)
  {
    && |out| <= maxout
    && (forall i :: 0 <= i < |out| ==> out[i] in done && IsSite(f, out[i]))
    && (forall i, j :: 0 <= i < j < |out| ==> out[i] != out[j])
    && (|out| < maxout ==> forall x :: x in done && IsSite(f, x) ==> x in out)
  }

  lemma NothingYet(f: Func, readable: nat, marked: set<int>, maxout: nat)
    requires ValidFunc(f) && readable <= |f.text| && forall y :: y in marked ==> y == f.fstart && InFunc(f, y)
    ensures Collected(f, {}, [], maxout) && ClosedUpTo(f, readable, map[], marked)
    ensures AllReached(f, readable, map[], marked) && AllNoted(f, map[], -1)
  {
    hide Reached;
    if InFunc(f, f.fstart) { ReachEntry(f, readable, map[]); }
  }

  lemma CollectNext(f: Func, done: set<int>, out: seq<int>, maxout: nat, off: int)
    requires ValidFunc(f) && InFunc(f, off) && Collected(f, done, out, maxout) && off !in done
    ensures var site := IsSite(f, off) && |out| < maxout;
      Collected(f, done + {off}, if site then out + [off] else out, maxout)
  {
    hide IsSite;
  }

  lemma CloseNext(f: Func, readable: nat, leaAt: map<int, int>, marked: set<int>, more: set<int>, off: int, v: int)
    requires ValidFunc(f) && readable <= |f.text| && ClosedUpTo(f, readable, leaAt, marked) && marked <= more
    requires off !in leaAt && forall y :: Follows(f, readable, leaAt[off := v], off, y) ==> y in more
    ensures ClosedUpTo(f, readable, leaAt[off := v], more)
  {
    hide Edge, TableTarget, Dispatches;
    forall x, y | x in leaAt && Follows(f, readable, leaAt[off := v], x, y)
      ensures y in more
    {
      assert Follows(f, readable, leaAt, x, y);
    }
  }

  const MAX_ENTRIES := 4096

  /** Entry i of a switch table at base is readable and leads into the function. */
  predicate Listed(f: Func, readable: nat, base: nat, i: nat)
    requires ValidFunc(f) && readable <= |f.text|
  {
    i < MAX_ENTRIES && base + 4 * i + 4 <= readable && InFunc(f, EntryTarget(f, base, i))
  }

  function EntryTarget(f: Func, base: nat, i: nat): int {
    if base + 4 * i + 4 <= |f.text| then base + VexDecode.Signed32(f.text, base + 4 * i) else -1
  }

  /** The text holds a table of displacements at base, four bytes each, least significant first. */
  ghost predicate TableHeld(f: Func, base: nat, ds: seq<int>) {
    forall k :: 0 <= k < |ds| ==>
      -0x8000_0000 <= ds[k] <= 0x7FFF_FFFF && base + 4 * k + 4 <= |f.text|
      && f.text[base + 4 * k..base + 4 * k + 4] == Branches.Disp32(ds[k])
  }

  /** Entry k is read as its displacement from the table. */
  lemma EntryRead(f: Func, base: nat, ds: seq<int>, k: nat)
    requires TableHeld(f, base, ds) && k < |ds|
    ensures EntryTarget(f, base, k) == base + ds[k]
  {
    hide Branches.Disp32, VexDecode.Signed32;
    var p := base + 4 * k;
    var g := f.text[p..p + 4];
    assert forall j :: 0 <= j < 4 ==> f.text[p + j] == g[j];
    Branches.Disp32Read(f.text, p, ds[k]);
  }

  /** y is named by an entry that no unreadable or outside entry precedes. */
  ghost predicate TableTarget(f: Func, readable: nat, base: nat, y: int)
    requires ValidFunc(f) && readable <= |f.text|
  {
    TargetBelow(f, readable, base, MAX_ENTRIES, y)
  }

  ghost predicate TargetBelow(f: Func, readable: nat, base: nat, n: nat, y: int)
    requires ValidFunc(f) && readable <= |f.text|
  {
    exists i: nat :: i < n && AllListed(f, readable, base, i + 1) && EntryTarget(f, base, i) == y
  }

  ghost predicate AllListed(f: Func, readable: nat, base: nat, n: nat)
    requires ValidFunc(f) && readable <= |f.text|
  {
    forall i: nat :: i < n ==> Listed(f, readable, base, i)
  }

  lemma NextTarget(f: Func, readable: nat, base: nat, n: nat)
    requires ValidFunc(f) && readable <= |f.text| && AllListed(f, readable, base, n)
    ensures Listed(f, readable, base, n) ==> AllListed(f, readable, base, n + 1)
    ensures Listed(f, readable, base, n) ==> forall y ::
      TargetBelow(f, readable, base, n + 1, y) <==> TargetBelow(f, readable, base, n, y) || y == EntryTarget(f, base, n)
    ensures !Listed(f, readable, base, n) && n <= MAX_ENTRIES ==> forall y ::
      TargetBelow(f, readable, base, MAX_ENTRIES, y) <==> TargetBelow(f, readable, base, n, y)
  {
    hide EntryTarget, Listed;
    if Listed(f, readable, base, n) {
      assert AllListed(f, readable, base, n + 1);
    } else {
      forall y | n <= MAX_ENTRIES && TargetBelow(f, readable, base, MAX_ENTRIES, y)
        ensures TargetBelow(f, readable, base, n, y)
      {
        var i: nat :| i < MAX_ENTRIES && AllListed(f, readable, base, i + 1) && EntryTarget(f, base, i) == y;
        assert i < n;
      }
    }
  }

  /** The switch-table entries at base: exactly the targets before the first that leaves the function. */
  method PushTable(f: Func, readable: nat, base: int, w: Stack)
    requires ValidFunc(f) && readable <= |f.text| && 0 <= base
    requires w.Valid() && w.lo == f.fstart && w.n == f.fend - f.fstart
    modifies w, w.vis, w.stk
    ensures w.Valid() && w.done == old(w.done)
    ensures forall y :: y in w.pending <==> y in old(w.pending) || (TableTarget(f, readable, base, y) && y !in w.done)
  {
    hide Listed, TargetBelow, AllListed, EntryTarget;
    NoTargets(f, readable, base);
    for i := 0 to MAX_ENTRIES
      invariant w.Valid() && w.done == old(w.done) && AllListed(f, readable, base, i)
      invariant forall y ::
        y in w.pending <==> y in old(w.pending) || (TargetBelow(f, readable, base, i, y) && y !in w.done)
    {
      var e := base + 4 * i;
      NextTarget(f, readable, base, i);
      ListedIs(f, readable, base, i);
      if e + 4 > readable { break; }
      var tgt := base + VexDecode.Signed32(f.text, e);
      if tgt < f.fstart || tgt >= f.fend { break; }
      w.Push(tgt);
    }
  }

  lemma NoTargets(f: Func, readable: nat, base: nat)
    requires ValidFunc(f) && readable <= |f.text|
    ensures AllListed(f, readable, base, 0) && forall y :: !TargetBelow(f, readable, base, 0, y)
  {}

  lemma ListedIs(f: Func, readable: nat, base: nat, i: nat)
    requires ValidFunc(f) && readable <= |f.text| && i < MAX_ENTRIES
    ensures Listed(f, readable, base, i) <==>
      base + 4 * i + 4 <= readable && InFunc(f, base + VexDecode.Signed32(f.text, base + 4 * i))
    ensures Listed(f, readable, base, i) ==>
      EntryTarget(f, base, i) == base + VexDecode.Signed32(f.text, base + 4 * i)
  {}

  // ------------------------------------------------------------ table edges

  /** An indirect jump; the lea last visited before it is taken to give the table's address. */
  predicate Dispatches(f: Func, x: int)
    requires ValidFunc(f)
  {
    Decodes(f, x) && !IsLeaRip(View(f, x)) && IsJmpIndirect(View(f, x))
  }

  /** What the search follows: edges, and tables at the address noted when x was visited. */
  ghost predicate Follows(f: Func, readable: nat, leaAt: map<int, int>, x: int, y: int)
    requires ValidFunc(f) && readable <= |f.text|
  {
    Edge(f, x, y) || (x in leaAt && Dispatches(f, x) && leaAt[x] >= 0 && TableTarget(f, readable, leaAt[x], y))
  }

  /** Where a visited lea points. */
  ghost predicate LeaOf(f: Func, x: int, v: int)
    requires ValidFunc(f)
  {
    Decodes(f, x) && IsLeaRip(View(f, x)) && v == x + Length(View(f, x)).len + LeaDisp(View(f, x))
  }

  /** A noted address is none, or that of a visited lea. */
  ghost predicate Noted(f: Func, done: set<int>, v: int)
    requires ValidFunc(f)
  {
    v < 0 || exists x :: x in done && LeaOf(f, x, v)
  }

  ghost predicate IsRoute(f: Func, readable: nat, leaAt: map<int, int>, p: seq<int>)
    requires ValidFunc(f) && readable <= |f.text|
  {
    && |p| > 0 && p[0] == f.fstart && InFunc(f, f.fstart)
    && forall i :: 0 <= i < |p| - 1 ==> p[i] in leaAt && Follows(f, readable, leaAt, p[i], p[i + 1])
  }

  ghost predicate Reached(f: Func, readable: nat, leaAt: map<int, int>, y: int)
    requires ValidFunc(f) && readable <= |f.text|
  {
    exists p :: IsRoute(f, readable, leaAt, p) && p[|p| - 1] == y
  }

  lemma ReachOn(f: Func, readable: nat, leaAt: map<int, int>, x: int, y: int)
    requires ValidFunc(f) && readable <= |f.text|
    requires Reached(f, readable, leaAt, x) && x in leaAt && Follows(f, readable, leaAt, x, y)
    ensures Reached(f, readable, leaAt, y)
  {
    hide Follows;
    var p :| IsRoute(f, readable, leaAt, p) && p[|p| - 1] == x;
    var q := p + [y];
    assert IsRoute(f, readable, leaAt, q);
  }

  /** Noting an address at a new offset loses no route. */
  lemma ReachMore(f: Func, readable: nat, leaAt: map<int, int>, off: int, v: int, y: int)
    requires ValidFunc(f) && readable <= |f.text| && off !in leaAt && Reached(f, readable, leaAt, y)
    ensures Reached(f, readable, leaAt[off := v], y)
  {
    hide Edge, Dispatches, TableTarget;
    var p :| IsRoute(f, readable, leaAt, p) && p[|p| - 1] == y;
    assert IsRoute(f, readable, leaAt[off := v], p);
  }

  lemma ReachEntry(f: Func, readable: nat, leaAt: map<int, int>)
    requires ValidFunc(f) && readable <= |f.text| && InFunc(f, f.fstart)
    ensures Reached(f, readable, leaAt, f.fstart)
  {
    assert IsRoute(f, readable, leaAt, [f.fstart]);
  }

  // --------------------------------------------------------------- the loop

  /** One decodable instruction: its table, if it dispatches through one, and its successors. */
  method PushSuccessors(f: Func, readable: nat, off: int, lastLea: int, ghost leaAt: map<int, int>, w: Stack)
    returns (lea: int)
    requires ValidFunc(f) && readable <= |f.text| && Decodes(f, off) && off in leaAt && leaAt[off] == lastLea
    requires w.Valid() && w.lo == f.fstart && w.n == f.fend - f.fstart
    modifies w, w.vis, w.stk
    ensures w.Valid() && w.done == old(w.done)
    ensures forall y :: y in w.pending <==> y in old(w.pending) || (Follows(f, readable, leaAt, off, y) && y !in w.done)
    ensures lea == lastLea || LeaOf(f, off, lea)
  {
    hide Length, Classify, IsLeaRip, IsJmpIndirect, TableTarget, Follows, Stack.Valid;
    var s := View(f, off);
    var len := Length(s).len;
    var flow := Classify(s, off);
    FollowsWhat(f, readable, leaAt, off);
    TableInside(f, readable);
    lea := lastLea;
    if IsLeaRip(s) {
      lea := off + len + LeaDisp(s);
    } else if IsJmpIndirect(s) && lastLea >= 0 {
      PushTable(f, readable, lastLea, w);
    }
    if flow.tgt >= 0 { w.Push(flow.tgt); }
    if !flow.term { w.Push(off + len); }
  }

  /** What is followed from a decodable instruction, as the code asks for it. */
  lemma FollowsWhat(f: Func, readable: nat, leaAt: map<int, int>, x: int)
    requires ValidFunc(f) && readable <= |f.text| && Decodes(f, x) && x in leaAt
    ensures var s := View(f, x);
      forall y :: Follows(f, readable, leaAt, x, y) <==>
        InFunc(f, y) &&
        (y == Classify(s, x).tgt || (!Classify(s, x).term && y == x + Length(s).len)
         || (!IsLeaRip(s) && IsJmpIndirect(s) && leaAt[x] >= 0 && TableTarget(f, readable, leaAt[x], y)))
  {
    hide Length, Classify, IsLeaRip, IsJmpIndirect, TableTarget;
    TableInside(f, readable);
  }

  lemma TableInside(f: Func, readable: nat)
    requires ValidFunc(f) && readable <= |f.text|
    ensures forall base: nat, y :: TableTarget(f, readable, base, y) ==> InFunc(f, y)
  {
    hide EntryTarget;
    forall base: nat, y | TableTarget(f, readable, base, y)
      ensures InFunc(f, y)
    {
      var i: nat :| i < MAX_ENTRIES && AllListed(f, readable, base, i + 1) && EntryTarget(f, base, i) == y;
      assert Listed(f, readable, base, i);
    }
  }

  ghost predicate Progress(f: Func, readable: nat, leaAt: map<int, int>, lastLea: int, w: Stack, out: seq<int>,
                           maxout: nat)
    reads w, w.vis, w.stk
    requires ValidFunc(f) && readable <= |f.text|
  {
    && w.Valid() && w.lo == f.fstart && w.n == f.fend - f.fstart
    && Found(f, readable, leaAt, lastLea, w.pending, w.done, out, maxout)
  }

  /** What the search knows with these offsets marked and popped. */
  ghost predicate Found(f: Func, readable: nat, leaAt: map<int, int>, lastLea: int, pending: set<int>, done: set<int>,
                        out: seq<int>, maxout: nat)
    requires ValidFunc(f) && readable <= |f.text|
  {
    && leaAt.Keys == done
    && ClosedUpTo(f, readable, leaAt, pending + done)
    && AllReached(f, readable, leaAt, pending + done)
    && AllNoted(f, leaAt, lastLea)
    && Collected(f, done, out, maxout)
    && (InFunc(f, f.fstart) ==> f.fstart in pending + done)
  }

  ghost predicate AllReached(f: Func, readable: nat, leaAt: map<int, int>, marked: set<int>)
    requires ValidFunc(f) && readable <= |f.text|
  {
    forall y :: y in marked ==> Reached(f, readable, leaAt, y)
  }

  ghost predicate AllNoted(f: Func, leaAt: map<int, int>, lastLea: int)
    requires ValidFunc(f)
  {
    Noted(f, leaAt.Keys, lastLea) && forall x :: x in leaAt ==> Noted(f, leaAt.Keys, leaAt[x])
  }

  lemma NoteNext(f: Func, leaAt: map<int, int>, lastLea: int, off: int, lea: int)
    requires ValidFunc(f) && AllNoted(f, leaAt, lastLea) && (lea == lastLea || LeaOf(f, off, lea))
    ensures AllNoted(f, leaAt[off := lastLea], lea)
  {
    hide LeaOf;
    var more := leaAt[off := lastLea];
    assert more.Keys == leaAt.Keys + {off};
    assert forall v :: Noted(f, leaAt.Keys, v) ==> Noted(f, more.Keys, v);
  }

  /** Reached offsets stay reached when off is noted, and what off leads to is reached too. */
  lemma ReachNext(f: Func, readable: nat, leaAt: map<int, int>, marked: set<int>, more: set<int>, off: int, v: int)
    requires ValidFunc(f) && readable <= |f.text| && AllReached(f, readable, leaAt, marked)
    requires off !in leaAt && off in marked
    requires forall y :: y in more ==> y in marked || Follows(f, readable, leaAt[off := v], off, y)
    ensures AllReached(f, readable, leaAt[off := v], more)
  {
    hide Reached, Follows;
    forall y | y in more
      ensures Reached(f, readable, leaAt[off := v], y)
    {
      if y in marked {
        ReachMore(f, readable, leaAt, off, v, y);
      } else {
        ReachMore(f, readable, leaAt, off, v, off);
        ReachOn(f, readable, leaAt[off := v], off, y);
      }
    }
  }

  /** Popping off and marking what it leads to keeps what is known. */
  lemma FoundNext(f: Func, readable: nat, leaAt: map<int, int>, lastLea: int, pending: set<int>, done: set<int>,
                  out: seq<int>, maxout: nat, off: int, more: set<int>, lea: int)
    requires ValidFunc(f) && readable <= |f.text| && Found(f, readable, leaAt, lastLea, pending, done, out, maxout)
    requires off in pending && off !in done && InFunc(f, off) && (lea == lastLea || LeaOf(f, off, lea))
    requires forall y :: y in more <==>
      y in pending - {off} || (Follows(f, readable, leaAt[off := lastLea], off, y) && y !in done + {off})
    ensures Found(f, readable, leaAt[off := lastLea], lea, more, done + {off},
                  if IsSite(f, off) && |out| < maxout then out + [off] else out, maxout)
  {
    hide ClosedUpTo, AllReached, AllNoted, Follows, Collected, IsSite, LeaOf;
    var marked, now, noted := pending + done, more + (done + {off}), leaAt[off := lastLea];
    assert forall y :: y in pending - {off} ==> y in more;
    forall y | Follows(f, readable, noted, off, y)
      ensures y in now
    {}
    CloseNext(f, readable, leaAt, marked, now, off, lastLea);
    ReachNext(f, readable, leaAt, marked, now, off, lastLea);
    NoteNext(f, leaAt, lastLea, off, lea);
    CollectNext(f, done, out, maxout, off);
  }

  /** The popped instruction, decodable or not. */
  method Expand(f: Func, readable: nat, off: int, lastLea: int, ghost leaAt: map<int, int>, w: Stack)
    returns (lea: int)
    requires ValidFunc(f) && readable <= |f.text| && InFunc(f, off) && off in leaAt && leaAt[off] == lastLea
    requires w.Valid() && w.lo == f.fstart && w.n == f.fend - f.fstart
    modifies w, w.vis, w.stk
    ensures w.Valid() && w.done == old(w.done)
    ensures forall y :: y in w.pending <==> y in old(w.pending) || (Follows(f, readable, leaAt, off, y) && y !in w.done)
    ensures lea == lastLea || LeaOf(f, off, lea)
  {
    hide Length, Follows, LeaOf;
    if Length(View(f, off)).len > 0 {
      lea := PushSuccessors(f, readable, off, lastLea, leaAt, w);
    } else {
      NoEdges(f, readable, leaAt, off);
      lea := lastLea;
    }
  }

  /** One turn of the worklist loop. */
  method Visit(f: Func, readable: nat, maxout: nat, w: Stack, out: seq<int>, lastLea: int, ghost leaAt: map<int, int>)
    returns (more: seq<int>, lea: int, ghost off: int)
    requires ValidFunc(f) && readable <= |f.text| && Progress(f, readable, leaAt, lastLea, w, out, maxout) && w.sp > 0
    modifies w, w.vis, w.stk
    ensures |w.done| == |old(w.done)| + 1
    ensures off !in leaAt && Progress(f, readable, leaAt[off := lastLea], lea, w, more, maxout)
  {
    hide IsSite, Follows, LeaOf, Found, Stack.Valid;
    ghost var pending, done := w.pending, w.done;
    var at := w.Pop();
    off := at;
    ghost var noted := leaAt[off := lastLea];
    FoundOff(f, readable, leaAt, lastLea, pending, done, out, maxout, off);
    more := if IsSite(f, at) && |out| < maxout then out + [at] else out;
    lea := Expand(f, readable, at, lastLea, noted, w);
    FoundNext(f, readable, leaAt, lastLea, pending, done, out, maxout, off, w.pending, lea);
  }

  lemma FoundOff(f: Func, readable: nat, leaAt: map<int, int>, lastLea: int, pending: set<int>, done: set<int>,
                 out: seq<int>, maxout: nat, off: int)
    requires ValidFunc(f) && readable <= |f.text| && Found(f, readable, leaAt, lastLea, pending, done, out, maxout)
    ensures off in leaAt <==> off in done
  {
    hide ClosedUpTo, AllReached, AllNoted, Collected;
  }

  /**
   * lde_rd_zcnt. Termination is by the offsets not yet popped. An offset is visited exactly when
   * a route of edges and table entries leads to it; when the output is not full, it lists every
   * site so reached, those on a path of edges alone included.
   */
  method RdZcnt(f: Func, readable: nat, maxout: nat)
    returns (out: seq<int>, ghost visited: set<int>, ghost leaAt: map<int, int>)
    requires ValidFunc(f) && readable <= |f.text|
    ensures Collected(f, visited, out, maxout)
    ensures leaAt.Keys == visited && forall x :: x in visited ==> Noted(f, visited, leaAt[x])
    ensures forall y :: y in visited <==> Reached(f, readable, leaAt, y)
    ensures |out| < maxout ==> forall p :: IsPath(f, p) && IsSite(f, p[|p| - 1]) ==> p[|p| - 1] in out
  {
    hide Collected, ClosedUpTo, IsSite, IsPath, AllReached, AllNoted, Reached;
    var w := new Stack(f.fstart, f.fend - f.fstart);
    out, leaAt := [], map[];
    var lastLea := -1;
    w.Push(f.fstart);
    NothingYet(f, readable, w.pending + w.done, maxout);
    while w.sp > 0
      invariant Progress(f, readable, leaAt, lastLea, w, out, maxout) && fresh(w) && fresh(w.vis) && fresh(w.stk)
      decreases w.n - |w.done|
    {
      ghost var was := lastLea;
      ghost var off;
      out, lastLea, off := Visit(f, readable, maxout, w, out, lastLea, leaAt);
      leaAt := leaAt[off := was];
      DistinctBound(w.done, w.lo, w.n);
    }
    visited := w.done;
    assert w.pending == {};
    assert w.pending + w.done == visited;
    Finished(f, readable, leaAt, visited, out, maxout);
    Settled(f, readable, leaAt, lastLea, visited);
  }

  lemma Finished(f: Func, readable: nat, leaAt: map<int, int>, visited: set<int>, out: seq<int>, maxout: nat)
    requires ValidFunc(f) && readable <= |f.text| && leaAt.Keys == visited
    requires ClosedUpTo(f, readable, leaAt, visited) && Collected(f, visited, out, maxout)
    requires InFunc(f, f.fstart) ==> f.fstart in visited
    ensures |out| < maxout ==> forall p :: IsPath(f, p) && IsSite(f, p[|p| - 1]) ==> p[|p| - 1] in out
  {
    hide Edge, IsSite;
    forall p | IsPath(f, p)
      ensures p[|p| - 1] in visited
    {
      ClosedHoldsPath(f, visited, p);
    }
  }

  /** A set closed under what the search follows holds every route's end. */
  lemma {:induction false} ClosedHoldsRoute(f: Func, readable: nat, leaAt: map<int, int>, p: seq<int>)
    requires ValidFunc(f) && readable <= |f.text| && ClosedUpTo(f, readable, leaAt, leaAt.Keys)
    requires IsRoute(f, readable, leaAt, p) && f.fstart in leaAt
    ensures p[|p| - 1] in leaAt
    decreases |p|
  {
    hide Follows;
    if |p| > 1 {
      var q := p[..|p| - 1];
      ClosedHoldsRoute(f, readable, leaAt, q);
      assert Follows(f, readable, leaAt, p[|p| - 2], p[|p| - 1]);
    }
  }

  lemma Settled(f: Func, readable: nat, leaAt: map<int, int>, lastLea: int, visited: set<int>)
    requires ValidFunc(f) && readable <= |f.text| && leaAt.Keys == visited && AllNoted(f, leaAt, lastLea)
    requires ClosedUpTo(f, readable, leaAt, visited) && AllReached(f, readable, leaAt, visited)
    requires InFunc(f, f.fstart) ==> f.fstart in visited
    ensures forall x :: x in visited ==> Noted(f, visited, leaAt[x])
    ensures forall y :: y in visited <==> Reached(f, readable, leaAt, y)
  {
    hide ClosedUpTo, Noted, Follows;
    forall y | Reached(f, readable, leaAt, y)
      ensures y in visited
    {
      var p :| IsRoute(f, readable, leaAt, p) && p[|p| - 1] == y;
      ClosedHoldsRoute(f, readable, leaAt, p);
    }
  }

  lemma NoEdges(f: Func, readable: nat, leaAt: map<int, int>, x: int)
    requires ValidFunc(f) && readable <= |f.text| && InFunc(f, x) && Length(View(f, x)).len == 0
    ensures forall y :: !Follows(f, readable, leaAt, x, y)
  {
    hide TableTarget;
  }
}
