/**
 * Trampolining a cleanly decoding function: choosing where a jump may be written, and why
 * the patched program behaves like the original one with every faulting instruction trapped
 * and emulated. The first pass over a function resolves its switch dispatches and steps over
 * their tables; the second, which patches, does not.
 */
module Trampoline {
  import opened Decoded
  import opened ByteStrings
  import opened X86Len
  import opened ControlFlow
  import VexDecode
  import JumpTable

  /** faults: the descriptors that raise an illegal-instruction fault on this processor. */
  datatype Func = Func(text: Bytes, fstart: nat, fend: nat, faults: Insn -> bool)

  predicate Valid(f: Func) { f.fstart <= f.fend <= |f.text| }

  predicate InFunc(f: Func, x: int) { f.fstart <= x < f.fend }

  // ------------------------------------------------------------ linear walk

  function Len(f: Func, x: int): (n: nat)
    requires Valid(f) && InFunc(f, x)
    ensures x + n <= f.fend
  {
    Length(f.text[x..f.fend]).len
  }

  predicate PadByte(b: Byte) { b == 0 || b == 0xCC || b == 0x90 }

  /** At most fifteen bytes are left and all of them are padding. */
  predicate PadTail(f: Func, q: int)
    requires Valid(f) && f.fstart <= q <= f.fend
  {
    f.fend - q <= 15 && forall k :: q <= k < f.fend ==> PadByte(f.text[k])
  }

  /** The instruction boundaries from q on, as the second pass walks them. */
  function Starts(f: Func, q: int): (r: seq<int>)
    requires Valid(f) && f.fstart <= q <= f.fend
    ensures forall x :: x in r ==> q <= x < f.fend
    decreases f.fend - q
  {
    if q == f.fend || PadTail(f, q) || Len(f, q) == 0 then [] else [q] + Starts(f, q + Len(f, q))
  }

  predicate Boundary(f: Func, x: int)
    requires Valid(f)
  {
    x in Starts(f, f.fstart)
  }

  /** Boundaries are decodable, and no boundary lies inside another instruction. */
  lemma {:induction false} StartsFacts(f: Func, q: int, x: int)
    requires Valid(f) && f.fstart <= q <= f.fend && x in Starts(f, q)
    ensures Len(f, x) > 0 && !PadTail(f, x)
    ensures Starts(f, x) == [x] + Starts(f, x + Len(f, x))
    ensures forall y :: y in Starts(f, q) && y > x ==> y in Starts(f, x + Len(f, x))
    ensures forall y :: y in Starts(f, x) ==> y in Starts(f, q)
    decreases f.fend - q
  {
    hide Len, PadTail;
    if x != q {
      StartsFacts(f, q + Len(f, q), x);
    }
  }

  lemma BoundaryOrder(f: Func, x: int, y: int)
    requires Valid(f) && Boundary(f, x) && Boundary(f, y) && x < y
    ensures x + Len(f, x) <= y
  {
    StartsFacts(f, f.fstart, x);
  }

  // ------------------------------------------------------------ control flow

  function FlowAt(f: Func, x: int): Flow
    requires Valid(f) && InFunc(f, x) && Len(f, x) > 0
  {
    Classify(f.text[x..f.fend], x)
  }

  predicate IndirectAt(f: Func, x: int)
    requires Valid(f) && InFunc(f, x)
  {
    IsJmpIndirect(f.text[x..f.fend])
  }

  function TargetOf(f: Func, x: int): int
    requires Valid(f)
  {
    if InFunc(f, x) && Len(f, x) > 0 then FlowAt(f, x).tgt else -1
  }

  // ------------------------------------------------------- the first pass

  /** The lookback of the dispatch matcher. */
  const RING := 8

  function Pushed(ring: seq<int>, q: int): seq<int> { (if |ring| >= RING then ring[1..] else ring) + [q] }

  /** The text as the matcher reads it; what follows the text is not modelled. */
  function AsText(t: Bytes): JumpTable.Text { (k: int) => if 0 <= k < |t| then t[k] else 0 }

  /** The first recorded table that q lies in, or |tab|. */
  function Inside(tab: seq<JumpTable.Range>, q: int): (i: nat)
    ensures i <= |tab|
    ensures i < |tab| ==> tab[i].lo <= q < tab[i].hi
    ensures forall j :: 0 <= j < i ==> !(tab[j].lo <= q < tab[j].hi)
  {
    if |tab| == 0 || tab[0].lo <= q < tab[0].hi then 0 else 1 + Inside(tab[1..], q)
  }

  predicate TablesEnd(tab: seq<JumpTable.Range>, end: int) { forall i :: 0 <= i < |tab| ==> tab[i].hi <= end }

  /** The table of the indirect jump at q, if it is matched and there is room to record it. */
  function TableFor(f: Func, q: int, ring: seq<int>, tab: seq<JumpTable.Range>): (t: JumpTable.Table)
    requires Valid(f) && InFunc(f, q)
    ensures t.Table? ==> IndirectAt(f, q) && f.fstart <= t.tbl && t.n > 0 && t.tbl + 4 * t.n <= f.fend
  {
    var text := AsText(f.text);
    var t := JumpTable.Match(text, f.fstart, f.fend, ring, q, Len(f, q));
    if IndirectAt(f, q) && |tab| < JumpTable.MAX_TABLES && t.Table? then
      JumpTable.MatchParts(text, f.fstart, f.fend, ring, q, Len(f, q));
      t
    else JumpTable.NoTable
  }

  function RangeOf(t: JumpTable.Table): seq<JumpTable.Range> {
    if t.Table? then [JumpTable.Range(t.tbl, t.tbl + 4 * t.n)] else []
  }

  /** A resolved jump and its table. */
  datatype Dispatch = Dispatch(at: int, tbl: int, n: nat)

  function DispatchOf(q: int, t: JumpTable.Table): seq<Dispatch> {
    if t.Table? then [Dispatch(q, t.tbl, t.n)] else []
  }

  /** What the pass finds: instructions, resolved jumps, whether one is unresolved, whether it got to the end. */
  datatype Pass = Pass(starts: seq<int>, dispatches: seq<Dispatch>, unresolved: bool, clean: bool)

  /** The walk of collect_branch_targets from q, ring holding the last instructions and tab the tables. */
  function PassFrom(f: Func, q: int, ring: seq<int>, tab: seq<JumpTable.Range>): (r: Pass)
    requires Valid(f) && f.fstart <= q <= f.fend && TablesEnd(tab, f.fend)
    ensures forall x :: x in r.starts ==> q <= x < f.fend
    decreases f.fend - q
  {
    if q == f.fend then Pass([], [], false, true)
    else
      var i := Inside(tab, q);
      if i < |tab| then PassFrom(f, tab[i].hi, [], tab)
      else if PadTail(f, q) then Pass([], [], false, true)
      else if Len(f, q) == 0 then Pass([], [], false, false)
      else
        var t := TableFor(f, q, ring, tab);
        var rest := PassFrom(f, q + Len(f, q), Pushed(ring, q), tab + RangeOf(t));
        Then(q, t, IndirectAt(f, q) && t.NoTable?, rest)
  }

  function Then(q: int, t: JumpTable.Table, lost: bool, rest: Pass): Pass {
    Pass([q] + rest.starts, DispatchOf(q, t) + rest.dispatches, lost || rest.unresolved, rest.clean)
  }

  function FirstPass(f: Func): Pass
    requires Valid(f)
  {
    PassFrom(f, f.fstart, [], [])
  }

  predicate Clean(f: Func)
    requires Valid(f)
  {
    FirstPass(f).clean
  }

  /** An instruction of the first pass, so of no table recorded by then. */
  predicate Code(f: Func, x: int)
    requires Valid(f)
  {
    x in FirstPass(f).starts
  }

  /** Some indirect jump resolves to no table. */
  predicate HasIndirect(f: Func)
    requires Valid(f)
  {
    FirstPass(f).unresolved
  }

  /** An entry of the dispatch's table names y. */
  predicate Named(f: Func, d: Dispatch, y: int) { JumpTable.NamedBy(AsText(f.text), d.tbl, d.n, y) }

  predicate MarkedBy(f: Func, starts: seq<int>, ds: seq<Dispatch>, y: int)
    requires Valid(f)
  {
    (exists x :: x in starts && TargetOf(f, x) == y) || exists d :: d in ds && Named(f, d, y)
  }

  /** A branch of the first pass or an entry of a resolved table leads to y. */
  predicate Marked(f: Func, y: int)
    requires Valid(f)
  {
    InFunc(f, y) && MarkedBy(f, FirstPass(f).starts, FirstPass(f).dispatches, y)
  }

  function Before(starts: seq<int>, ds: seq<Dispatch>, lost: bool, rest: Pass): Pass {
    Pass(starts + rest.starts, ds + rest.dispatches, lost || rest.unresolved, rest.clean)
  }

  lemma BeforeThen(starts: seq<int>, ds: seq<Dispatch>, lost: bool, q: int, t: JumpTable.Table, here: bool, rest: Pass)
    ensures Before(starts, ds, lost, Then(q, t, here, rest))
              == Before(starts + [q], ds + DispatchOf(q, t), lost || here, rest)
  {
    assert starts + ([q] + rest.starts) == starts + [q] + rest.starts;
    assert ds + (DispatchOf(q, t) + rest.dispatches) == ds + DispatchOf(q, t) + rest.dispatches;
  }

  lemma MarkedMore(f: Func, starts: seq<int>, ds: seq<Dispatch>, q: int, t: JumpTable.Table, y: int)
    requires Valid(f)
    ensures MarkedBy(f, starts + [q], ds + DispatchOf(q, t), y) <==>
      MarkedBy(f, starts, ds, y) || TargetOf(f, q) == y
      || (t.Table? && JumpTable.NamedBy(AsText(f.text), t.tbl, t.n, y))
  {
    hide TargetOf, JumpTable.NamedBy;
    assert q in starts + [q];
    assert forall x :: x in starts ==> x in starts + [q];
    if t.Table? { assert Dispatch(q, t.tbl, t.n) in ds + DispatchOf(q, t); }
    assert forall d :: d in ds ==> d in ds + DispatchOf(q, t);
  }

  method InsideTable(tab: seq<JumpTable.Range>, q: int) returns (i: nat)
    ensures i == Inside(tab, q)
  {
    i := 0;
    assert tab[0..] == tab;
    while i < |tab| && !(tab[i].lo <= q < tab[i].hi)
      invariant i <= |tab| && Inside(tab, q) == i + Inside(tab[i..], q)
    {
      assert tab[i..][0] == tab[i] && tab[i..][1..] == tab[i + 1..];
      i := i + 1;
    }
    if i < |tab| { assert tab[i..][0] == tab[i]; }
  }

  /** What holds between the steps of the first pass: the instructions seen and the marks set for them. */
  ghost predicate Collected(f: Func, q: int, ring: seq<int>, tab: seq<JumpTable.Range>, seen: seq<int>,
                            ds: seq<Dispatch>, lost: bool, marks: seq<bool>)
    requires Valid(f)
  {
    && f.fstart <= q <= f.fend && TablesEnd(tab, f.fend) && |marks| == f.fend - f.fstart
    && FirstPass(f) == Before(seen, ds, lost, PassFrom(f, q, ring, tab))
    && MarksFor(f, seen, ds, marks)
  }

  ghost predicate MarksFor(f: Func, seen: seq<int>, ds: seq<Dispatch>, marks: seq<bool>)
    requires Valid(f) && |marks| == f.fend - f.fstart
  {
    forall y :: InFunc(f, y) ==> (marks[y - f.fstart] <==> MarkedBy(f, seen, ds, y))
  }

  /** collect_branch_targets, on a map that starts out clear. */
  method CollectTargets(f: Func, tgt: array<bool>) returns (clean: bool, hasIndirect: bool)
    requires Valid(f) && tgt.Length == f.fend - f.fstart && forall k :: 0 <= k < tgt.Length ==> !tgt[k]
    modifies tgt
    ensures clean == Clean(f)
    ensures clean ==> hasIndirect == HasIndirect(f)
    ensures clean ==> forall y :: InFunc(f, y) ==> (tgt[y - f.fstart] <==> Marked(f, y))
  {
    hide Collected, PadTail, Inside, Len, IndirectAt, PassFrom, TableFor, TableMarks, TargetOf, FlowAt, MarkedBy,
         FirstPass, Clean, HasIndirect, Marked, AsText, JumpTable.Match, JumpTable.NamedBy;
    hasIndirect := false;
    var q: int := f.fstart;
    var ring: seq<int>, tab: seq<JumpTable.Range> := [], [];
    ghost var seen: seq<int>, ds: seq<Dispatch> := [], [];
    CollectNothing(f, tgt[..]);
    while q < f.fend
      invariant Collected(f, q, ring, tab, seen, ds, hasIndirect, tgt[..])
      invariant f.fstart <= q <= f.fend
      decreases f.fend - q
    {
      CollectRange(f, q, ring, tab, seen, ds, hasIndirect, tgt[..]);
      var i := InsideTable(tab, q);
      if i < |tab| {
        CollectSkip(f, q, ring, tab, seen, ds, hasIndirect, tgt[..]);
        q, ring := tab[i].hi, [];
      } else if PadTail(f, q) {
        CollectEnd(f, q, ring, tab, seen, ds, hasIndirect, tgt[..]);
        return true, hasIndirect;
      } else {
        var len := Len(f, q);
        if len == 0 {
          CollectDesync(f, q, ring, tab, seen, ds, hasIndirect, tgt[..]);
          return false, hasIndirect;
        }
        ghost var marks, lost := tgt[..], hasIndirect;
        ghost var t := TableFor(f, q, ring, tab);
        var ok, more := true, tab;
        if IndirectAt(f, q) {
          ok, more := JumpTable.ResolveJumpTable(AsText(f.text), f.fstart, f.fend, ring, q, len, tgt, tab);
          if !ok { hasIndirect := true; }
        }
        ghost var after := tgt[..];
        TableResolved(f, q, ring, tab, ok, more, marks, after);
        var target := FlowAt(f, q).tgt;
        if InFunc(f, target) { tgt[target - f.fstart] := true; }
        TargetMarked(f, q, after, tgt[..]);
        CollectStep(f, q, ring, tab, seen, ds, lost, marks, after, tgt[..]);
        seen, ds := seen + [q], ds + DispatchOf(q, t);
        ring, tab := Pushed(ring, q), more;
        q := q + len;
      }
    }
    CollectEnd(f, q, ring, tab, seen, ds, hasIndirect, tgt[..]);
    clean := true;
  }

  lemma CollectNothing(f: Func, marks: seq<bool>)
    requires Valid(f) && |marks| == f.fend - f.fstart && forall k :: 0 <= k < |marks| ==> !marks[k]
    ensures Collected(f, f.fstart, [], [], [], [], false, marks)
  {
    hide PassFrom;
    assert forall p: Pass :: Before([], [], false, p) == p;
  }

  lemma CollectRange(f: Func, q: int, ring: seq<int>, tab: seq<JumpTable.Range>, seen: seq<int>, ds: seq<Dispatch>,
                     lost: bool, marks: seq<bool>)
    requires Valid(f) && Collected(f, q, ring, tab, seen, ds, lost, marks)
    ensures TablesEnd(tab, f.fend) && |marks| == f.fend - f.fstart
  {
    hide PassFrom, FirstPass, MarkedBy;
  }

  lemma CollectSkip(f: Func, q: int, ring: seq<int>, tab: seq<JumpTable.Range>, seen: seq<int>, ds: seq<Dispatch>,
                    lost: bool, marks: seq<bool>)
    requires Valid(f) && Collected(f, q, ring, tab, seen, ds, lost, marks) && q < f.fend && Inside(tab, q) < |tab|
    ensures f.fstart <= tab[Inside(tab, q)].hi <= f.fend
    ensures Collected(f, tab[Inside(tab, q)].hi, [], tab, seen, ds, lost, marks)
  {
    hide FirstPass, MarkedBy, PadTail, Len, TableFor, Inside;
  }

  lemma CollectEnd(f: Func, q: int, ring: seq<int>, tab: seq<JumpTable.Range>, seen: seq<int>, ds: seq<Dispatch>,
                   lost: bool, marks: seq<bool>)
    requires Valid(f) && Collected(f, q, ring, tab, seen, ds, lost, marks)
    requires q == f.fend || (Inside(tab, q) == |tab| && PadTail(f, q))
    ensures Clean(f) && lost == HasIndirect(f)
    ensures forall y :: InFunc(f, y) ==> (marks[y - f.fstart] <==> Marked(f, y))
  {
    hide MarkedBy, PadTail, Len, TableFor, Inside, FirstPass;
    assert PassFrom(f, q, ring, tab) == Pass([], [], false, true);
    assert seen + [] == seen && ds + [] == ds;
  }

  lemma CollectDesync(f: Func, q: int, ring: seq<int>, tab: seq<JumpTable.Range>, seen: seq<int>, ds: seq<Dispatch>,
                      lost: bool, marks: seq<bool>)
    requires Valid(f) && Collected(f, q, ring, tab, seen, ds, lost, marks) && q < f.fend
    requires Inside(tab, q) == |tab| && !PadTail(f, q) && Len(f, q) == 0
    ensures !Clean(f)
  {
    hide MarkedBy, PadTail, Len, TableFor, Inside, FirstPass;
  }

  /** The marks that the table of the jump at q, if it has one, added. */
  ghost predicate TableMarks(f: Func, t: JumpTable.Table, marks: seq<bool>, after: seq<bool>)
    requires Valid(f) && |marks| == |after| == f.fend - f.fstart
  {
    forall y :: InFunc(f, y) ==>
      (after[y - f.fstart] <==> marks[y - f.fstart] || (t.Table? && JumpTable.NamedBy(AsText(f.text), t.tbl, t.n, y)))
  }

  lemma TableResolved(f: Func, q: int, ring: seq<int>, tab: seq<JumpTable.Range>, ok: bool, more: seq<JumpTable.Range>,
                      marks: seq<bool>, after: seq<bool>)
    requires Valid(f) && InFunc(f, q) && |marks| == |after| == f.fend - f.fstart
    requires if !IndirectAt(f, q) then ok && more == tab && after == marks else
      var t := JumpTable.Match(AsText(f.text), f.fstart, f.fend, ring, q, Len(f, q));
      && ok == (t.Table? && |tab| < JumpTable.MAX_TABLES)
      && more == (if ok then tab + [JumpTable.Range(t.tbl, t.tbl + 4 * t.n)] else tab)
      && forall k :: 0 <= k < |after| ==>
           after[k] == (marks[k] || (ok && JumpTable.NamedBy(AsText(f.text), t.tbl, t.n, k + f.fstart)))
    ensures var t := TableFor(f, q, ring, tab);
      more == tab + RangeOf(t) && (ok <==> !IndirectAt(f, q) || t.Table?) && TableMarks(f, t, marks, after)
  {
    hide IndirectAt, JumpTable.Match, JumpTable.NamedBy, Len;
    var t := TableFor(f, q, ring, tab);
    assert tab + [] == tab;
    forall y | InFunc(f, y)
      ensures after[y - f.fstart] <==>
        marks[y - f.fstart] || (t.Table? && JumpTable.NamedBy(AsText(f.text), t.tbl, t.n, y))
    {
      assert y - f.fstart + f.fstart == y;
    }
  }

  lemma TargetMarked(f: Func, q: int, marks: seq<bool>, now: seq<bool>)
    requires Valid(f) && InFunc(f, q) && Len(f, q) > 0 && |marks| == f.fend - f.fstart
    requires var y := FlowAt(f, q).tgt; now == if InFunc(f, y) then marks[y - f.fstart := true] else marks
    ensures |now| == |marks|
    ensures forall y :: InFunc(f, y) ==> (now[y - f.fstart] <==> marks[y - f.fstart] || TargetOf(f, q) == y)
  {
    hide Len, FlowAt;
  }

  lemma CollectStep(f: Func, q: int, ring: seq<int>, tab: seq<JumpTable.Range>, seen: seq<int>, ds: seq<Dispatch>,
                    lost: bool, marks: seq<bool>, after: seq<bool>, now: seq<bool>)
    requires Valid(f) && Collected(f, q, ring, tab, seen, ds, lost, marks) && q < f.fend
    requires Inside(tab, q) == |tab| && !PadTail(f, q) && Len(f, q) > 0
    requires |marks| == |after| == |now| == f.fend - f.fstart
    requires TableMarks(f, TableFor(f, q, ring, tab), marks, after)
    requires forall y :: InFunc(f, y) ==> (now[y - f.fstart] <==> after[y - f.fstart] || TargetOf(f, q) == y)
    ensures var t := TableFor(f, q, ring, tab);
      Collected(f, q + Len(f, q), Pushed(ring, q), tab + RangeOf(t), seen + [q], ds + DispatchOf(q, t),
                lost || (IndirectAt(f, q) && t.NoTable?), now)
  {
    hide Inside, PadTail, Len, IndirectAt, TableFor, FirstPass, TargetOf, Then, Before, MarksFor, TableMarks, PassFrom;
    var t := TableFor(f, q, ring, tab);
    var here := IndirectAt(f, q) && t.NoTable?;
    var rest := PassFrom(f, q + Len(f, q), Pushed(ring, q), tab + RangeOf(t));
    PassStep(f, q, ring, tab);
    BeforeThen(seen, ds, lost, q, t, here, rest);
    MarksStep(f, seen, ds, q, t, marks, after, now);
  }

  lemma PassStep(f: Func, q: int, ring: seq<int>, tab: seq<JumpTable.Range>)
    requires Valid(f) && f.fstart <= q < f.fend && TablesEnd(tab, f.fend)
    requires Inside(tab, q) == |tab| && !PadTail(f, q) && Len(f, q) > 0
    ensures var t := TableFor(f, q, ring, tab);
      && TablesEnd(tab + RangeOf(t), f.fend)
      && PassFrom(f, q, ring, tab)
           == Then(q, t, IndirectAt(f, q) && t.NoTable?,
                   PassFrom(f, q + Len(f, q), Pushed(ring, q), tab + RangeOf(t)))
  {
    hide Inside, PadTail, Len, IndirectAt, TableFor, Then;
  }

  lemma MarksStep(f: Func, seen: seq<int>, ds: seq<Dispatch>, q: int, t: JumpTable.Table, marks: seq<bool>,
                  after: seq<bool>, now: seq<bool>)
    requires Valid(f) && |marks| == |after| == |now| == f.fend - f.fstart
    requires MarksFor(f, seen, ds, marks) && TableMarks(f, t, marks, after)
    requires forall y :: InFunc(f, y) ==> (now[y - f.fstart] <==> after[y - f.fstart] || TargetOf(f, q) == y)
    ensures MarksFor(f, seen + [q], ds + DispatchOf(q, t), now)
  {
    hide TargetOf, MarkedBy, JumpTable.NamedBy;
    forall y | InFunc(f, y)
      ensures now[y - f.fstart] <==> MarkedBy(f, seen + [q], ds + DispatchOf(q, t), y)
    {
      MarkedMore(f, seen, ds, q, t, y);
    }
  }

  // ------------------------------------------- what the first pass says

  /** Its instructions decode, lie in order without overlap, and its unresolved jumps are noticed. */
  lemma {:induction false} PassFacts(f: Func, q: int, ring: seq<int>, tab: seq<JumpTable.Range>, x: int)
    requires Valid(f) && f.fstart <= q <= f.fend && TablesEnd(tab, f.fend)
    requires x in PassFrom(f, q, ring, tab).starts
    ensures InFunc(f, x) && Len(f, x) > 0 && !PadTail(f, x)
    ensures forall y :: y in PassFrom(f, q, ring, tab).starts && y > x ==> x + Len(f, x) <= y
    ensures IndirectAt(f, x) && !PassFrom(f, q, ring, tab).unresolved ==>
      exists d :: d in PassFrom(f, q, ring, tab).dispatches && d.at == x
    decreases f.fend - q
  {
    hide Len, PadTail, IndirectAt, TableFor, Inside;
    var i := Inside(tab, q);
    if i < |tab| {
      PassFacts(f, tab[i].hi, [], tab, x);
    } else {
      var t := TableFor(f, q, ring, tab);
      var rest := PassFrom(f, q + Len(f, q), Pushed(ring, q), tab + RangeOf(t));
      if x == q {
        if t.Table? { assert DispatchOf(q, t)[0].at == x; }
      } else {
        PassFacts(f, q + Len(f, q), Pushed(ring, q), tab + RangeOf(t), x);
      }
    }
  }

  lemma CodeFacts(f: Func, x: int)
    requires Valid(f) && Code(f, x)
    ensures InFunc(f, x) && Len(f, x) > 0 && !PadTail(f, x)
  {
    hide Len, PadTail, PassFrom;
    PassFacts(f, f.fstart, [], [], x);
  }

  lemma CodeOrder(f: Func, x: int, y: int)
    requires Valid(f) && Code(f, x) && Code(f, y) && x < y
    ensures InFunc(f, x) && x + Len(f, x) <= y
  {
    hide Len, PadTail, PassFrom;
    PassFacts(f, f.fstart, [], [], x);
  }

  /** x is a resolved jump. */
  predicate Resolves(f: Func, x: int)
    requires Valid(f)
  {
    exists d :: d in FirstPass(f).dispatches && d.at == x
  }

  lemma IndirectResolves(f: Func, x: int)
    requires Valid(f) && Code(f, x) && InFunc(f, x) && IndirectAt(f, x) && !HasIndirect(f)
    ensures Resolves(f, x)
  {
    hide Len, PadTail, PassFrom, IndirectAt;
    PassFacts(f, f.fstart, [], [], x);
  }

  /** While no table is recorded the two passes walk alike. */
  lemma {:induction false} OneWalkFrom(f: Func, q: int, ring: seq<int>)
    requires Valid(f) && f.fstart <= q <= f.fend && PassFrom(f, q, ring, []).dispatches == []
    ensures PassFrom(f, q, ring, []).starts == Starts(f, q)
    decreases f.fend - q
  {
    hide Len, PadTail, IndirectAt, TableFor;
    if q < f.fend && !PadTail(f, q) && Len(f, q) > 0 {
      var t := TableFor(f, q, ring, []);
      assert t.NoTable?;
      assert [] + RangeOf(t) == [];
      OneWalkFrom(f, q + Len(f, q), Pushed(ring, q));
    }
  }

  /** In a function none of whose jumps resolves, every boundary is an instruction of the first pass. */
  lemma OneWalk(f: Func)
    requires Valid(f) && FirstPass(f).dispatches == []
    ensures forall x :: Code(f, x) <==> Boundary(f, x)
  {
    hide PassFrom, Starts;
    OneWalkFrom(f, f.fstart, []);
  }

  // -------------------------------------------------------- faulting runs

  /** An instruction that both decoders accept and that faults on this processor. */
  predicate Faulting(f: Func, x: int)
    requires Valid(f)
  {
    && InFunc(f, x) && Len(f, x) > 0
    && VexDecode.Decode(f.text[x..]).Ok?
    && f.faults(VexDecode.Decode(f.text[x..]).insn)
  }

  function DecLen(f: Func, x: int): nat
    requires Valid(f) && Faulting(f, x)
  {
    VexDecode.Decode(f.text[x..]).insn.len
  }

  /** Every faulting boundary has its REX, if any, directly before the opcode. */
  ghost predicate PlainFaults(f: Func)
    requires Valid(f)
  {
    forall x :: Boundary(f, x) && Faulting(f, x) ==> VexDecode.PlainRex(f.text[x..])
  }

  /** The emulator's length is the linear walk's, and at least four bytes. */
  lemma FaultLength(f: Func, x: int)
    requires Valid(f) && Faulting(f, x) && VexDecode.PlainRex(f.text[x..])
    ensures DecLen(f, x) == Len(f, x) >= 4
  {
    hide Length, VexDecode.Decode, VexDecode.PlainRex;
    SelfDelimiting(f.text[x..f.fend], f.text[x..]);
    VexDecode.DecodersAgree(f.text[x..]);
    VexDecode.AtLeastFour(f.text[x..]);
  }

  const MAXRUN := 64
  const JMP := 5

  // ------------------------------------------------------------ placement

  /** A five-byte jump at x stays inside x, or covers one byte of a boundary nothing else reaches. */
  predicate SafeStart(f: Func, x: int)
    requires Valid(f) && InFunc(f, x)
  {
    Len(f, x) >= JMP || (!HasIndirect(f) && !Marked(f, x + 4))
  }

  datatype Patch = Patch(site: int, resume: int)

  /** Every instruction from x up to e faults, and they fill the space exactly. */
  predicate AllFault(f: Func, x: int, e: int)
    requires Valid(f) && f.fstart <= x <= e <= f.fend
    decreases e - x
  {
    x == e || (Faulting(f, x) && x + Len(f, x) <= e && AllFault(f, x + Len(f, x), e))
  }

  predicate GoodPatch(f: Func, p: Patch)
    requires Valid(f)
  {
    && Boundary(f, p.site) && p.site + JMP <= p.resume <= f.fend
    && AllFault(f, p.site, p.resume)
    && SafeStart(f, p.site)
  }

  /** In address order, without overlap. */
  predicate GoodPatches(f: Func, ps: seq<Patch>)
    requires Valid(f)
  {
    && (forall i :: 0 <= i < |ps| ==> GoodPatch(f, ps[i]))
    && (forall i, j :: 0 <= i < j < |ps| ==> ps[i].resume <= ps[j].site)
  }

  /** The program text never starts a faulting instruction with a padding byte. */
  lemma FaultNotPadding(f: Func, x: int)
    requires Valid(f) && Faulting(f, x)
    ensures !PadTail(f, x)
  {
    hide VexDecode.Decode;
    VexDecode.FirstByte(f.text[x..]);
  }

  lemma FaultingDecodes(f: Func, x: int)
    requires Valid(f) && Faulting(f, x)
    ensures InFunc(f, x) && Len(f, x) > 0
  {}

  /** The second pass found in [x, e) only what the first pass takes for instructions. */
  predicate CodeRun(f: Func, x: int, e: int)
    requires Valid(f)
    decreases e - x
  {
    x >= e || (Code(f, x) && InFunc(f, x) && Len(f, x) > 0 && CodeRun(f, x + Len(f, x), e))
  }

  /** A jump at p overwrites no table of a resolved dispatch. */
  predicate ClearOfTables(f: Func, p: Patch)
    requires Valid(f)
  {
    forall d :: d in FirstPass(f).dispatches ==> p.site + JMP <= d.tbl || d.tbl + 4 * d.n <= p.site
  }

  /** The patch replaces what the first pass takes for instructions and writes over no table. */
  predicate InCode(f: Func, p: Patch)
    requires Valid(f)
  {
    CodeRun(f, p.site, p.resume) && ClearOfTables(f, p)
  }

  predicate GoodCode(f: Func, p: Patch)
    requires Valid(f)
  {
    GoodPatch(f, p) && InCode(f, p)
  }

  predicate GoodCodes(f: Func, ps: seq<Patch>)
    requires Valid(f)
  {
    && (forall i :: 0 <= i < |ps| ==> GoodCode(f, ps[i]))
    && (forall i, j :: 0 <= i < j < |ps| ==> ps[i].resume <= ps[j].site)
  }

  lemma BoundaryNext(f: Func, x: int)
    requires Valid(f) && Boundary(f, x) && InFunc(f, x)
    requires x + Len(f, x) < f.fend && !PadTail(f, x + Len(f, x)) && Len(f, x + Len(f, x)) > 0
    ensures Boundary(f, x + Len(f, x))
  {
    hide Len, PadTail;
    StartsFacts(f, f.fstart, x);
    assert x + Len(f, x) in Starts(f, x + Len(f, x));
  }

  lemma {:induction false} BoundariesRun(f: Func, x: int, e: int)
    requires Valid(f) && f.fstart <= x <= e <= f.fend && AllFault(f, x, e) && (x < e ==> Boundary(f, x))
    requires forall y :: Code(f, y) <==> Boundary(f, y)
    ensures CodeRun(f, x, e)
    decreases e - x
  {
    hide Len, Faulting, Code, Boundary, PadTail;
    if x < e {
      FaultingDecodes(f, x);
      var y := x + Len(f, x);
      if y < e {
        FaultingDecodes(f, y);
        FaultNotPadding(f, y);
        BoundaryNext(f, x);
      }
      BoundariesRun(f, y, e);
    }
  }

  /** Where no dispatch resolves, good patches meet no table. */
  lemma NoTableGood(f: Func, ps: seq<Patch>)
    requires Valid(f) && GoodPatches(f, ps) && FirstPass(f).dispatches == []
    ensures GoodCodes(f, ps)
  {
    hide Code, Boundary, AllFault, SafeStart, FirstPass, CodeRun;
    OneWalk(f);
    forall i | 0 <= i < |ps|
      ensures GoodCode(f, ps[i])
    {
      assert GoodPatch(f, ps[i]);
      BoundaryInFunc(f, ps[i].site);
      BoundariesRun(f, ps[i].site, ps[i].resume);
    }
  }

  lemma BoundaryInFunc(f: Func, x: int)
    requires Valid(f) && Boundary(f, x)
    ensures InFunc(f, x)
  {}
}
