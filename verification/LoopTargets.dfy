/**
 * The branches that the scanner does not see: a patched function keeps to what the original could
 * do exactly if no loop branch leads inside a written jump.
 */
module LoopTargets {
  import opened Trampoline
  import opened Simulation
  import opened ControlFlow
  import opened X86Len
  import Branches

  /** Every patched execution from outside the written jumps is an original one with the same ends. */
  ghost predicate Simulated<S(!new)>(f: Func, m: Processor<S>, ps: seq<Patch>)
    requires Valid(f) && GoodCodes(f, ps)
  {
    forall t: seq<Config<S>> :: PatchedTrace(f, m, ps, t) && !Overwritten(ps, t[0].pc) ==> Matched(f, m, t)
  }

  ghost predicate Matched<S(!new)>(f: Func, m: Processor<S>, t: seq<Config<S>>)
    requires Valid(f) && |t| > 0
  {
    exists u: seq<Config<S>> :: Trace(f, m, u) && u[0] == t[0] && u[|u| - 1] == t[|t| - 1]
  }

  /** A processor that only takes the branch from x to y. */
  function Branching(x: int, y: int): Processor<bool> {
    Processor((pc, st) => st, (pc, st, next, after) => pc == x && next == y)
  }

  /** No original execution leaves the offsets from 0 on. */
  lemma {:induction false} StaysPositive(f: Func, x: nat, y: nat, u: seq<Config<bool>>)
    requires Valid(f) && Trace(f, Branching(x, y), u) && u[0].pc >= 0
    ensures u[|u| - 1].pc >= 0
    decreases |u|
  {
    hide Code, Faulting, Allowed, Len;
    if |u| > 1 {
      assert Step(f, Branching(x, y), u[0], u[1]);
      TraceTail(f, Branching(x, y), u, 1);
      StaysPositive(f, x, y, u[1..]);
    }
  }

  /** What is overwritten, but for the first byte, is in the run and faults. */
  lemma OverwrittenFaults(f: Func, p: Patch, y: int)
    requires Valid(f) && PlainFaults(f) && GoodCode(f, p) && Code(f, y) && p.site < y < p.site + JMP
    ensures Faulting(f, y) && y < p.resume
  {
    hide Len, Code, InCode, SafeStart, Faulting;
    OverwrittenIsSuccessor(f, p, y);
    SiteFaults(f, p);
    assert AllFault(f, p.site, p.resume);
    assert AllFault(f, y, p.resume);
  }

  lemma NoSiteInside(f: Func, ps: seq<Patch>, i: nat, y: int)
    requires Valid(f) && GoodCodes(f, ps) && i < |ps| && ps[i].site < y < ps[i].site + JMP
    ensures forall k :: !PatchAt(ps, k, y)
  {
    hide Code, CodeRun, AllFault, SafeStart, Boundary;
    forall k | 0 <= k < |ps|
      ensures ps[k].site != y
    {
      assert GoodCode(f, ps[i]) && GoodCode(f, ps[k]);
    }
  }

  lemma SourceClear(f: Func, ps: seq<Patch>, x: int)
    requires Valid(f) && PlainFaults(f) && GoodCodes(f, ps) && Code(f, x) && !Faulting(f, x)
    ensures !Overwritten(ps, x) && forall k :: !PatchAt(ps, k, x)
  {
    hide Code, GoodCode, Faulting;
    forall k | 0 <= k < |ps|
      ensures !(ps[k].site <= x < ps[k].site + JMP)
    {
      SiteFaults(f, ps[k]);
      if ps[k].site < x < ps[k].site + JMP { OverwrittenFaults(f, ps[k], x); }
    }
  }

  /** Through the branch into the jump the patched program gets where the original never does. */
  lemma Escapes(f: Func, ps: seq<Patch>, i: nat, x: int)
    requires Valid(f) && PlainFaults(f) && GoodCodes(f, ps) && i < |ps|
    requires Code(f, x) && !Faulting(f, x) && Code(f, LoopTo(f, x))
    requires ps[i].site < LoopTo(f, x) < ps[i].site + JMP
    ensures !Simulated(f, Branching(x, LoopTo(f, x)), ps)
  {
    hide Code, GoodCodes, Faulting, LoopTo, GoodCode;
    var y := LoopTo(f, x);
    var m := Branching(x, y);
    SourceClear(f, ps, x);
    InsideCode(f, x, y);
    LoopStep(f, x);
    NoSiteInside(f, ps, i, y);
    var t := [Config(x, true), Config(y, true), Config(-1, true)];
    assert Step(f, m, t[0], t[1]);
    assert Overwritten(ps, y);
    assert PatchedTrace(f, m, ps, t);
    assert t[0].pc == x && t[|t| - 1].pc == -1;
    assert !Matched(f, m, t) by {
      if u: seq<Config<bool>> :| Trace(f, m, u) && u[0] == t[0] && u[|u| - 1] == t[|t| - 1] {
        StaysPositive(f, x, y, u);
      }
    }
  }

  /** The processor can take the branch. */
  lemma LoopStep(f: Func, x: int)
    requires Valid(f) && Code(f, x) && LoopTo(f, x) >= 0
    ensures InFunc(f, x) && Branches.Takes(View(f, x), x, LoopTo(f, x))
  {
    hide Code, Length, LoopTarget, IsLoop;
    CodeFacts(f, x);
    Branches.LoopTaken(View(f, x), x);
  }

  lemma InsideCode(f: Func, x: int, y: int)
    requires Valid(f) && Code(f, x) && Code(f, y)
    ensures x >= 0 && y >= 0
  {
    CodeFacts(f, x);
    CodeFacts(f, y);
  }

  /**
   * Whatever the instructions do, patched executions are original ones, exactly if no loop branch
   * leads inside a written jump.
   */
  lemma SimulatedIff(f: Func, ps: seq<Patch>)
    requires Valid(f) && PlainFaults(f) && GoodCodes(f, ps)
    ensures LoopsClear(f, ps) <==> forall m: Processor<bool> :: Simulated(f, m, ps)
  {
    hide GoodCodes, PlainFaults, Code, Faulting, LoopTo;
    if LoopsClear(f, ps) {
      forall m: Processor<bool>
        ensures Simulated(f, m, ps)
      {
        forall t: seq<Config<bool>> | PatchedTrace(f, m, ps, t) && !Overwritten(ps, t[0].pc)
          ensures Matched(f, m, t)
        {
          var u := PatchedIsOriginal(f, m, ps, t);
        }
      }
    } else {
      var i :| 0 <= i < |ps| && !LoopClear(f, ps[i]);
      var x :| Code(f, x) && !Faulting(f, x) && Code(f, LoopTo(f, x)) && ps[i].site < LoopTo(f, x) < ps[i].site + JMP;
      Escapes(f, ps, i, x);
    }
  }
}
