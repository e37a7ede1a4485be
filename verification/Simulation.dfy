/**
 * The patched program against the original one: a program point is an offset in the text, a
 * state is whatever the processor holds. Faulting instructions are trapped and emulated;
 * everything else steps by an arbitrary relation confined to where its bytes let a processor go:
 * the target of a branch, the next instruction, or through a dispatch.
 */
module Simulation {
  import opened Trampoline
  import opened ControlFlow
  import opened X86Len
  import opened ByteStrings
  import Branches
  import VexDecode

  datatype Config<S> = Config(pc: int, st: S)

  datatype Processor<!S> = Processor(
    emulate: (int, S) -> S,
    native: (int, S, int, S) -> bool)

  /** Where the native instruction at x may go inside the function. */
  ghost predicate Allowed(f: Func, x: int, y: int)
    requires Valid(f) && Code(f, x)
  {
    CodeFacts(f, x);
    InFunc(f, y) ==>
      && Code(f, y)
      && (Branches.Takes(View(f, x), x, y) || (!Branches.Ends(View(f, x)) && y == x + Len(f, x))
          || (IndirectAt(f, x) && TableAllows(f, x, y)))
  }

  function View(f: Func, x: int): Bytes
    requires Valid(f) && InFunc(f, x)
  {
    f.text[x..f.fend]
  }

  /** The target of a loop branch at x, or -1. */
  function LoopTo(f: Func, x: int): int
    requires Valid(f)
  {
    if InFunc(f, x) && Len(f, x) > 0 && IsLoop(f.text[x..f.fend]) then LoopTarget(f.text[x..f.fend], x) else -1
  }

  /**
   * No loop branch leads inside the jump at p. The scanner does not see to this: LoopTargets shows
   * that patched executions are original ones exactly if it holds.
   */
  ghost predicate LoopClear(f: Func, p: Patch)
    requires Valid(f)
  {
    forall x :: Code(f, x) && !Faulting(f, x) && Code(f, LoopTo(f, x)) ==>
      !(p.site < LoopTo(f, x) < p.site + JMP)
  }

  ghost predicate LoopsClear(f: Func, ps: seq<Patch>)
    requires Valid(f)
  {
    forall i :: 0 <= i < |ps| ==> LoopClear(f, ps[i])
  }

  /** A resolved jump goes where its table says (JumpTable.DispatchTakesEntry), any other anywhere. */
  predicate TableAllows(f: Func, x: int, y: int)
    requires Valid(f)
  {
    Resolves(f, x) ==> exists d :: d in FirstPass(f).dispatches && d.at == x && Named(f, d, y)
  }

  /** One instruction of the original program, faults included. */
  ghost predicate Step<S>(f: Func, m: Processor<S>, a: Config<S>, b: Config<S>)
    requires Valid(f)
  {
    && Code(f, a.pc)
    && if Faulting(f, a.pc)
       then b == Config(a.pc + Len(f, a.pc), m.emulate(a.pc, a.st))
       else m.native(a.pc, a.st, b.pc, b.st) && Allowed(f, a.pc, b.pc)
  }

  /** The thunk's dispatch: each instruction of the run in order. */
  function EmulateRun<S>(f: Func, m: Processor<S>, x: int, e: int, st: S): S
    requires Valid(f)
    decreases e - x
  {
    if !InFunc(f, x) || x >= e || Len(f, x) == 0 then st
    else EmulateRun(f, m, x + Len(f, x), e, m.emulate(x, st))
  }

  predicate PatchAt(ps: seq<Patch>, i: int, x: int) { 0 <= i < |ps| && ps[i].site == x }

  /** x is inside a written jump, but not its first byte. */
  predicate Overwritten(ps: seq<Patch>, x: int) {
    exists i :: 0 <= i < |ps| && ps[i].site < x < ps[i].site + JMP
  }

  /** x is inside a replaced run, past its first instruction. */
  predicate Replaced(ps: seq<Patch>, x: int) {
    exists i :: 0 <= i < |ps| && ps[i].site < x < ps[i].resume
  }

  /** The patched program: a jump into the thunk at a site, garbage inside a written jump. */
  ghost predicate PatchedStep<S>(f: Func, m: Processor<S>, ps: seq<Patch>, a: Config<S>, b: Config<S>)
    requires Valid(f) && GoodCodes(f, ps)
  {
    if exists i :: PatchAt(ps, i, a.pc) then
      exists i :: PatchAt(ps, i, a.pc)
        && b == Config(ps[i].resume, EmulateRun(f, m, a.pc, ps[i].resume, a.st))
    else Overwritten(ps, a.pc) || Step(f, m, a, b)
  }

  ghost predicate Trace<S>(f: Func, m: Processor<S>, t: seq<Config<S>>)
    requires Valid(f)
  {
    |t| > 0 && forall i :: 0 <= i < |t| - 1 ==> Step(f, m, t[i], t[i + 1])
  }

  ghost predicate PatchedTrace<S>(f: Func, m: Processor<S>, ps: seq<Patch>, t: seq<Config<S>>)
    requires Valid(f) && GoodCodes(f, ps)
  {
    |t| > 0 && forall i :: 0 <= i < |t| - 1 ==> PatchedStep(f, m, ps, t[i], t[i + 1])
  }

  // ------------------------------------------------ the overwritten boundary

  /** A branch goes where the scanner thinks, unless it is a loop branch. */
  lemma TakenKnown(f: Func, x: int, y: int)
    requires Valid(f) && InFunc(f, x) && Branches.Takes(View(f, x), x, y)
    ensures y == TargetOf(f, x) || y == LoopTo(f, x)
  {
    hide Branches.Takes, Length, Classify, IsLoop, LoopTarget;
    Branches.TakenReported(View(f, x), x, y);
  }

  /** Every branch of the first pass marks where the processor takes it. */
  lemma TakenMarked(f: Func, x: int, y: int)
    requires Valid(f) && Code(f, x) && InFunc(f, x) && InFunc(f, y) && Branches.Takes(View(f, x), x, y)
    ensures Marked(f, y) || y == LoopTo(f, x)
  {
    hide Branches.Takes, TargetOf, LoopTo, FirstPass;
    TakenKnown(f, x, y);
  }

  /** A step reaches a program point by fall-through, by a known target, by a loop branch, or indirectly. */
  lemma StepSources<S>(f: Func, m: Processor<S>, a: Config<S>, b: Config<S>)
    requires Valid(f) && Step(f, m, a, b) && InFunc(f, b.pc)
    ensures Code(f, a.pc) && InFunc(f, a.pc)
    ensures b.pc == a.pc + Len(f, a.pc) || b.pc == TargetOf(f, a.pc)
            || (!Faulting(f, a.pc) && b.pc == LoopTo(f, a.pc))
            || (IndirectAt(f, a.pc) && TableAllows(f, a.pc, b.pc))
    ensures b.pc != a.pc + Len(f, a.pc) ==> Code(f, b.pc)
  {
    hide Len, FlowAt, Faulting, IndirectAt, TableAllows, Code, LoopTo, Branches.Takes, Branches.Ends;
    CodeFacts(f, a.pc);
    if Branches.Takes(View(f, a.pc), a.pc, b.pc) { TakenKnown(f, a.pc, b.pc); }
  }

  /** A boundary inside the written jump is the one four bytes on, and nothing marks it. */
  lemma OverwrittenIsSuccessor(f: Func, p: Patch, y: int)
    requires Valid(f) && PlainFaults(f) && GoodCode(f, p)
    requires Code(f, y) && p.site < y < p.site + JMP
    ensures y == p.site + Len(f, p.site) == p.site + 4
    ensures !HasIndirect(f) && !Marked(f, y)
  {
    hide Len, VexDecode.PlainRex, Marked, HasIndirect, InCode, AllFault, Code, Faulting, Boundary;
    SiteFaults(f, p);
    CodeOrder(f, p.site, y);
    SitePlain(f, p);
    FaultLength(f, p.site);
  }

  lemma SitePlain(f: Func, p: Patch)
    requires Valid(f) && PlainFaults(f) && GoodCode(f, p)
    ensures VexDecode.PlainRex(f.text[p.site..])
  {
    hide InCode, VexDecode.PlainRex;
  }

  lemma SiteFaults(f: Func, p: Patch)
    requires Valid(f) && GoodCode(f, p)
    ensures Faulting(f, p.site) && Code(f, p.site) && InFunc(f, p.site)
  {
    hide Code, Faulting;
  }

  lemma SuccessorOnlyFromSite(f: Func, p: Patch, x: int)
    requires Valid(f) && GoodCode(f, p) && Code(f, x) && InFunc(f, x)
    requires x != p.site && Code(f, p.site + Len(f, p.site))
    ensures x + Len(f, x) != p.site + Len(f, p.site)
  {
    hide Len, AllFault, SafeStart;
    CodeFacts(f, x);
    if x < p.site { CodeOrder(f, x, p.site); SitePositive(f, p); } else { CodeOrder(f, p.site, x); }
  }

  lemma SitePositive(f: Func, p: Patch)
    requires Valid(f) && GoodCode(f, p)
    ensures Len(f, p.site) > 0
  {}

  lemma UnmarkedMeans(f: Func, x: int, y: int)
    requires Valid(f) && InFunc(f, y) && !Marked(f, y) && Code(f, x) && InFunc(f, x) && !HasIndirect(f)
    ensures TargetOf(f, x) != y && !(IndirectAt(f, x) && TableAllows(f, x, y))
  {
    hide TargetOf, IndirectAt, FirstPass, Named;
    if IndirectAt(f, x) { IndirectResolves(f, x); }
  }

  /** A fall-through lands inside a written jump only from the site. */
  lemma FallThroughClear(f: Func, p: Patch, x: int)
    requires Valid(f) && PlainFaults(f) && GoodCode(f, p)
    requires Code(f, x) && InFunc(f, x) && x != p.site
    ensures !(p.site < x + Len(f, x) < p.site + JMP)
  {
    hide Len, AllFault, SafeStart, VexDecode.PlainRex;
    CodeFacts(f, x);
    SiteFaults(f, p);
    FaultLength(f, p.site);
    if x < p.site { CodeOrder(f, x, p.site); } else { CodeOrder(f, p.site, x); }
  }

  /** Nothing but the site's own fall-through reaches the boundary a jump overwrites. */
  lemma NotEntered<S>(f: Func, m: Processor<S>, p: Patch, a: Config<S>, b: Config<S>)
    requires Valid(f) && PlainFaults(f) && GoodCode(f, p) && LoopClear(f, p)
    requires Step(f, m, a, b) && a.pc != p.site && InFunc(f, b.pc)
    ensures !(p.site < b.pc < p.site + JMP)
  {
    hide Len, Step, TargetOf, IndirectAt, TableAllows, LoopTo, Marked, HasIndirect, Faulting, GoodCode, Code;
    StepSources(f, m, a, b);
    FallThroughClear(f, p, a.pc);
    if b.pc != a.pc + Len(f, a.pc) && p.site < b.pc < p.site + JMP {
      OverwrittenIsSuccessor(f, p, b.pc);
      UnmarkedMeans(f, a.pc, b.pc);
    }
  }

  lemma OverwrittenInFunc(f: Func, ps: seq<Patch>, x: int)
    requires Valid(f) && GoodCodes(f, ps) && Overwritten(ps, x)
    ensures InFunc(f, x)
  {
    var i :| 0 <= i < |ps| && ps[i].site < x < ps[i].site + JMP;
    assert GoodCode(f, ps[i]);
  }

  /** Native and emulated steps outside the sites never land inside a written jump. */
  lemma StepStaysClear<S>(f: Func, m: Processor<S>, ps: seq<Patch>, a: Config<S>, b: Config<S>)
    requires Valid(f) && PlainFaults(f) && GoodCodes(f, ps) && LoopsClear(f, ps)
    requires Step(f, m, a, b) && !(exists i :: PatchAt(ps, i, a.pc))
    ensures !Overwritten(ps, b.pc)
  {
    hide Step, GoodCode, LoopClear;
    if Overwritten(ps, b.pc) {
      OverwrittenInFunc(f, ps, b.pc);
      var i :| 0 <= i < |ps| && ps[i].site < b.pc < ps[i].site + JMP;
      assert !PatchAt(ps, i, a.pc);
      NotEntered(f, m, ps[i], a, b);
    }
  }

  lemma ResumeClear(f: Func, ps: seq<Patch>, i: int)
    requires Valid(f) && GoodCodes(f, ps) && 0 <= i < |ps|
    ensures !Overwritten(ps, ps[i].resume)
  {
    hide AllFault, SafeStart, Code;
    forall j | 0 <= j < |ps|
      ensures !(ps[j].site < ps[i].resume < ps[j].site + JMP)
    {
      assert GoodCode(f, ps[i]) && GoodCode(f, ps[j]);
    }
  }

  // ------------------------------------------------------- runs of emulation

  /** The original program runs through a faulting stretch instruction by instruction. */
  lemma {:induction false} RunTrace<S>(f: Func, m: Processor<S>, x: int, e: int, st: S)
    returns (t: seq<Config<S>>)
    requires Valid(f) && f.fstart <= x < e <= f.fend && AllFault(f, x, e) && CodeRun(f, x, e)
    ensures Trace(f, m, t) && t[0] == Config(x, st)
    ensures t[|t| - 1] == Config(e, EmulateRun(f, m, x, e, st))
    decreases e - x
  {
    hide Len, Faulting;
    FaultingDecodes(f, x);
    var y, u := x + Len(f, x), m.emulate(x, st);
    assert Step(f, m, Config(x, st), Config(y, u));
    if y == e {
      assert EmulateRun(f, m, y, e, u) == u;
      t := [Config(x, st), Config(y, u)];
    } else {
      var rest := RunTrace(f, m, y, e, u);
      t := [Config(x, st)] + rest;
    }
  }

  lemma JoinTraces<S>(f: Func, m: Processor<S>, t: seq<Config<S>>, u: seq<Config<S>>)
    requires Valid(f) && Trace(f, m, t) && Trace(f, m, u) && t[|t| - 1] == u[0]
    ensures Trace(f, m, t + u[1..])
    ensures (t + u[1..])[0] == t[0] && (t + u[1..])[|t + u[1..]| - 1] == u[|u| - 1]
  {
    hide Step;
    var v := t + u[1..];
    forall i | 0 <= i < |v| - 1
      ensures Step(f, m, v[i], v[i + 1])
    {
      if i < |t| - 1 { assert Step(f, m, t[i], t[i + 1]); }
      else { assert v[i] == u[i - |t| + 1]; assert Step(f, m, u[i - |t| + 1], u[i - |t| + 2]); }
    }
  }

  lemma PatchedStepIsTrace<S>(f: Func, m: Processor<S>, ps: seq<Patch>, a: Config<S>, b: Config<S>)
    returns (t: seq<Config<S>>)
    requires Valid(f) && PlainFaults(f) && GoodCodes(f, ps) && LoopsClear(f, ps)
    requires PatchedStep(f, m, ps, a, b) && !Overwritten(ps, a.pc)
    ensures Trace(f, m, t) && t[0] == a && t[|t| - 1] == b && !Overwritten(ps, b.pc)
  {
    hide Len, Faulting, EmulateRun, Step, SafeStart, LoopsClear;
    if exists i :: PatchAt(ps, i, a.pc) {
      var i :| PatchAt(ps, i, a.pc) && b == Config(ps[i].resume, EmulateRun(f, m, a.pc, ps[i].resume, a.st));
      assert GoodCode(f, ps[i]);
      CodeFacts(f, a.pc);
      t := RunTrace(f, m, a.pc, ps[i].resume, a.st);
      ResumeClear(f, ps, i);
    } else {
      t := [a, b];
      StepStaysClear(f, m, ps, a, b);
    }
  }

  /**
   * Everything the patched program does, the original program does: control never reaches an
   * overwritten byte, and every patched run is an original run with emulation.
   */
  lemma {:induction false} PatchedIsOriginal<S>(f: Func, m: Processor<S>, ps: seq<Patch>, t: seq<Config<S>>)
    returns (u: seq<Config<S>>)
    requires Valid(f) && PlainFaults(f) && GoodCodes(f, ps) && LoopsClear(f, ps)
    requires PatchedTrace(f, m, ps, t) && !Overwritten(ps, t[0].pc)
    ensures Trace(f, m, u) && u[0] == t[0] && u[|u| - 1] == t[|t| - 1]
    ensures forall i :: 0 <= i < |t| ==> !Overwritten(ps, t[i].pc)
    decreases |t|
  {
    hide Step, PatchedStep, GoodCodes, PlainFaults, Overwritten, LoopsClear;
    if |t| == 1 {
      u := t;
    } else {
      var p := t[..|t| - 1];
      var v := PatchedIsOriginal(f, m, ps, p);
      var w := PatchedStepIsTrace(f, m, ps, t[|t| - 2], t[|t| - 1]);
      JoinTraces(f, m, v, w);
      u := v + w[1..];
    }
  }

  // ---------------------------------------------------- the other direction

  /** Inside a faulting stretch the original program has no choice. */
  lemma {:induction false} ForcedRun<S>(f: Func, m: Processor<S>, x: int, e: int, u: seq<Config<S>>)
    returns (k: nat)
    requires Valid(f) && f.fstart <= x < e <= f.fend && AllFault(f, x, e) && CodeRun(f, x, e)
    requires Trace(f, m, u) && u[0].pc == x
    requires !(x < u[|u| - 1].pc < e) && |u| > 1
    ensures 0 < k < |u| && u[k] == Config(e, EmulateRun(f, m, x, e, u[0].st))
    decreases e - x
  {
    hide Len, Faulting;
    FaultingDecodes(f, x);
    var y := x + Len(f, x);
    assert Step(f, m, u[0], u[1]);
    assert u[1] == Config(y, m.emulate(x, u[0].st));
    if y == e {
      assert EmulateRun(f, m, y, e, u[1].st) == u[1].st;
      k := 1;
    } else {
      TraceTail(f, m, u, 1);
      var j := ForcedRun(f, m, y, e, u[1..]);
      k := j + 1;
    }
  }

  lemma TraceTail<S>(f: Func, m: Processor<S>, u: seq<Config<S>>, k: nat)
    requires Valid(f) && Trace(f, m, u) && k < |u|
    ensures Trace(f, m, u[k..]) && u[k..][|u| - k - 1] == u[|u| - 1]
  {
    hide Step;
    var v := u[k..];
    forall i | 0 <= i < |v| - 1
      ensures Step(f, m, v[i], v[i + 1])
    {
      assert Step(f, m, u[i + k], u[i + k + 1]);
    }
  }

  lemma PrependPatched<S>(f: Func, m: Processor<S>, ps: seq<Patch>, a: Config<S>, t: seq<Config<S>>)
    requires Valid(f) && GoodCodes(f, ps)
    requires PatchedTrace(f, m, ps, t) && PatchedStep(f, m, ps, a, t[0])
    ensures PatchedTrace(f, m, ps, [a] + t)
  {
    hide PatchedStep, GoodCodes;
    var v := [a] + t;
    forall i | 0 <= i < |v| - 1
      ensures PatchedStep(f, m, ps, v[i], v[i + 1])
    {
      if i > 0 { assert PatchedStep(f, m, ps, t[i - 1], t[i]); }
    }
  }

  lemma SiteStep<S>(f: Func, m: Processor<S>, ps: seq<Patch>, i: int, u: seq<Config<S>>) returns (k: nat)
    requires Valid(f) && GoodCodes(f, ps) && Trace(f, m, u) && |u| > 1
    requires PatchAt(ps, i, u[0].pc) && !Replaced(ps, u[|u| - 1].pc)
    ensures 0 < k < |u| && PatchedStep(f, m, ps, u[0], u[k]) && !Overwritten(ps, u[k].pc)
  {
    hide Len, Faulting, EmulateRun, Step, SafeStart;
    assert GoodCode(f, ps[i]);
    CodeFacts(f, ps[i].site);
    k := ForcedRun(f, m, ps[i].site, ps[i].resume, u);
    ResumeClear(f, ps, i);
  }

  /** The first patched step that follows the original run. */
  lemma FirstMove<S>(f: Func, m: Processor<S>, ps: seq<Patch>, u: seq<Config<S>>) returns (k: nat)
    requires Valid(f) && PlainFaults(f) && GoodCodes(f, ps) && LoopsClear(f, ps) && Trace(f, m, u) && |u| > 1
    requires !Replaced(ps, u[|u| - 1].pc)
    ensures 0 < k < |u| && PatchedStep(f, m, ps, u[0], u[k]) && !Overwritten(ps, u[k].pc)
  {
    hide Step, PatchedStep, GoodCodes, PlainFaults, Overwritten, Replaced, Trace, LoopsClear;
    if i :| PatchAt(ps, i, u[0].pc) {
      k := SiteStep(f, m, ps, i, u);
    } else {
      k := 1;
      FirstStep(f, m, ps, u);
      StepStaysClear(f, m, ps, u[0], u[1]);
    }
  }

  /**
   * Every original run that ends outside the replaced stretches is a patched run that never
   * enters a written jump: nothing the original program could do is lost.
   */
  lemma {:induction false} OriginalIsPatched<S>(f: Func, m: Processor<S>, ps: seq<Patch>, u: seq<Config<S>>)
    returns (t: seq<Config<S>>)
    requires Valid(f) && PlainFaults(f) && GoodCodes(f, ps) && LoopsClear(f, ps)
    requires Trace(f, m, u) && !Overwritten(ps, u[0].pc) && !Replaced(ps, u[|u| - 1].pc)
    ensures PatchedTrace(f, m, ps, t) && t[0] == u[0] && t[|t| - 1] == u[|u| - 1]
    ensures forall i :: 0 <= i < |t| ==> !Overwritten(ps, t[i].pc)
    decreases |u|
  {
    assert |u| > 0;
    hide Step, PatchedStep, PatchedTrace, GoodCodes, PlainFaults, Overwritten, Replaced, Trace, LoopsClear;
    if |u| == 1 {
      OneConfig(f, m, ps, u[0]);
      t := [u[0]];
    } else {
      var k := FirstMove(f, m, ps, u);
      TraceTail(f, m, u, k);
      var rest := OriginalIsPatched(f, m, ps, u[k..]);
      PrependPatched(f, m, ps, u[0], rest);
      t := [u[0]] + rest;
    }
  }

  /** A function without loop branches has none that lead inside a jump. */
  lemma NoLoopsClear(f: Func, ps: seq<Patch>)
    requires Valid(f) && forall x :: Code(f, x) ==> !IsLoop(f.text[x..f.fend])
    ensures LoopsClear(f, ps)
  {
    hide Len, PassFrom, IsLoop;
    forall x | Code(f, x) && Code(f, LoopTo(f, x))
      ensures false
    {
      CodeFacts(f, LoopTo(f, x));
    }
  }

  lemma FirstStep<S>(f: Func, m: Processor<S>, ps: seq<Patch>, u: seq<Config<S>>)
    requires Valid(f) && GoodCodes(f, ps) && Trace(f, m, u) && |u| > 1
    ensures Step(f, m, u[0], u[1])
    ensures !(exists i :: PatchAt(ps, i, u[0].pc)) ==> PatchedStep(f, m, ps, u[0], u[1])
  {
    hide Step, GoodCodes, Overwritten;
  }

  lemma OneConfig<S>(f: Func, m: Processor<S>, ps: seq<Patch>, a: Config<S>)
    requires Valid(f) && GoodCodes(f, ps)
    ensures PatchedTrace(f, m, ps, [a])
  {
    hide GoodCodes, PatchedStep;
  }
}
