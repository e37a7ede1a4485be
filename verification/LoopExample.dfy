/**
 * A function that scan_function patches although a jrcxz leads into the bytes the jump overwrites.
 */
module LoopExample {
  import opened ByteStrings
  import opened X86Len
  import opened ControlFlow
  import opened Trampoline
  import opened Patcher
  import opened Simulation
  import opened LoopTargets
  import JumpTable
  import VexDecode

  /** jrcxz over the first of two vpxor ymm0, ymm1, ymm2. */
  const BRANCH: Bytes := [0xE3, 0x04, 0xC5, 0xF5, 0xEF, 0xC2, 0xC5, 0xF5, 0xEF, 0xC2]

  ghost predicate Example(f: Func) { f.text == BRANCH && f.fstart == 0 && f.fend == 10 && forall d :: f.faults(d) }

  // ------------------------------------------------- its instructions

  lemma JrcxzReads(s: Bytes)
    requires |s| > 2 && s[0] == 0xE3 && s[1] == 0x04
    ensures Length(s).len == 2 && IsLoop(s) && LoopTarget(s, 0) == 6 && !IsJmpIndirect(s)
    ensures !VexDecode.Decode(s).Ok?
  {
    hide VexDecode.DecodeVex, VexDecode.DecodeLegacy;
    var l := VexDecode.Legacy(0, 0, false, false, false);
    assert ScanPrefixes(s, 0, false, -1) == Prefixes(0, false, -1);
    assert VexDecode.ScanPadding(s, 0, 0) == VexDecode.Padding(0, 0);
    assert VexDecode.LegacyScan(s, l, 0) == l;
  }

  lemma VpxorReads(s: Bytes, off: int)
    requires |s| >= 4 && s[0] == 0xC5 && s[1] == 0xF5 && s[2] == 0xEF && s[3] == 0xC2
    ensures Length(s).len == 4 && Classify(s, off).tgt == -1 && !IsJmpIndirect(s)
    ensures VexDecode.PlainRex(s)
  {
    assert ScanPrefixes(s, 0, false, -1) == Prefixes(0, false, -1);
  }

  lemma VpxorDecodes(s: Bytes)
    requires |s| >= 4 && s[0] == 0xC5 && s[1] == 0xF5 && s[2] == 0xEF && s[3] == 0xC2
    ensures VexDecode.Decode(s).Ok?
  {
    assert VexDecode.ScanPadding(s, 0, 0) == VexDecode.Padding(0, 0);
  }

  lemma First(f: Func)
    requires Example(f)
    ensures Valid(f) && Len(f, 0) == 2 && !PadTail(f, 0) && !Faulting(f, 0) && !IndirectAt(f, 0)
    ensures LoopTo(f, 0) == 6 && TargetOf(f, 0) == -1
  {
    hide Length, VexDecode.Decode, IsJmpIndirect, LoopTarget, IsLoop, Classify;
    assert f.text[0..f.fend] == f.text == f.text[0..];
    JrcxzReads(f.text);
    LoopUnreported(f.text, 0);
    assert !PadByte(f.text[0]);
  }

  lemma Faults(f: Func, x: nat)
    requires Example(f) && (x == 2 || x == 6)
    ensures Valid(f) && Len(f, x) == 4 && !PadTail(f, x) && Faulting(f, x) && !IndirectAt(f, x)
    ensures TargetOf(f, x) == -1 && VexDecode.PlainRex(f.text[x..])
  {
    hide Length, VexDecode.Decode, VexDecode.PlainRex, IsJmpIndirect, Classify;
    var s := f.text[x..];
    assert f.text[x..f.fend] == s;
    assert s[0] == 0xC5 && s[1] == 0xF5 && s[2] == 0xEF && s[3] == 0xC2;
    VpxorReads(s, x);
    VpxorDecodes(s);
    assert !PadByte(f.text[x]);
  }

  // ------------------------------------------------------ both passes

  lemma StepOver(f: Func, x: nat, ring: seq<int>)
    requires Valid(f) && InFunc(f, x) && Len(f, x) > 0 && !PadTail(f, x) && !IndirectAt(f, x)
    ensures PassFrom(f, x, ring, []) ==
            Then(x, JumpTable.NoTable, false, PassFrom(f, x + Len(f, x), Pushed(ring, x), []))
    ensures Starts(f, x) == [x] + Starts(f, x + Len(f, x))
  {
    hide IndirectAt, Len, PadTail, Then, PassFrom;
    PassStep(f, x, ring, []);
    assert TableFor(f, x, ring, []) == JumpTable.NoTable;
    assert [] + RangeOf(JumpTable.NoTable) == [];
  }

  lemma PassesFind(f: Func)
    requires Example(f)
    ensures FirstPass(f) == Pass([0, 2, 6], [], false, true) && Starts(f, 0) == [0, 2, 6]
    ensures Starts(f, 10) == []
  {
    hide Len, PadTail, IndirectAt, Faulting, PassFrom, Pushed, VexDecode.PlainRex;
    First(f);
    Faults(f, 2);
    Faults(f, 6);
    StepOver(f, 0, []);
    StepOver(f, 2, Pushed([], 0));
    StepOver(f, 6, Pushed(Pushed([], 0), 2));
    AtEnd(f, Pushed(Pushed(Pushed([], 0), 2), 6));
  }

  lemma AtEnd(f: Func, ring: seq<int>)
    requires Valid(f)
    ensures PassFrom(f, f.fend, ring, []) == Pass([], [], false, true) && Starts(f, f.fend) == []
  {}

  lemma Unmarked(f: Func)
    requires Example(f)
    ensures !HasIndirect(f) && forall y :: !Marked(f, y)
  {
    hide TargetOf, FirstPass, Len, PadTail, IndirectAt, Faulting, VexDecode.PlainRex, LoopTo;
    First(f);
    Faults(f, 2);
    Faults(f, 6);
    PassesFind(f);
  }

  // --------------------------------------------------------- the patch

  lemma RunFaults(f: Func)
    requires Example(f)
    ensures AllFault(f, 2, 10) && AllFault(f, 6, 10) && CodeRun(f, 2, 10)
  {
    hide Len, Faulting, FirstPass, PadTail, IndirectAt, VexDecode.PlainRex;
    Faults(f, 2);
    Faults(f, 6);
    PassesFind(f);
    assert AllFault(f, 10, 10) && CodeRun(f, 10, 10);
    assert AllFault(f, 6, 10) && CodeRun(f, 6, 10);
  }

  lemma PatchGood(f: Func)
    requires Example(f)
    ensures Valid(f) && PlainFaults(f) && GoodCode(f, Patch(2, 10))
  {
    hide Len, Faulting, FirstPass, PadTail, IndirectAt, Starts, Marked, HasIndirect, AllFault, CodeRun, PlainFaults,
         VexDecode.PlainRex;
    Faults(f, 2);
    PassesFind(f);
    Unmarked(f);
    RunFaults(f);
    AllPlain(f);
  }

  lemma AllPlain(f: Func)
    requires Example(f)
    ensures Valid(f) && PlainFaults(f)
  {
    hide Len, Faulting, FirstPass, Starts, VexDecode.PlainRex, PadTail, IndirectAt, LoopTo, TargetOf;
    First(f);
    Faults(f, 2);
    Faults(f, 6);
    PassesFind(f);
  }

  lemma OneRun(f: Func)
    requires Example(f)
    ensures RunsUpTo(f, [Run([2, 6], 2, 10)], 10)
  {
    hide MaximalRun, Len, Faulting, PadTail, IndirectAt, Starts, FirstPass, LoopTo, TargetOf, VexDecode.PlainRex;
    First(f);
    PassesFind(f);
    RunMaximal(f);
    var r := Run([2, 6], 2, 10);
    assert r.offs[0] == 2 && r.offs[1] == 6;
    var one := [r];
    assert one[0] == r && InRuns(one, 2) && InRuns(one, 6);
  }

  lemma RunMaximal(f: Func)
    requires Example(f)
    ensures MaximalRun(f, Run([2, 6], 2, 10))
  {
    hide Len, Faulting, PadTail, IndirectAt, AllFault, Starts, FirstPass, VexDecode.PlainRex, TargetOf, CodeRun;
    Faults(f, 2);
    Faults(f, 6);
    PassesFind(f);
    RunFaults(f);
    assert OnWalk(f, 10);
  }

  /**
   * The jump is written over the first vpxor and one byte of the second, where the jrcxz leads:
   * through it the patched function gets where the original cannot.
   */
  lemma BranchOverwritten(f: Func, base: int, thunkFor: (int, int) -> Thunk)
    requires Example(f) && Reachable(base, 2, thunkFor(2, 10))
    ensures Clean(f) && RunsUpTo(f, [Run([2, 6], 2, 10)], 10)
    ensures JumpsOf(f, base, thunkFor, [Run([2, 6], 2, 10)]) == [Jump(Patch(2, 10), thunkFor(2, 10).addr)]
    ensures PlainFaults(f) && GoodCodes(f, [Patch(2, 10)]) && LoopTo(f, 0) == 6
    ensures !Simulated(f, Branching(0, 6), [Patch(2, 10)])
  {
    hide RunsUpTo, JumpsOf, GoodCodes, Reachable, PlainFaults, LoopTo, Simulated, Example;
    PassesFind(f);
    OneRun(f);
    JumpWritten(f, base, thunkFor);
    BranchLeadsInside(f);
  }

  lemma JumpWritten(f: Func, base: int, thunkFor: (int, int) -> Thunk)
    requires Example(f) && Reachable(base, 2, thunkFor(2, 10))
    ensures JumpsOf(f, base, thunkFor, [Run([2, 6], 2, 10)]) == [Jump(Patch(2, 10), thunkFor(2, 10).addr)]
  {
    assert thunkFor(2, 10).At?;
    PatchGood(f);
    hide GoodPatch, InCode, Reachable, PlainFaults, Example;
    var r := Run([2, 6], 2, 10);
    var one := [r];
    FirstGoodIs(f, r, 0, 0);
    assert one[..0] == [] && JumpsOf(f, base, thunkFor, one[..0]) == [];
  }

  lemma BranchLeadsInside(f: Func)
    requires Example(f)
    ensures PlainFaults(f) && GoodCodes(f, [Patch(2, 10)]) && LoopTo(f, 0) == 6
    ensures !Simulated(f, Branching(0, 6), [Patch(2, 10)])
  {
    hide GoodCode, PlainFaults, Code, LoopTo, Simulated, Faulting, Example;
    Ends(f);
    PatchGood(f);
    Escapes(f, [Patch(2, 10)], 0, 0);
  }

  /** The branch and where it leads, as program points. */
  lemma Ends(f: Func)
    requires Example(f)
    ensures Valid(f) && Code(f, 0) && Code(f, 6) && !Faulting(f, 0) && LoopTo(f, 0) == 6
  {
    hide LoopTo, Faulting, FirstPass, Len, PadTail, IndirectAt;
    First(f);
    PassesFind(f);
  }
}
