/**
 * Relocating a window of instructions away from a faulting site: which instructions may be
 * copied, where the window ends, and when a jump may be written over the site.
 */
module Relocation {
  import opened ByteStrings
  import opened X86Len
  import opened ControlFlow
  import Decoded
  import Trampoline
  import VexDecode

  const WINDOW_LIM := 64
  const JMP := 5
  const SPAN_MAX := 0x4_0000

  // ------------------------------------------------------------ copyability

  predicate IsVexByte(c: Byte) { c == 0xC4 || c == 0xC5 || c == 0x62 }

  /** The ModRM byte at q, if the instruction has one, names a register. */
  predicate RegisterOperand(s: Bytes, q: nat, hasModrm: bool) { hasModrm ==> q < |s| && s[q] / 64 == 3 }

  /** safe_copyable: s starts at the instruction, whose length has been accepted. */
  predicate SafeCopyable(s: Bytes)
    requires Length(s).len > 0
  {
    var flow, p, q := Classify(s, 0), AfterPrefixes(s), OpcodePos(s);
    && !flow.term && flow.tgt < 0 && !IsJmpIndirect(s)
    && p < |s| && !IsVexByte(s[p]) && q < |s|
    && s[q] != 0xE8 && !(0xE0 <= s[q] <= 0xE3)
    && if s[q] == 0x0F then
         && q + 1 < |s| && s[q + 1] != 0x38 && s[q + 1] != 0x3A && s[q + 1] != 0x0F
         && RegisterOperand(s, q + 2, HasModrm0F(s[q + 1]))
       else RegisterOperand(s, q + 1, HasModrm1(s[q]))
  }

  /** A transfer whose target is computed from the instruction's own address. */
  predicate RelativeTransfer(s: Bytes) {
    var q := OpcodePos(s);
    q < |s| &&
    (s[q] == 0xEB || s[q] == 0xE9 || s[q] == 0xE8 || 0xE0 <= s[q] <= 0xE3 || ConditionalJump(s))
  }

  predicate ConditionalJump(s: Bytes) {
    var q := OpcodePos(s);
    q < |s| && (0x70 <= s[q] <= 0x7F || (s[q] == 0x0F && q + 1 < |s| && 0x80 <= s[q + 1] <= 0x8F))
  }

  /** A memory operand addressed from the instruction pointer. */
  predicate RipRelative(s: Bytes) {
    var q := OpcodePos(s);
    if q < |s| && s[q] == 0x0F
    then q + 2 < |s| && HasModrm0F(s[q + 1]) && s[q + 2] / 64 == 0 && s[q + 2] % 8 == 5
    else q + 1 < |s| && HasModrm1(s[q]) && s[q + 1] / 64 == 0 && s[q + 1] % 8 == 5
  }

  /** Its bytes mean the same at any address. */
  predicate PositionIndependent(s: Bytes) { !RelativeTransfer(s) && !RipRelative(s) }

  /**
   * What the copy test lets through is position independent, exactly unless it is a
   * conditional jump: and those it lets through precisely when they go backwards past their own
   * start, because the test reads a negative target as no target at all.
   */
  lemma CopyableIff(s: Bytes)
    requires Length(s).len > 0
    ensures SafeCopyable(s) ==> (PositionIndependent(s) <==> !ConditionalJump(s))
    ensures ConditionalJump(s) && !IsVexByte(s[AfterPrefixes(s)]) ==> (SafeCopyable(s) <==> Classify(s, 0).tgt < 0)
  {
    hide Length;
  }

  /** jnz to fourteen bytes before itself is copied, though it would jump elsewhere. */
  lemma BackwardJumpIsCopied()
    ensures var s: Bytes := [0x75, 0xF0]; Length(s).len == 2 && SafeCopyable(s) && RelativeTransfer(s)
  {
    var s: Bytes := [0x75, 0xF0];
    assert ScanPrefixes(s, 0, false, -1) == Prefixes(0, false, -1);
  }

  // -------------------------------------------------------------- the window

  /** Whole instructions from at to end, each accepted by the copy test. */
  ghost predicate CopyRun(t: Bytes, at: nat, end: nat)
    decreases |t| - at
  {
    at == end ||
    (at < |t| && Length(t[at..]).len > 0 && at + Length(t[at..]).len <= end
     && SafeCopyable(t[at..]) && CopyRun(t, at + Length(t[at..]).len, end))
  }

  lemma {:induction false} CopyRunExtend(t: Bytes, at: nat, end: nat)
    requires CopyRun(t, at, end) && at <= end < |t| && Length(t[end..]).len > 0 && SafeCopyable(t[end..])
    ensures CopyRun(t, at, end + Length(t[end..]).len)
    decreases |t| - at
  {
    hide Length, SafeCopyable;
    if at < end { CopyRunExtend(t, at + Length(t[at..]).len, end); }
  }

  /**
   * The window from a site of first bytes, in the WINDOW_LIM bytes t: whole copyable
   * instructions after the first until the jump fits, and no further than needed. It is refused
   * only at an instruction before that which cannot be decoded or copied.
   */
  method BuildWindow(t: Bytes, first: nat) returns (ok: bool, end: nat)
    requires |t| == WINDOW_LIM && 0 < first
    ensures ok ==> end >= JMP && CopyRun(t, first, end) && (first == end || first < end <= WINDOW_LIM)
    ensures ok && end > first ==> exists last :: first <= last < JMP && last < end && CopyRun(t, first, last)
                                               && end == last + Length(t[last..]).len
    ensures !ok ==> end < JMP && CopyRun(t, first, end) && first <= end && Stops(t, end)
  {
    hide Length, SafeCopyable, CopyRun;
    end := first;
    NothingCopied(t, first);
    ghost var last := first;
    while end < JMP
      invariant CopyRun(t, first, end) && (first == end || first < end <= WINDOW_LIM)
      invariant end > first ==> first <= last < JMP && last < end && CopyRun(t, first, last)
                                && end == last + Length(t[last..]).len
      decreases WINDOW_LIM - end
    {
      var l := Length(t[end..]).len;
      if l == 0 { return false, end; }
      if !SafeCopyable(t[end..]) { return false, end; }
      CopyRunExtend(t, first, end);
      last := end;
      end := end + l;
    }
    ok := true;
  }

  /** No instruction, or none that may be copied, starts at. */
  predicate Stops(t: Bytes, at: nat)
    requires at <= |t|
  {
    Length(t[at..]).len == 0 || !SafeCopyable(t[at..])
  }

  /** A run of copyable instructions from a place where none starts goes nowhere. */
  lemma StuckThere(t: Bytes, at: nat, end: nat)
    requires at <= |t| && Stops(t, at) && CopyRun(t, at, end)
    ensures end == at
  {
    hide Length, SafeCopyable;
  }

  /** Of two runs from one place the shorter is a prefix of the longer. */
  lemma {:induction false} RunsNest(t: Bytes, at: nat, mid: nat, end: nat)
    requires CopyRun(t, at, mid) && CopyRun(t, at, end) && mid <= end
    ensures CopyRun(t, mid, end)
    decreases |t| - at
  {
    hide Length, SafeCopyable;
    if at < mid { RunsNest(t, at + Length(t[at..]).len, mid, end); }
  }

  /** After a refusal no window exists: no run of copyable instructions reaches the jump's end. */
  lemma RefusedMeansNone(t: Bytes, first: nat, stop: nat, end: nat)
    requires stop < JMP && stop <= |t| && CopyRun(t, first, stop) && first <= stop && Stops(t, stop)
    requires end >= JMP
    ensures !CopyRun(t, first, end)
  {
    hide Length, SafeCopyable, CopyRun, Stops;
    if CopyRun(t, first, end) {
      RunsNest(t, first, stop, end);
      StuckThere(t, stop, end);
    }
  }

  lemma NothingCopied(t: Bytes, at: nat)
    ensures CopyRun(t, at, at)
  {}

  // ---------------------------------------------------------- patch safety

  predicate Ascending(starts: seq<nat>) { forall i, j :: 0 <= i < j < |starts| ==> starts[i] < starts[j] }

  /** The last function starting at or before a, by bisection; -1 if there is none. */
  method FindFunction(starts: seq<nat>, a: nat) returns (idx: int)
    requires Ascending(starts)
    ensures -1 <= idx < |starts|
    ensures forall i :: 0 <= i < |starts| ==> (starts[i] <= a <==> i <= idx)
  {
    var lo, hi := 0, |starts| - 1;
    idx := -1;
    while lo <= hi
      invariant 0 <= lo <= hi + 1 <= |starts| && idx == lo - 1
      invariant forall i :: 0 <= i < lo ==> starts[i] <= a
      invariant forall i :: hi < i < |starts| ==> starts[i] > a
    {
      var mid := (lo + hi) / 2;
      if starts[mid] <= a {
        idx := mid;
        lo := mid + 1;
      } else {
        hi := mid - 1;
      }
    }
  }

  /** The function containing offset a of the scanned text. */
  function FunctionEnd(starts: seq<nat>, text: Bytes, i: nat): nat
    requires i < |starts|
  {
    if i + 1 < |starts| && starts[i + 1] <= |text| then starts[i + 1] else |text|
  }

  /** Nothing known to the scanner enters the open interval (a, a+n) of f. */
  ghost predicate Undisturbed(f: Trampoline.Func, a: nat, n: nat)
    requires Trampoline.Valid(f)
  {
    && Trampoline.Clean(f) && !Trampoline.HasIndirect(f)
    && forall y :: a < y < a + n ==> !Trampoline.Marked(f, y)
  }

  /**
   * avxemu_patch_safe: 1 only if the site lies in one known function that decodes cleanly, has
   * no indirect jump, and no branch of which enters the jump's inside.
   */
  method PatchSafe(text: Bytes, starts: seq<nat>, faults: Decoded.Insn -> bool, a: nat, n: nat) returns (safe: bool)
    requires Ascending(starts) && forall i :: 0 <= i < |starts| ==> starts[i] <= |text|
    ensures safe && n > 1 ==>
      exists i :: 0 <= i < |starts| && starts[i] <= a && a + n <= FunctionEnd(starts, text, i) <= |text|
        && Undisturbed(Trampoline.Func(text, starts[i], FunctionEnd(starts, text, i), faults), a, n)
    ensures !safe && n > 1 && |starts| > 0 && a < |text| ==>
      forall i :: 0 <= i < |starts| && starts[i] <= a < FunctionEnd(starts, text, i) <= |text| ==>
        var end := FunctionEnd(starts, text, i);
        a + n > end || end - starts[i] > SPAN_MAX
        || !Undisturbed(Trampoline.Func(text, starts[i], end, faults), a, n)
  {
    hide Trampoline.Clean, Trampoline.HasIndirect, Trampoline.Marked;
    if |starts| == 0 { return false; }
    if n <= 1 { return true; }
    if a >= |text| { return false; }
    var idx := FindFunction(starts, a);
    if idx < 0 { return false; }
    var fstart, fend := starts[idx], FunctionEnd(starts, text, idx);
    OnlyFunction(starts, text, a, idx);
    if a + n > fend || fend - fstart > SPAN_MAX { return false; }
    var f := Trampoline.Func(text, fstart, fend, faults);
    var tgt := new bool[fend - fstart](_ => false);
    var clean, hasIndirect := Trampoline.CollectTargets(f, tgt);
    if !clean || hasIndirect { return false; }
    var k := 1;
    while k < n
      invariant 1 <= k <= n && forall y :: a < y < a + k ==> !Trampoline.Marked(f, y)
    {
      assert Trampoline.InFunc(f, a + k);
      if tgt[a + k - fstart] { return false; }
      k := k + 1;
    }
    safe := true;
  }

  /** Functions do not overlap, so at most one contains a. */
  lemma OnlyFunction(starts: seq<nat>, text: Bytes, a: nat, idx: nat)
    requires Ascending(starts) && idx < |starts| && forall i :: 0 <= i < |starts| ==> (starts[i] <= a <==> i <= idx)
    requires forall i :: 0 <= i < |starts| ==> starts[i] <= |text|
    ensures forall i :: 0 <= i < |starts| && starts[i] <= a < FunctionEnd(starts, text, i) ==> i == idx
  {
    forall i | 0 <= i < |starts| && starts[i] <= a < FunctionEnd(starts, text, i)
      ensures i == idx
    {
      if i < idx { EndsBefore(starts, text, a, idx, i); }
    }
  }

  lemma EndsBefore(starts: seq<nat>, text: Bytes, a: nat, idx: nat, i: nat)
    requires i < idx < |starts| && forall j :: 0 <= j < |starts| ==> (starts[j] <= a <==> j <= idx)
    requires forall j :: 0 <= j < |starts| ==> starts[j] <= |text|
    ensures FunctionEnd(starts, text, i) <= a
  {}
}
