/** scan_function's patching walk: gather_run and emit_run over the text, in place. */
module Patcher {
  import opened Decoded
  import opened ByteStrings
  import opened X86Len
  import opened ControlFlow
  import opened Trampoline
  import VexDecode

  // ---------------------------------------------------------- the jump bytes

  /** The low 32 bits of v, least significant byte first. */
  function Le32(v: int): (r: Bytes)
    ensures |r| == 4
  {
    var a := v / 0x100;
    var b := a / 0x100;
    var c := b / 0x100;
    [v % 0x100, a % 0x100, b % 0x100, c % 0x100]
  }

  predicate InInt32(v: int) { -0x8000_0000 <= v <= 0x7FFF_FFFF }

  lemma Le32Signed(v: int, s: Bytes, i: nat)
    requires InInt32(v) && i + 4 <= |s| && s[i..i + 4] == Le32(v)
    ensures VexDecode.Signed32(s, i) == v
  {
    var r := s[i..i + 4];
    assert s[i] == r[0] && s[i + 1] == r[1] && s[i + 2] == r[2] && s[i + 3] == r[3];
    SplitInt32(v);
  }

  lemma SplitInt32(v: int)
    requires InInt32(v)
    ensures var r: seq<int> := Le32(v);
      r[0] + 0x100 * (r[1] + 0x100 * (r[2] + 0x100 * r[3])) == if v >= 0 then v else v + 0x1_0000_0000
  {
    var a := v / 0x100;
    var b := a / 0x100;
    var c := b / 0x100;
    assert -0x80 <= c <= 0x7F;
    assert c % 0x100 == if v >= 0 then c else c + 0x100;
  }

  function JumpBytes(rel: int): (r: Bytes)
    ensures |r| == JMP
  {
    [0xE9] + Le32(rel)
  }

  /** What is written decodes as one five-byte jump to where it was meant to go. */
  lemma JumpDecodes(s: Bytes, rel: int, off: int)
    requires |s| >= JMP && s[..JMP] == JumpBytes(rel) && InInt32(rel)
    ensures Length(s).len == JMP
    ensures Classify(s, off) == Flow(true, off + JMP + rel)
  {
    assert s[0] == 0xE9;
    assert s[1..5] == Le32(rel) by { assert s[..JMP][1..] == Le32(rel); assert s[..JMP][1..5] == s[1..5]; }
    Le32Signed(rel, s, 1);
    assert ScanPrefixes(s, 0, false, -1) == Prefixes(0, false, -1);
  }

  // ------------------------------------------------------------- one run

  datatype Thunk = NoThunk | At(addr: int)

  /** The run's instructions, gathered from q. */
  ghost predicate IsRun(f: Func, offs: seq<int>, q: int, re: int)
    requires Valid(f)
  {
    && f.fstart <= q <= re <= f.fend
    && (forall i, j :: 0 <= i < j < |offs| ==> offs[i] < offs[j])
    && forall i :: 0 <= i < |offs| ==>
         && q <= offs[i] < re && Faulting(f, offs[i])
         && Boundary(f, offs[i]) && AllFault(f, offs[i], re)
  }

  lemma {:induction false} AllFaultExtend(f: Func, x: int, e: int)
    requires Valid(f) && f.fstart <= x <= e <= f.fend && AllFault(f, x, e) && Faulting(f, e)
    ensures AllFault(f, x, e + Len(f, e))
    decreases e - x
  {
    hide Len, Faulting;
    FaultingDecodes(f, e);
    if x < e {
      FaultingDecodes(f, x);
      AllFaultExtend(f, x + Len(f, x), e);
    }
  }

  /** From q on, text is still the original. */
  lemma SuffixReads(f: Func, cur: Bytes, q: int, x: int)
    requires Valid(f) && f.fstart <= q <= x <= f.fend && |cur| == |f.text| && cur[q..] == f.text[q..]
    ensures var g := f.(text := cur);
      && PadTail(g, x) == PadTail(f, x)
      && Faulting(g, x) == Faulting(f, x)
      && (x < f.fend ==> Len(g, x) == Len(f, x))
      && (Faulting(f, x) ==> DecLen(g, x) == DecLen(f, x))
  {
    hide Length, VexDecode.Decode;
    assert cur[x..] == cur[q..][x - q..] == f.text[x..];
    assert cur[x..f.fend] == cur[x..][..f.fend - x] == f.text[x..f.fend];
    assert forall k :: x <= k < f.fend ==> cur[k] == cur[x..][k - x];
    assert forall k :: x <= k < f.fend ==> f.text[k] == f.text[x..][k - x];
  }

  /** A position of the linear walk: the boundaries from here on are the function's. */
  ghost predicate OnWalk(f: Func, q: int)
    requires Valid(f)
  {
    f.fstart <= q <= f.fend && forall x :: x in Starts(f, q) <==> Boundary(f, x) && x >= q
  }

  lemma WalkBegins(f: Func)
    requires Valid(f)
    ensures OnWalk(f, f.fstart)
  {}

  lemma WalkOn(f: Func, q: int)
    requires Valid(f) && OnWalk(f, q) && q < f.fend && !PadTail(f, q) && Len(f, q) > 0
    ensures Boundary(f, q) && OnWalk(f, q + Len(f, q))
  {
    hide Len, PadTail;
    var y := q + Len(f, q);
    assert Starts(f, q) == [q] + Starts(f, y);
    assert q in Starts(f, q);
    StartsFacts(f, f.fstart, q);
  }

  lemma RunGrows(f: Func, offs: seq<int>, q: int, p: int)
    requires Valid(f) && IsRun(f, offs, q, p) && OnWalk(f, p) && Faulting(f, p) && Boundary(f, p)
    ensures IsRun(f, offs + [p], q, p + Len(f, p))
  {
    hide Len, Faulting, AllFault, Boundary;
    FaultingDecodes(f, p);
    var more := offs + [p];
    forall i | 0 <= i < |more|
      ensures q <= more[i] < p + Len(f, p) && Faulting(f, more[i])
           && Boundary(f, more[i]) && AllFault(f, more[i], p + Len(f, p))
    {
      if i < |offs| {
        assert more[i] == offs[i];
      } else {
        AllFaultRefl(f, p);
      }
      AllFaultExtend(f, more[i], p);
    }
  }

  lemma AllFaultRefl(f: Func, x: int)
    requires Valid(f) && f.fstart <= x <= f.fend
    ensures AllFault(f, x, x)
  {}

  /** No boundary of [q, re) is missing from offs. */
  ghost predicate Complete(f: Func, offs: seq<int>, q: int, re: int)
    requires Valid(f)
  {
    forall x :: Boundary(f, x) && q <= x < re ==> x in offs
  }

  lemma CompleteGrows(f: Func, offs: seq<int>, q: int, p: int)
    requires Valid(f) && Complete(f, offs, q, p) && Boundary(f, p) && InFunc(f, p)
    ensures Complete(f, offs + [p], q, p + Len(f, p))
  {
    hide Len, Boundary;
    forall x | Boundary(f, x) && p < x
      ensures p + Len(f, p) <= x
    {
      BoundaryOrder(f, p, x);
    }
  }

  /** The first instruction is at q, each next one where its predecessor ends, and re where the last ends. */
  ghost predicate Chain(f: Func, offs: seq<int>, q: int, re: int)
    requires Valid(f)
  {
    && (|offs| > 0 ==> offs[0] == q)
    && forall i :: 0 <= i < |offs| ==> InFunc(f, offs[i]) && After(offs, re, i) == offs[i] + Len(f, offs[i])
  }

  function After(offs: seq<int>, re: int, i: nat): int
    requires i < |offs|
  {
    if i + 1 < |offs| then offs[i + 1] else re
  }

  lemma ChainGrows(f: Func, offs: seq<int>, q: int, p: int)
    requires Valid(f) && Chain(f, offs, q, p) && InFunc(f, p) && (|offs| == 0 ==> p == q)
    ensures Chain(f, offs + [p], q, p + Len(f, p))
  {
    hide Len;
    var more := offs + [p];
    forall i | 0 <= i < |more|
      ensures InFunc(f, more[i]) && After(more, p + Len(f, p), i) == more[i] + Len(f, more[i])
    {
      if i < |offs| { assert After(offs, p, i) == offs[i] + Len(f, offs[i]); }
    }
  }

  ghost predicate Gathered(f: Func, offs: seq<int>, q: int, re: int)
    requires Valid(f)
  {
    && OnWalk(f, re) && IsRun(f, offs, q, re) && Complete(f, offs, q, re) && Chain(f, offs, q, re)
    && (|offs| == 0 <==> re == q) && |offs| <= MAXRUN
  }

  /** Only the end of the function, a sound instruction or the limit ends a run. */
  ghost predicate Maximal(f: Func, offs: seq<int>, re: int)
    requires Valid(f)
  {
    re == f.fend || |offs| == MAXRUN || !Faulting(f, re)
  }

  lemma GatherNone(f: Func, q: int)
    requires Valid(f) && OnWalk(f, q)
    ensures Gathered(f, [], q, q) && f.fstart <= q <= f.fend
  {
    RunStarts(f, q);
  }

  lemma GatherStep(f: Func, offs: seq<int>, q: int, p: int)
    requires Valid(f) && Gathered(f, offs, q, p) && Faulting(f, p) && |offs| < MAXRUN
    ensures p + Len(f, p) <= f.fend && Len(f, p) > 0 && Gathered(f, offs + [p], q, p + Len(f, p))
  {
    hide Len, Faulting, PadTail, IsRun, OnWalk, Boundary, Complete, Chain;
    FaultingDecodes(f, p);
    FaultNotPadding(f, p);
    WalkOn(f, p);
    RunRange(f, offs, q, p);
    RunGrows(f, offs, q, p);
    CompleteGrows(f, offs, q, p);
    ChainGrows(f, offs, q, p);
  }

  lemma GatherRange(f: Func, offs: seq<int>, q: int, re: int)
    requires Valid(f) && Gathered(f, offs, q, re)
    ensures f.fstart <= q <= re <= f.fend && |offs| <= MAXRUN
  {}

  /** gather_run: g is the function as the text now reads, f as it read before any patch. */
  method GatherRun(ghost f: Func, g: Func, q: int) returns (offs: seq<int>, re: int)
    requires Valid(f) && Valid(g) && g == f.(text := g.text) && |g.text| == |f.text|
    requires OnWalk(f, q) && g.text[q..] == f.text[q..]
    ensures Gathered(f, offs, q, re) && Maximal(f, offs, re)
    ensures q < re || !Faulting(f, q)
  {
    hide Len, Faulting, Gathered, OnWalk, PadTail;
    offs, re := [], q;
    GatherNone(f, q);
    while re < g.fend && |offs| < MAXRUN
      invariant f.fstart <= q <= re <= f.fend && Gathered(f, offs, q, re) && |offs| <= MAXRUN
      invariant |offs| > 0 ==> q < re
      decreases g.fend - re
    {
      SuffixReads(f, g.text, q, re);
      if !Faulting(g, re) { break; }
      GatherStep(f, offs, q, re);
      offs := offs + [re];
      re := re + Len(g, re);
    }
    if q == re { SuffixReads(f, g.text, q, q); FaultInFunc(f, q); }
  }

  lemma RunStarts(f: Func, q: int)
    requires Valid(f) && OnWalk(f, q)
    ensures f.fstart <= q <= f.fend && IsRun(f, [], q, q)
  {}

  lemma FaultInFunc(f: Func, q: int)
    requires Valid(f)
    ensures Faulting(f, q) ==> InFunc(f, q)
  {}

  // -------------------------------------------------------------- patching

  /** The jump to a thunk: relative to the end of the jump, in range. */
  datatype Jump = Jump(patch: Patch, thunk: int)

  function Rel(base: int, j: Jump): int { j.thunk - (base + j.patch.site + JMP) }

  function Patches(js: seq<Jump>): (ps: seq<Patch>)
    ensures |ps| == |js| && forall i :: 0 <= i < |js| ==> ps[i] == js[i].patch
  {
    seq(|js|, i requires 0 <= i < |js| => js[i].patch)
  }

  predicate InJump(js: seq<Jump>, k: int) {
    exists i :: 0 <= i < |js| && js[i].patch.site <= k < js[i].patch.site + JMP
  }

  /** The text after patching: the jumps, and every other byte as it was. */
  ghost predicate PatchedText(f: Func, base: int, js: seq<Jump>, t: Bytes) {
    && |t| == |f.text|
    && (forall k :: 0 <= k < |t| && !InJump(js, k) ==> t[k] == f.text[k])
    && forall i :: 0 <= i < |js| ==>
         && 0 <= js[i].patch.site && js[i].patch.site + JMP <= |t|
         && InInt32(Rel(base, js[i]))
         && t[js[i].patch.site..js[i].patch.site + JMP] == JumpBytes(Rel(base, js[i]))
  }

  /** Marks as collected by the first pass. */
  ghost predicate Marks(f: Func, tgt: seq<bool>, hasIndirect: bool)
    requires Valid(f)
  {
    && |tgt| == f.fend - f.fstart && hasIndirect == HasIndirect(f)
    && forall y :: InFunc(f, y) ==> (tgt[y - f.fstart] <==> Marked(f, y))
  }

  /** The test emit_run applies to a start is exactly whether a patch there is good. */
  lemma StartTest(f: Func, offs: seq<int>, q: int, re: int, i: nat)
    requires Valid(f) && PlainFaults(f) && IsRun(f, offs, q, re) && i < |offs|
    ensures var x := offs[i];
      GoodPatch(f, Patch(x, re)) <==>
        re - x >= JMP && (DecLen(f, x) >= JMP || (!HasIndirect(f) && (x + 4 >= f.fend || !Marked(f, x + 4))))
  {
    hide Len, VexDecode.Decode, VexDecode.PlainRex, AllFault, HasIndirect, Marked, Boundary;
    FaultLength(f, offs[i]);
    if offs[i] + 4 >= f.fend { UnmarkedOutside(f, offs[i] + 4); }
  }

  lemma UnmarkedOutside(f: Func, y: int)
    requires Valid(f) && y >= f.fend
    ensures !Marked(f, y)
  {}

  /** emit_run's loop: the first good start of the run, if there is one. */
  method ChooseStart(ghost f: Func, g: Func, offs: seq<int>, q: int, re: int, tgt: seq<bool>, hasIndirect: bool)
    returns (s: nat)
    requires Valid(f) && Valid(g) && g == f.(text := g.text) && |g.text| == |f.text| && PlainFaults(f)
    requires IsRun(f, offs, q, re) && g.text[q..] == f.text[q..] && Marks(f, tgt, hasIndirect)
    ensures s <= |offs|
    ensures s < |offs| ==> GoodPatch(f, Patch(offs[s], re))
    ensures forall i :: 0 <= i < s ==> !GoodPatch(f, Patch(offs[i], re))
  {
    hide GoodPatch, Faulting, AllFault, HasIndirect, Marked, Boundary, PlainFaults, DecLen;
    s := 0;
    while s < |offs|
      invariant s <= |offs|
      invariant forall i :: 0 <= i < s ==> !GoodPatch(f, Patch(offs[i], re))
    {
      var soff := offs[s];
      SuffixReads(f, g.text, q, soff);
      StartTest(f, offs, q, re, s);
      if re - soff < JMP {
        forall i | s <= i < |offs|
          ensures !GoodPatch(f, Patch(offs[i], re))
        {
          StartTest(f, offs, q, re, i);
        }
        return |offs|;
      }
      var slen := DecLen(g, soff);
      if slen >= JMP { break; }
      var nb := soff + 4;
      if !hasIndirect && (nb >= g.fend || !tgt[nb - g.fstart]) { break; }
      s := s + 1;
    }
  }

  /** Writes the five bytes of a jump. */
  method WriteJump(text: array<Byte>, site: nat, rel: int)
    requires site + JMP <= text.Length
    modifies text
    ensures text[..] == old(text[..site]) + JumpBytes(rel) + old(text[site + JMP..])
  {
    var b := Le32(rel);
    text[site] := 0xE9;
    text[site + 1] := b[0];
    text[site + 2] := b[1];
    text[site + 3] := b[2];
    text[site + 4] := b[3];
    assert text[site..site + JMP] == JumpBytes(rel);
    assert text[..site] == old(text[..site]);
    assert text[site + JMP..] == old(text[site + JMP..]);
    assert text[..] == text[..site] + text[site..site + JMP] + text[site + JMP..];
  }

  lemma InJumpMono(js: seq<Jump>, j: Jump, k: int)
    ensures InJump(js + [j], k) <==> InJump(js, k) || j.patch.site <= k < j.patch.site + JMP
  {
    var more := js + [j];
    if i :| 0 <= i < |js| && js[i].patch.site <= k < js[i].patch.site + JMP {
      assert more[i] == js[i];
    }
    assert more[|js|] == j;
  }

  lemma TextGrows(f: Func, base: int, js: seq<Jump>, j: Jump, t: Bytes, u: Bytes)
    requires PatchedText(f, base, js, t) && InInt32(Rel(base, j))
    requires 0 <= j.patch.site && j.patch.site + JMP <= |t|
    requires forall i :: 0 <= i < |js| ==> js[i].patch.site + JMP <= j.patch.site
    requires u == t[..j.patch.site] + JumpBytes(Rel(base, j)) + t[j.patch.site + JMP..]
    ensures PatchedText(f, base, js + [j], u)
  {
    var more, site := js + [j], j.patch.site;
    forall i | 0 <= i < |more|
      ensures u[more[i].patch.site..more[i].patch.site + JMP] == JumpBytes(Rel(base, more[i]))
    {
      if i < |js| {
        var a := js[i].patch.site;
        assert u[a..a + JMP] == t[a..a + JMP];
      }
    }
    forall k | 0 <= k < |u| && !InJump(more, k)
      ensures u[k] == f.text[k]
    {
      InJumpMono(js, j, k);
    }
  }

  /** What holds between the runs of the second pass. */
  ghost predicate Placed(f: Func, base: int, js: seq<Jump>, q: int, t: Bytes)
    requires Valid(f)
  {
    && PatchedText(f, base, js, t)
    && GoodPatches(f, Patches(js))
    && (forall i :: 0 <= i < |js| ==> js[i].patch.resume <= q)
    && f.fstart <= q <= f.fend
    && t[q..] == f.text[q..]
  }

  lemma PlaceOne(f: Func, base: int, js: seq<Jump>, q: int, t: Bytes, j: Jump, u: Bytes)
    requires Valid(f) && Placed(f, base, js, q, t) && GoodPatch(f, j.patch) && q <= j.patch.site
    requires InInt32(Rel(base, j))
    requires u == t[..j.patch.site] + JumpBytes(Rel(base, j)) + t[j.patch.site + JMP..]
    ensures Placed(f, base, js + [j], j.patch.resume, u)
  {
    hide GoodPatch, JumpBytes, Boundary;
    GoodPatchRange(f, j.patch);
    forall i | 0 <= i < |js|
      ensures js[i].patch.site + JMP <= js[i].patch.resume
    {
      assert Patches(js)[i] == js[i].patch;
      GoodPatchRange(f, js[i].patch);
    }
    TextGrows(f, base, js, j, t, u);
    var re := j.patch.resume;
    assert u[re..] == t[re..] == f.text[re..] by {
      assert t[q..][re - q..] == t[re..];
      assert f.text[q..][re - q..] == f.text[re..];
    }
    var ps := Patches(js + [j]);
    forall i | 0 <= i < |ps|
      ensures GoodPatch(f, ps[i]) && ps[i].resume <= re && forall k :: i < k < |ps| ==> ps[i].resume <= ps[k].site
    {
      if i < |js| { assert ps[i] == Patches(js)[i]; }
      forall k | i < k < |ps|
        ensures ps[i].resume <= ps[k].site
      {
        if k < |js| { assert ps[k] == Patches(js)[k]; } else { assert ps[k] == j.patch; }
      }
    }
  }

  lemma GoodPatchRange(f: Func, p: Patch)
    requires Valid(f) && GoodPatch(f, p)
    ensures f.fstart <= p.site && p.site + JMP <= p.resume <= f.fend <= |f.text|
  {
    BoundaryInFunc(f, p.site);
  }

  lemma PlaceNone(f: Func, base: int, js: seq<Jump>, q: int, t: Bytes, re: int)
    requires Valid(f) && Placed(f, base, js, q, t) && q <= re <= f.fend
    ensures Placed(f, base, js, re, t)
  {
    hide GoodPatches;
    assert t[re..] == t[q..][re - q..];
    assert f.text[re..] == f.text[q..][re - q..];
  }

  predicate Reachable(base: int, site: int, thunk: Thunk) {
    thunk.At? && InInt32(thunk.addr - (base + site + JMP))
  }

  datatype Run = Run(offs: seq<int>, q: int, re: int)

  /** The first of the run's instructions from number i on that a jump may safely replace, or their number. */
  ghost function FirstGoodFrom(f: Func, r: Run, i: nat): (s: nat)
    requires Valid(f) && i <= |r.offs|
    ensures i <= s <= |r.offs|
    decreases |r.offs| - i
  {
    hide GoodPatch;
    if i == |r.offs| || GoodPatch(f, Patch(r.offs[i], r.re)) then i else FirstGoodFrom(f, r, i + 1)
  }

  ghost function FirstGood(f: Func, r: Run): (s: nat)
    requires Valid(f)
    ensures s <= |r.offs|
  {
    FirstGoodFrom(f, r, 0)
  }

  lemma {:induction false} FirstGoodIs(f: Func, r: Run, i: nat, s: nat)
    requires Valid(f) && i <= s <= |r.offs|
    requires s < |r.offs| ==> GoodPatch(f, Patch(r.offs[s], r.re))
    requires forall k :: i <= k < s ==> !GoodPatch(f, Patch(r.offs[k], r.re))
    ensures FirstGoodFrom(f, r, i) == s
    decreases s - i
  {
    hide GoodPatch;
    if i < s { FirstGoodIs(f, r, i + 1, s); }
  }

  /** The start chosen is good and none before it is. */
  lemma {:induction false} FirstGoodMeans(f: Func, r: Run, i: nat)
    requires Valid(f) && i <= |r.offs|
    ensures var s := FirstGoodFrom(f, r, i);
      && (s < |r.offs| ==> GoodPatch(f, Patch(r.offs[s], r.re)))
      && forall k :: i <= k < s ==> !GoodPatch(f, Patch(r.offs[k], r.re))
    decreases |r.offs| - i
  {
    hide GoodPatch;
    if i < |r.offs| && !GoodPatch(f, Patch(r.offs[i], r.re)) { FirstGoodMeans(f, r, i + 1); }
  }

  /** A safe start exists and the thunk for the first one is within reach. */
  ghost predicate Patchable(f: Func, base: int, thunkFor: (int, int) -> Thunk, r: Run)
    requires Valid(f)
  {
    var s := FirstGood(f, r);
    s < |r.offs| && Reachable(base, r.offs[s], thunkFor(r.offs[s], r.re))
  }

  /** From the first safe start to the end of the run. */
  ghost function Called(f: Func, base: int, thunkFor: (int, int) -> Thunk, r: Run): Jump
    requires Valid(f) && Patchable(f, base, thunkFor, r)
  {
    var site := r.offs[FirstGood(f, r)];
    Jump(Patch(site, r.re), thunkFor(site, r.re).addr)
  }

  /** The jump a run calls for, if it calls for one. */
  ghost function JumpOf(f: Func, base: int, thunkFor: (int, int) -> Thunk, r: Run): (js: seq<Jump>)
    requires Valid(f)
    ensures |js| <= 1
  {
    if Patchable(f, base, thunkFor, r) then [Called(f, base, thunkFor, r)] else []
  }

  /** emit_run on the run [q, re); thunkFor is what building a thunk for a start yields. */
  method EmitRun(text: array<Byte>, ghost f: Func, g: Func, base: int, ghost js: seq<Jump>, offs: seq<int>,
                 q: int, re: int, tgt: seq<bool>, hasIndirect: bool, thunkFor: (int, int) -> Thunk)
    returns (ok: bool, ghost more: seq<Jump>)
    requires Valid(f) && Valid(g) && g == f.(text := g.text) && g.text == text[..] && |g.text| == |f.text|
    requires PlainFaults(f) && Placed(f, base, js, q, text[..])
    requires IsRun(f, offs, q, re) && Marks(f, tgt, hasIndirect)
    modifies text
    ensures Placed(f, base, more, re, text[..])
    ensures more == js + JumpOf(f, base, thunkFor, Run(offs, q, re)) && |more| == |js| + if ok then 1 else 0
  {
    hide Placed, GoodPatch, IsRun, Marks, PlainFaults, JumpBytes, InInt32;
    PlacedSuffix(f, base, js, q, text[..]);
    RunRange(f, offs, q, re);
    var start := ChooseStart(f, g, offs, q, re, tgt, hasIndirect);
    ghost var r := Run(offs, q, re);
    FirstGoodIs(f, r, 0, start);
    ok, more := false, js;
    PlaceNone(f, base, js, q, text[..], re);
    if start < |offs| {
      var site := offs[start];
      var thunk := thunkFor(site, re);
      if thunk.At? {
        ghost var p := Patch(site, re);
        GoodPatchRange(f, p);
        var rel := thunk.addr - (base + site + JMP);
        if InInt32(rel) {
          ghost var j := Jump(p, thunk.addr);
          ghost var before := text[..];
          WriteJump(text, site, rel);
          PlaceOne(f, base, js, q, before, j, text[..]);
          ok, more := true, js + [j];
        }
      }
    }
  }

  lemma PlacedSuffix(f: Func, base: int, js: seq<Jump>, q: int, t: Bytes)
    requires Valid(f) && Placed(f, base, js, q, t)
    ensures f.fstart <= q <= f.fend && |t| == |f.text| && t[q..] == f.text[q..]
  {}

  lemma RunRange(f: Func, offs: seq<int>, q: int, re: int)
    requires Valid(f) && IsRun(f, offs, q, re)
    ensures q <= re <= f.fend && forall i :: 0 <= i < |offs| ==> q <= offs[i] < re
  {}

  // --------------------------------------------------------- the whole walk

  ghost predicate MaximalRun(f: Func, r: Run)
    requires Valid(f)
  {
    Gathered(f, r.offs, r.q, r.re) && Maximal(f, r.offs, r.re) && |r.offs| > 0
  }

  ghost predicate InRuns(runs: seq<Run>, x: int) { exists i :: 0 <= i < |runs| && x in runs[i].offs }

  /** Maximal runs, in order and apart, that hold every faulting instruction before q. */
  ghost predicate RunsUpTo(f: Func, runs: seq<Run>, q: int)
    requires Valid(f)
  {
    && (forall i :: 0 <= i < |runs| ==> MaximalRun(f, runs[i]) && runs[i].re <= q)
    && (forall i, j :: 0 <= i < j < |runs| ==> runs[i].re <= runs[j].q)
    && forall x :: Boundary(f, x) && Faulting(f, x) && x < q ==> InRuns(runs, x)
  }

  /** The jumps that a division into runs calls for. */
  ghost function JumpsOf(f: Func, base: int, thunkFor: (int, int) -> Thunk, runs: seq<Run>): seq<Jump>
    requires Valid(f)
  {
    if |runs| == 0 then []
    else JumpsOf(f, base, thunkFor, runs[..|runs| - 1]) + JumpOf(f, base, thunkFor, runs[|runs| - 1])
  }

  lemma JumpsAppend(f: Func, base: int, thunkFor: (int, int) -> Thunk, runs: seq<Run>, r: Run)
    requires Valid(f)
    ensures JumpsOf(f, base, thunkFor, runs + [r]) == JumpsOf(f, base, thunkFor, runs) + JumpOf(f, base, thunkFor, r)
  {
    hide JumpOf;
    var more := runs + [r];
    assert more[..|more| - 1] == runs && more[|more| - 1] == r;
  }

  lemma AfterRun(f: Func, runs: seq<Run>, r: Run)
    requires Valid(f) && MaximalRun(f, r) && RunsUpTo(f, runs, r.q)
    ensures RunsUpTo(f, runs + [r], r.re)
  {
    hide Boundary, Faulting, MaximalRun;
    var more := runs + [r];
    RunOrder(f, r);
    forall x | Boundary(f, x) && Faulting(f, x) && x < r.re
      ensures InRuns(more, x)
    {
      if x < r.q {
        var i :| 0 <= i < |runs| && x in runs[i].offs;
        assert more[i] == runs[i];
      } else {
        assert x in more[|runs|].offs;
      }
    }
  }

  /** A run holds every boundary of [q, re) and starts at q. */
  lemma RunOrder(f: Func, r: Run)
    requires Valid(f) && MaximalRun(f, r)
    ensures f.fstart <= r.q < r.re <= f.fend && r.offs[0] == r.q && 0 < |r.offs| <= MAXRUN
    ensures forall i :: 0 <= i < |r.offs| ==>
      r.q <= r.offs[i] < r.re && Faulting(f, r.offs[i]) && Boundary(f, r.offs[i])
    ensures forall i, j :: 0 <= i < j < |r.offs| ==> r.offs[i] < r.offs[j]
    ensures forall x :: Boundary(f, x) && r.q <= x < r.re ==> x in r.offs
  {
    hide Faulting, Boundary;
  }

  lemma AfterStep(f: Func, runs: seq<Run>, q: int)
    requires Valid(f) && RunsUpTo(f, runs, q) && InFunc(f, q) && !Faulting(f, q) && Boundary(f, q)
    ensures RunsUpTo(f, runs, q + Len(f, q))
  {
    hide Len, Faulting, Boundary, MaximalRun, InRuns;
    forall x | Boundary(f, x) && Faulting(f, x) && x < q + Len(f, q)
      ensures InRuns(runs, x)
    {
      if x > q { BoundaryOrder(f, q, x); }
    }
  }

  lemma NoneLeft(f: Func, runs: seq<Run>, q: int)
    requires Valid(f) && f.fstart <= q <= f.fend && RunsUpTo(f, runs, q)
    requires OnWalk(f, q) && Starts(f, q) == []
    ensures RunsUpTo(f, runs, f.fend)
  {
    hide Faulting, Starts, MaximalRun, InRuns;
  }

  /**
   * scan_function on a cleanly decoding function: whatever thunks can be built, the patches
   * made are good, in order and disjoint, only their bytes change, and they are exactly the
   * jumps that the maximal runs of faulting instructions call for. `RunsUnique` shows that
   * there is one such division into runs, `PatchedIff` what it means for each instruction.
   */
  method ScanFunction(text: array<Byte>, fstart: nat, fend: nat, faults: Insn -> bool, base: int,
                      thunkFor: (int, int) -> Thunk)
    returns (patched: nat, ghost js: seq<Jump>, ghost runs: seq<Run>)
    requires fstart <= fend <= text.Length && PlainFaults(Func(text[..], fstart, fend, faults))
    modifies text
    ensures var f := Func(old(text[..]), fstart, fend, faults);
      && patched == |js|
      && GoodPatches(f, Patches(js)) && PatchedText(f, base, js, text[..])
      && (!Clean(f) ==> js == [])
      && (Clean(f) ==> RunsUpTo(f, runs, fend) && js == JumpsOf(f, base, thunkFor, runs))
  {
    hide Placed, GoodPatch, IsRun, Marks, PlainFaults, JumpBytes, InInt32, OnWalk, Complete, Chain, RunsUpTo,
         JumpsOf, JumpOf, Len, Faulting, PadTail, Boundary, Clean;
    ghost var f := Func(text[..], fstart, fend, faults);
    patched, js, runs := 0, [], [];
    NothingPlaced(f, base, thunkFor);
    var marks := new bool[fend - fstart](_ => false);
    var clean, hasIndirect := CollectTargets(Func(text[..], fstart, fend, faults), marks);
    if !clean { return; }
    var tgt := marks[..];
    MarksCollected(f, tgt, hasIndirect);
    var q: int := fstart;
    while q < fend
      invariant fstart <= q <= fend && OnWalk(f, q) && patched == |js|
      invariant Placed(f, base, js, q, text[..]) && RunsUpTo(f, runs, q) && js == JumpsOf(f, base, thunkFor, runs)
    {
      var g := Func(text[..], fstart, fend, faults);
      PlacedSuffix(f, base, js, q, text[..]);
      SuffixReads(f, text[..], q, q);
      if PadTail(g, q) { break; }
      var len := Len(g, q);
      if len == 0 { break; }
      WalkOn(f, q);
      if !Faulting(g, q) {
        AfterStep(f, runs, q);
        PlaceNone(f, base, js, q, text[..], q + len);
        q := q + len;
      } else {
        var offs, re := GatherRun(f, g, q);
        GatherRange(f, offs, q, re);
        ghost var r := Run(offs, q, re);
        var ok;
        ok, js := EmitRun(text, f, g, base, js, offs, q, re, tgt, hasIndirect, thunkFor);
        JumpsAppend(f, base, thunkFor, runs, r);
        AfterRun(f, runs, r);
        runs := runs + [r];
        patched := patched + if ok then 1 else 0;
        q := re;
      }
    }
    assert Starts(f, q) == [];
    NoneLeft(f, runs, q);
    PlacedAll(f, base, js, q, text[..]);
  }

  lemma NothingPlaced(f: Func, base: int, thunkFor: (int, int) -> Thunk)
    requires Valid(f)
    ensures Placed(f, base, [], f.fstart, f.text) && OnWalk(f, f.fstart)
    ensures GoodPatches(f, Patches([])) && PatchedText(f, base, [], f.text)
    ensures RunsUpTo(f, [], f.fstart) && JumpsOf(f, base, thunkFor, []) == []
  {
    hide Faulting;
    WalkBegins(f);
  }

  lemma MarksCollected(f: Func, tgt: seq<bool>, hasIndirect: bool)
    requires Valid(f) && |tgt| == f.fend - f.fstart && hasIndirect == HasIndirect(f)
    requires forall y :: InFunc(f, y) ==> (tgt[y - f.fstart] <==> Marked(f, y))
    ensures Marks(f, tgt, hasIndirect)
  {}

  lemma PlacedAll(f: Func, base: int, js: seq<Jump>, q: int, t: Bytes)
    requires Valid(f) && Placed(f, base, js, q, t)
    ensures GoodPatches(f, Patches(js)) && PatchedText(f, base, js, t)
  {}

  // ------------------------------------------------- which faults are patched

  /** Two divisions that agree before run i start it at the same place: neither can start it earlier. */
  lemma SameStart(f: Func, a: seq<Run>, b: seq<Run>, i: nat)
    requires Valid(f) && RunsUpTo(f, a, f.fend) && RunsUpTo(f, b, f.fend)
    requires i < |a| && i <= |b| && a[..i] == b[..i]
    ensures i < |b| && b[i].q <= a[i].q
  {
    hide Faulting, Boundary, MaximalRun, RunsUpTo;
    RunAt(f, a, i);
    RunOrder(f, a[i]);
    var x := a[i].q;
    RunHolds(f, b, x);
    var j :| 0 <= j < |b| && x in b[j].offs;
    RunAt(f, b, j);
    RunOrder(f, b[j]);
    if j < i {
      assert b[j] == b[..i][j] == a[..i][j] == a[j];
      RunsApart(f, a, j, i);
    } else if i < j {
      RunsApart(f, b, i, j);
      RunAt(f, b, i);
      RunOrder(f, b[i]);
    }
  }

  lemma RunAt(f: Func, runs: seq<Run>, i: nat)
    requires Valid(f) && RunsUpTo(f, runs, f.fend) && i < |runs|
    ensures MaximalRun(f, runs[i])
  {}

  lemma RunsApart(f: Func, runs: seq<Run>, i: nat, j: nat)
    requires Valid(f) && RunsUpTo(f, runs, f.fend) && i < j < |runs|
    ensures runs[i].re <= runs[j].q
  {}

  lemma RunHolds(f: Func, runs: seq<Run>, x: int)
    requires Valid(f) && RunsUpTo(f, runs, f.fend) && Boundary(f, x) && Faulting(f, x) && x < f.fend
    ensures InRuns(runs, x)
  {}

  /** Runs from one place have the same instructions as far as both go. */
  lemma {:induction false} SameOffs(f: Func, a: Run, b: Run, i: nat)
    requires Valid(f) && MaximalRun(f, a) && MaximalRun(f, b) && a.q == b.q
    requires i < |a.offs| && i < |b.offs|
    ensures a.offs[i] == b.offs[i]
    ensures After(a.offs, a.re, i) == After(b.offs, b.re, i)
  {
    hide MaximalRun, After, Len;
    if i > 0 {
      SameOffs(f, a, b, i - 1);
      AfterIsNext(a.offs, a.re, i);
      AfterIsNext(b.offs, b.re, i);
    } else {
      RunSteps(f, a, 0);
      RunSteps(f, b, 0);
    }
    RunSteps(f, a, i);
    RunSteps(f, b, i);
  }

  lemma AfterIsNext(offs: seq<int>, re: int, i: nat)
    requires 0 < i < |offs|
    ensures After(offs, re, i - 1) == offs[i]
  {}

  lemma RunSteps(f: Func, r: Run, i: nat)
    requires Valid(f) && MaximalRun(f, r) && i < |r.offs|
    ensures r.offs[0] == r.q
    ensures InFunc(f, r.offs[i]) && After(r.offs, r.re, i) == r.offs[i] + Len(f, r.offs[i])
  {
    hide Faulting, Boundary, IsRun, OnWalk, Complete, Maximal, Len;
  }

  lemma NotShorter(f: Func, a: Run, b: Run)
    requires Valid(f) && MaximalRun(f, a) && MaximalRun(f, b) && a.q == b.q
    ensures |a.offs| >= |b.offs|
  {
    hide Faulting, Boundary, MaximalRun;
    RunOrder(f, a);
    RunOrder(f, b);
    var n := |a.offs|;
    if n < |b.offs| {
      SameOffs(f, a, b, n - 1);
      assert a.re == b.offs[n];
      StopsAt(f, a);
      FaultInFunc(f, a.re);
    }
  }

  lemma StopsAt(f: Func, r: Run)
    requires Valid(f) && MaximalRun(f, r)
    ensures Maximal(f, r.offs, r.re)
  {}

  lemma SameRun(f: Func, a: Run, b: Run)
    requires Valid(f) && MaximalRun(f, a) && MaximalRun(f, b) && a.q == b.q
    ensures a == b
  {
    hide MaximalRun;
    NotShorter(f, a, b);
    NotShorter(f, b, a);
    RunOrder(f, a);
    forall i | 0 <= i < |a.offs|
      ensures a.offs[i] == b.offs[i]
    {
      SameOffs(f, a, b, i);
    }
    SameOffs(f, a, b, |a.offs| - 1);
  }

  lemma {:induction false} SamePrefix(f: Func, a: seq<Run>, b: seq<Run>, n: nat)
    requires Valid(f) && RunsUpTo(f, a, f.fend) && RunsUpTo(f, b, f.fend) && n <= |a|
    ensures n <= |b| && a[..n] == b[..n]
  {
    hide MaximalRun, RunsUpTo;
    if n > 0 {
      var i := n - 1;
      SamePrefix(f, a, b, i);
      SameStart(f, a, b, i);
      SameStart(f, b, a, i);
      RunAt(f, a, i);
      RunAt(f, b, i);
      SameRun(f, a[i], b[i]);
      assert a[..n] == a[..i] + [a[i]];
      assert b[..n] == b[..i] + [b[i]];
    }
  }

  /** A function's faulting instructions divide into maximal runs in one way only. */
  lemma RunsUnique(f: Func, a: seq<Run>, b: seq<Run>)
    requires Valid(f) && RunsUpTo(f, a, f.fend) && RunsUpTo(f, b, f.fend)
    ensures a == b
  {
    hide RunsUpTo;
    SamePrefix(f, a, b, |a|);
    SamePrefix(f, b, a, |b|);
    assert a[..|a|] == a && b[..|b|] == b;
  }

  ghost predicate Covered(js: seq<Jump>, x: int) {
    exists i :: 0 <= i < |js| && js[i].patch.site <= x < js[i].patch.resume
  }

  lemma {:induction false} CoveredBy(f: Func, base: int, thunkFor: (int, int) -> Thunk, runs: seq<Run>, x: int)
    requires Valid(f)
    ensures Covered(JumpsOf(f, base, thunkFor, runs), x) <==>
            exists i :: 0 <= i < |runs| && Covered(JumpOf(f, base, thunkFor, runs[i]), x)
  {
    hide JumpOf;
    if |runs| > 0 {
      var n := |runs| - 1;
      var front := runs[..n];
      CoveredBy(f, base, thunkFor, front, x);
      CoveredAppend(JumpsOf(f, base, thunkFor, front), JumpOf(f, base, thunkFor, runs[n]), x);
      assert forall i :: 0 <= i < n ==> front[i] == runs[i];
      assert forall i :: 0 <= i < |runs| ==> i < n || runs[i] == runs[n];
    }
  }

  lemma CoveredAppend(a: seq<Jump>, b: seq<Jump>, x: int)
    ensures Covered(a + b, x) <==> Covered(a, x) || Covered(b, x)
  {
    var c := a + b;
    if i :| 0 <= i < |a| && a[i].patch.site <= x < a[i].patch.resume { assert c[i] == a[i]; }
    if i :| 0 <= i < |b| && b[i].patch.site <= x < b[i].patch.resume { assert c[|a| + i] == b[i]; }
  }

  lemma JumpCovers(f: Func, base: int, thunkFor: (int, int) -> Thunk, r: Run, x: int)
    requires Valid(f)
    ensures Covered(JumpOf(f, base, thunkFor, r), x) <==>
            Patchable(f, base, thunkFor, r) && r.offs[FirstGood(f, r)] <= x < r.re
  {
    hide GoodPatch, Reachable, FirstGood;
    var js := JumpOf(f, base, thunkFor, r);
    if Patchable(f, base, thunkFor, r) { assert js[0].patch == Patch(r.offs[FirstGood(f, r)], r.re); }
  }

  /**
   * An instruction of a run is taken over by a jump exactly when it is not before the run's
   * first safe start and the thunk for that start is within reach.
   */
  lemma PatchedIff(f: Func, base: int, thunkFor: (int, int) -> Thunk, runs: seq<Run>, i: nat, k: nat)
    requires Valid(f) && RunsUpTo(f, runs, f.fend) && i < |runs| && k < |runs[i].offs|
    ensures Covered(JumpsOf(f, base, thunkFor, runs), runs[i].offs[k]) <==>
            Patchable(f, base, thunkFor, runs[i]) && FirstGood(f, runs[i]) <= k
  {
    hide MaximalRun, RunsUpTo, JumpsOf, JumpOf, Covered, FirstGood, GoodPatch, Reachable, Faulting, Boundary;
    var r, x := runs[i], runs[i].offs[k];
    RunAt(f, runs, i);
    RunOrder(f, r);
    CoveredBy(f, base, thunkFor, runs, x);
    JumpCovers(f, base, thunkFor, r, x);
    StartOrder(f, r, k);
    forall j | 0 <= j < |runs| && j != i
      ensures !Covered(JumpOf(f, base, thunkFor, runs[j]), x)
    {
      RunAt(f, runs, j);
      OtherRunElsewhere(f, runs, i, j, k);
      RunOrder(f, runs[j]);
      JumpCovers(f, base, thunkFor, runs[j], x);
    }
  }

  lemma OtherRunElsewhere(f: Func, runs: seq<Run>, i: nat, j: nat, k: nat)
    requires Valid(f) && RunsUpTo(f, runs, f.fend) && i < |runs| && j < |runs| && j != i && k < |runs[i].offs|
    ensures !(runs[j].q <= runs[i].offs[k] < runs[j].re)
  {
    hide MaximalRun, RunsUpTo, Faulting, Boundary;
    RunAt(f, runs, i);
    RunOrder(f, runs[i]);
    if i < j { RunsApart(f, runs, i, j); } else { RunsApart(f, runs, j, i); }
  }

  lemma StartOrder(f: Func, r: Run, k: nat)
    requires Valid(f) && MaximalRun(f, r) && k < |r.offs|
    ensures FirstGood(f, r) < |r.offs| ==> (r.offs[FirstGood(f, r)] <= r.offs[k] <==> FirstGood(f, r) <= k)
  {
    hide MaximalRun, Faulting, Boundary, GoodPatch, FirstGood;
    RunOrder(f, r);
  }

  /** With every thunk in reach no faulting instruction that a jump may safely replace is left to trap. */
  lemma GoodStartPatched(f: Func, base: int, thunkFor: (int, int) -> Thunk, runs: seq<Run>, i: nat, k: nat)
    requires Valid(f) && RunsUpTo(f, runs, f.fend) && i < |runs| && k < |runs[i].offs|
    requires GoodPatch(f, Patch(runs[i].offs[k], runs[i].re))
    requires forall site, resume :: Reachable(base, site, thunkFor(site, resume))
    ensures JumpsOf(f, base, thunkFor, runs) != [] && Covered(JumpsOf(f, base, thunkFor, runs), runs[i].offs[k])
  {
    hide GoodPatch, RunsUpTo, JumpsOf, Reachable;
    FirstGoodMeans(f, runs[i], 0);
    PatchedIff(f, base, thunkFor, runs, i, k);
  }

  /**
   * andn eax, ecx, edx alone in a function that faults on everything: one run of one, and the
   * division without runs, or without the jump, is refused.
   */
  lemma AndnPatched(f: Func, base: int, thunkFor: (int, int) -> Thunk)
    requires f == Func([0xC4, 0xE2, 0x70, 0xF2, 0xC2], 0, 5, f.faults) && forall d :: f.faults(d)
    requires Reachable(base, 0, thunkFor(0, 5))
    ensures RunsUpTo(f, [Run([0], 0, 5)], 5) && !RunsUpTo(f, [], 5)
    ensures JumpsOf(f, base, thunkFor, [Run([0], 0, 5)]) == [Jump(Patch(0, 5), thunkFor(0, 5).addr)]
  {
    hide Length, VexDecode.Decode, Len, Faulting, GoodPatch, Reachable, Boundary, Starts, PadTail;
    var r := Run([0], 0, 5);
    LoneFault(f);
    assert OnWalk(f, 5);
    assert Gathered(f, r.offs, r.q, r.re);
    assert r.offs[0] == 0 && 0 in r.offs;
    var one := [r];
    assert one[0] == r && InRuns(one, 0);
    assert RunsUpTo(f, one, 5);
    assert !InRuns([], 0);
    assert JumpsOf(f, base, thunkFor, one[..0]) == [];
    assert one[0..0] == [];
    FirstGoodIs(f, r, 0, 0);
  }

  lemma LoneFault(f: Func)
    requires f.text == [0xC4, 0xE2, 0x70, 0xF2, 0xC2] && f.fstart == 0 && f.fend == 5
    requires forall d :: f.faults(d)
    ensures Valid(f) && Starts(f, 0) == [0] && Starts(f, 5) == [] && Len(f, 0) == 5
    ensures Faulting(f, 0) && GoodPatch(f, Patch(0, 5)) && AllFault(f, 0, 5)
    ensures forall x :: Boundary(f, x) <==> x == 0
  {
    hide Len, PadTail, VexDecode.Decode;
    LoneInsn(f);
    assert Starts(f, 5) == [];
    assert Starts(f, 0) == [0] + Starts(f, 5);
    assert AllFault(f, 5, 5);
  }

  lemma LoneInsn(f: Func)
    requires f.text == [0xC4, 0xE2, 0x70, 0xF2, 0xC2] && f.fstart == 0 && f.fend == 5
    requires forall d :: f.faults(d)
    ensures Valid(f) && Len(f, 0) == 5 && Faulting(f, 0) && !PadTail(f, 0)
  {
    hide Length, VexDecode.Decode;
    var s := f.text;
    assert s[0..5] == s && s[0..] == s;
    AndnDecodes(s);
    assert s[0] == 0xC4;
    assert !PadByte(f.text[0]);
  }

  lemma AndnDecodes(s: Bytes)
    requires s == [0xC4, 0xE2, 0x70, 0xF2, 0xC2]
    ensures Length(s).len == 5 && VexDecode.Decode(s).Ok?
  {
    assert ScanPrefixes(s, 0, false, -1) == Prefixes(0, false, -1);
    assert VexDecode.ScanPadding(s, 0, 0) == VexDecode.Padding(0, 0);
  }

  // ------------------------------------------------ what the patched bytes are

  /** At a site the processor finds a five-byte jump to the thunk. */
  lemma SiteIsJump(f: Func, base: int, js: seq<Jump>, t: Bytes, i: nat)
    requires Valid(f) && GoodPatches(f, Patches(js)) && PatchedText(f, base, js, t) && i < |js|
    ensures var p := js[i].patch;
      && 0 <= p.site <= f.fend
      && Length(t[p.site..f.fend]).len == JMP
      && base + Classify(t[p.site..f.fend], p.site).tgt == js[i].thunk
  {
    hide GoodPatch, JumpBytes, Length, Classify;
    var p := js[i].patch;
    assert Patches(js)[i] == p;
    GoodPatchRange(f, p);
    var s := t[p.site..f.fend];
    assert s[..JMP] == t[p.site..p.site + JMP];
    JumpDecodes(s, Rel(base, js[i]), p.site);
  }

  /**
   * At every boundary that is no site and not inside a written jump, the processor finds the
   * original instruction, byte for byte.
   */
  lemma OthersIntact(f: Func, base: int, js: seq<Jump>, t: Bytes, x: int)
    requires Valid(f) && GoodPatches(f, Patches(js)) && PatchedText(f, base, js, t)
    requires Boundary(f, x) && !InJump(js, x)
    ensures 0 <= x && x + Len(f, x) <= |t| && t[x..x + Len(f, x)] == f.text[x..x + Len(f, x)]
  {
    hide GoodPatch, JumpBytes, Boundary, Len;
    BoundaryInFunc(f, x);
    forall k | x <= k < x + Len(f, x)
      ensures t[k] == f.text[k]
    {
      if i :| 0 <= i < |js| && js[i].patch.site <= k < js[i].patch.site + JMP {
        assert Patches(js)[i] == js[i].patch;
        GoodPatchRange(f, js[i].patch);
        SiteBoundary(f, js[i].patch);
        assert !(js[i].patch.site <= x);
        BoundaryOrder(f, x, js[i].patch.site);
        assert false;
      }
    }
  }

  lemma SiteBoundary(f: Func, p: Patch)
    requires Valid(f) && GoodPatch(f, p)
    ensures Boundary(f, p.site)
  {}

  ghost predicate AllInCode(f: Func, js: seq<Jump>)
    requires Valid(f)
  {
    forall i :: 0 <= i < |js| ==> InCode(f, js[i].patch)
  }

  /** Patches that stay in code are those the simulation asks for. */
  lemma InCodeGood(f: Func, js: seq<Jump>)
    requires Valid(f) && GoodPatches(f, Patches(js)) && AllInCode(f, js)
    ensures GoodCodes(f, Patches(js))
  {
    hide GoodPatch, InCode;
  }

  /**
   * And so at every program point of the simulation that is no site and not inside a written
   * jump: the processor finds the original instruction, whether or not the second pass stops there.
   */
  lemma CodeIntact(f: Func, base: int, js: seq<Jump>, t: Bytes, x: int)
    requires Valid(f) && GoodPatches(f, Patches(js)) && PatchedText(f, base, js, t) && AllInCode(f, js)
    requires Code(f, x) && !InJump(js, x)
    ensures 0 <= x && x + Len(f, x) <= |t| && t[x..x + Len(f, x)] == f.text[x..x + Len(f, x)]
  {
    hide GoodPatch, JumpBytes, Code, Len;
    CodeFacts(f, x);
    forall k | x <= k < x + Len(f, x)
      ensures t[k] == f.text[k]
    {
      if i :| 0 <= i < |js| && js[i].patch.site <= k < js[i].patch.site + JMP {
        assert Patches(js)[i] == js[i].patch;
        GoodPatchRange(f, js[i].patch);
        SiteCode(f, js[i].patch);
        assert !(js[i].patch.site <= x);
        CodeOrder(f, x, js[i].patch.site);
        assert false;
      }
    }
  }

  lemma SiteCode(f: Func, p: Patch)
    requires Valid(f) && InCode(f, p) && p.site < p.resume
    ensures Code(f, p.site)
  {
    hide Code;
  }
}
