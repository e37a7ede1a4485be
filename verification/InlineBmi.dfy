/** emit_lowering: which decoded instructions are lowered inline, to what, and why that is right. */
module InlineBmi {
  import opened Decoded
  import opened BmiExec
  import opened ScalarMachine
  import opened Lowering
  import ShlxLowering

  predicate GprOk(r: int) { 0 <= r <= 15 && r != RSP }

  predicate Lowerable(d: Insn) {
    && d.isBmi && d.dstKind.DstGpr?
    && (d.opsize == 32 || d.opsize == 64)
    && d.bmiDst2 == OPND_NONE
    && GprOk(d.dst) && GprOk(d.aSrc)
    && match d.op
       case BMI_TZCNT | BMI_LZCNT => true
       case BMI_ANDN | BMI_SHLX => GprOk(d.bSrc)
       case _ => false
  }

  // ---------------------------------------------------------- scratch choice

  predicate Avoided(r: int, a0: int, a1: int, a2: int) {
    r == RSP || r == a0 || r == a1 || r == a2
  }

  /** The lowest register at or above r that need not be avoided, or 16. */
  function Free(r: nat, a0: int, a1: int, a2: int): (f: nat)
    requires r <= 16
    ensures r <= f <= 16
    ensures f < 16 ==> !Avoided(f, a0, a1, a2)
    ensures forall q :: r <= q < f ==> Avoided(q, a0, a1, a2)
    decreases 16 - r
  {
    if r == 16 || !Avoided(r, a0, a1, a2) then r else Free(r + 1, a0, a1, a2)
  }

  lemma FreeWithin(r: nat, a0: int, a1: int, a2: int)
    requires r <= 5
    ensures Free(r, a0, a1, a2) <= r + 4
  {
    assert !Avoided(r, a0, a1, a2) || !Avoided(r + 1, a0, a1, a2) || !Avoided(r + 2, a0, a1, a2)
      || !Avoided(r + 3, a0, a1, a2) || !Avoided(r + 4, a0, a1, a2);
  }

  /** The two lowest registers that need not be avoided always exist. */
  function Scratch(a0: int, a1: int, a2: int): (t: (Gpr, Gpr))
    ensures t.0 < t.1
    ensures !Avoided(t.0, a0, a1, a2) && !Avoided(t.1, a0, a1, a2)
    ensures forall q :: 0 <= q < t.1 && q != t.0 ==> Avoided(q, a0, a1, a2)
  {
    FreeWithin(0, a0, a1, a2);
    var t1 := Free(0, a0, a1, a2);
    FreeWithin(t1 + 1, a0, a1, a2);
    (t1, Free(t1 + 1, a0, a1, a2))
  }

  /** pick_scratch's loop; it never fails, because at most four of sixteen are avoided. */
  method PickScratch(a0: int, a1: int, a2: int) returns (ok: bool, t1: Gpr, t2: Gpr)
    ensures ok
    ensures (t1, t2) == Scratch(a0, a1, a2)
  {
    t1, t2 := 0, 0;
    var k, r := 0, 0;
    ghost var want := Scratch(a0, a1, a2);
    while r < 16 && k < 2
      invariant 0 <= r <= 16 && 0 <= k <= 2
      invariant k == 0 ==> r <= want.0
      invariant k == 1 ==> t1 == want.0 && want.0 < r <= want.1
      invariant k == 2 ==> t1 == want.0 && t2 == want.1
    {
      if !(r == RSP || r == a0 || r == a1 || r == a2) {
        if k == 0 { t1 := r; } else { t2 := r; }
        k := k + 1;
      }
      r := r + 1;
    }
    ok := k == 2;
  }

  // ------------------------------------------------------------ the emitter

  function Lowered(d: Insn): seq<Instr>
    requires Lowerable(d)
  {
    var w := WidthOf(d);
    match d.op
    case BMI_TZCNT =>
      var t := Scratch(d.dst, d.aSrc, -1);
      Open(t.0, t.1) + (TzcntValue(w, d.dst, d.aSrc, t.0, t.1)
                        + (CountFlags(w, d.dst, t.0, t.1) + Close(t.0, t.1)))
    case BMI_LZCNT =>
      var t := Scratch(d.dst, d.aSrc, -1);
      Open(t.0, t.1) + (LzcntValue(w, d.dst, d.aSrc, t.0, t.1)
                        + (CountFlags(w, d.dst, t.0, t.1) + Close(t.0, t.1)))
    case BMI_ANDN =>
      var t := Scratch(d.dst, d.aSrc, d.bSrc);
      Open(t.0, t.1) + (AndnValue(w, d.dst, d.aSrc, d.bSrc, t.0)
                        + (AndnFlags(w, d.dst, t.0, t.1) + Close(t.0, t.1)))
    case BMI_SHLX =>
      ShlxLowering.Save(d.aSrc, d.bSrc) + ShlxLowering.ShiftAndRestore(w, d.dst)
  }

  /** What a value stage and a flag stage must achieve between Open and Close. */
  ghost predicate Computes(c: Cpu, r: Cpu, d: Gpr, t1: Gpr, t2: Gpr, x: Outcome) {
    && SameExcept(c.regs, r.regs, d, t1, t2)
    && r.regs[d] == x.dst
    && BitOr(BitAnd(c.flags, CLR), r.regs[t1]) == x.flags
  }

  /** Saving, computing and restoring leaves exactly the computed register and flags. */
  lemma Bracketed(c: Cpu, d: Gpr, t1: Gpr, t2: Gpr, v: seq<Instr>, f: seq<Instr>, x: Outcome, o: Oracle)
    requires c.rsp == 0 && !c.fault && t1 != t2 && t1 != d && t2 != d
    requires var c1 := Run(Open(t1, t2), c, o);
      var c3 := Run(f, Run(v, c1, o), o);
      Computes(c, c3, d, t1, t2, x) && SameMemory(c1, c3)
    ensures var r := Run(Open(t1, t2) + (v + (f + Close(t1, t2))), c, o);
      && r.regs == c.regs[d := x.dst] && r.flags == x.flags
      && r.rsp == 0 && Above(c, r)
  {
    hide Run, Next, BitOr, BitAnd;
    RunAppend(Open(t1, t2), v + (f + Close(t1, t2)), c, o);
    OpenSaves(c, t1, t2, o);
    var c1 := Run(Open(t1, t2), c, o);
    RunAppend(v, f + Close(t1, t2), c1, o);
    var c2 := Run(v, c1, o);
    RunAppend(f, Close(t1, t2), c2, o);
    CloseRestores(c, Run(f, c2, o), t1, t2, c.flags, o);
  }

  lemma TzcntCorrect(c: Cpu, w: Width, d: Gpr, s: Gpr, t1: Gpr, t2: Gpr, s2: Word, o: Oracle)
    requires c.rsp == 0 && !c.fault
    requires t1 != t2 && t1 != d && t2 != d && t1 != s && t2 != s
    ensures var r := Run(Open(t1, t2) + (TzcntValue(w, d, s, t1, t2)
                         + (CountFlags(w, d, t1, t2) + Close(t1, t2))), c, o);
      var x := Exec(BMI_TZCNT, w, c.regs[s], s2, c.flags);
      r.regs == c.regs[d := x.dst] && r.flags == x.flags && r.rsp == 0 && Above(c, r)
  {
    hide Run, Next, MaskZ, SetFlags, Count, LowestBit, BitOr, BitAnd, OwnedBits, Flag, Exec;
    var z := MaskZ(c.regs[s], w).v == 0;
    OpenSaves(c, t1, t2, o);
    var c1 := Run(Open(t1, t2), c, o);
    TzcntValueCorrect(c1, w, d, s, t1, t2, o);
    var c2 := Run(TzcntValue(w, d, s, t1, t2), c1, o);
    CountFlagsCorrect(c2, w, d, t1, t2, z, o);
    CountOutcome(BMI_TZCNT, w, c.regs[s], s2, c.flags);
    PatchImage(c.flags, z, MaskZ(c2.regs[d], w).v == 0, false);
    Bracketed(c, d, t1, t2, TzcntValue(w, d, s, t1, t2), CountFlags(w, d, t1, t2),
              Exec(BMI_TZCNT, w, c.regs[s], s2, c.flags), o);
  }

  lemma LzcntCorrect(c: Cpu, w: Width, d: Gpr, s: Gpr, t1: Gpr, t2: Gpr, s2: Word, o: Oracle)
    requires c.rsp == 0 && !c.fault
    requires t1 != t2 && t1 != d && t2 != d && t1 != s && t2 != s
    ensures var r := Run(Open(t1, t2) + (LzcntValue(w, d, s, t1, t2)
                         + (CountFlags(w, d, t1, t2) + Close(t1, t2))), c, o);
      var x := Exec(BMI_LZCNT, w, c.regs[s], s2, c.flags);
      r.regs == c.regs[d := x.dst] && r.flags == x.flags && r.rsp == 0 && Above(c, r)
  {
    hide Run, Next, MaskZ, SetFlags, Count, HighestBit, BitOr, BitAnd, OwnedBits, Flag, Exec;
    var z := MaskZ(c.regs[s], w).v == 0;
    OpenSaves(c, t1, t2, o);
    var c1 := Run(Open(t1, t2), c, o);
    LzcntValueCorrect(c1, w, d, s, t1, t2, o);
    var c2 := Run(LzcntValue(w, d, s, t1, t2), c1, o);
    CountFlagsCorrect(c2, w, d, t1, t2, z, o);
    CountOutcome(BMI_LZCNT, w, c.regs[s], s2, c.flags);
    PatchImage(c.flags, z, MaskZ(c2.regs[d], w).v == 0, false);
    Bracketed(c, d, t1, t2, LzcntValue(w, d, s, t1, t2), CountFlags(w, d, t1, t2),
              Exec(BMI_LZCNT, w, c.regs[s], s2, c.flags), o);
  }

  lemma AndnCorrect(c: Cpu, w: Width, d: Gpr, s1: Gpr, s2: Gpr, t1: Gpr, t2: Gpr, o: Oracle)
    requires c.rsp == 0 && !c.fault
    requires t1 != t2 && t1 != d && t2 != d && t1 != s1 && t1 != s2 && t2 != s1 && t2 != s2
    ensures var r := Run(Open(t1, t2) + (AndnValue(w, d, s1, s2, t1)
                         + (AndnFlags(w, d, t1, t2) + Close(t1, t2))), c, o);
      var x := Exec(BMI_ANDN, w, c.regs[s1], c.regs[s2], c.flags);
      r.regs == c.regs[d := x.dst] && r.flags == x.flags && r.rsp == 0 && Above(c, r)
  {
    hide Run, Next, MaskZ, SetFlags, SignBit, BitOr, BitAnd, OwnedBits, AndnResult, Exec;
    var a := AndnResult(c.regs[s1], c.regs[s2], w);
    OpenSaves(c, t1, t2, o);
    var c1 := Run(Open(t1, t2), c, o);
    AndnValueCorrect(c1, w, d, s1, s2, t1, o);
    var c2 := Run(AndnValue(w, d, s1, s2, t1), c1, o);
    AndnFlagsCorrect(c2, w, d, t1, t2, o);
    AndnOutcome(w, c.regs[s1], c.regs[s2], c.flags);
    PatchImage(c.flags, false, a.v == 0, SignBit(a, w));
    Bracketed(c, d, t1, t2, AndnValue(w, d, s1, s2, t1), AndnFlags(w, d, t1, t2),
              Exec(BMI_ANDN, w, c.regs[s1], c.regs[s2], c.flags), o);
  }

  lemma AndnOutcome(w: Width, s1: Word, s2: Word, flags: Word)
    ensures var a := AndnResult(s1, s2, w);
      && MaskZ(a, w) == a
      && Exec(BMI_ANDN, w, s1, s2, flags) == Outcome(a, SetFlags(flags, false, a.v == 0, SignBit(a, w), false))
  {
    hide MaskZ, SetFlags, SignBit;
    MaskTwice(W(!MaskZ(s1, w).v & MaskZ(s2, w).v), w);
  }

  /**
   * Every inline lowering, for every aliasing of its operands and both widths: the
   * emulator's registers and flags, rsp back where it was, and no memory changed except
   * in the 32 bytes just below the red zone.
   */
  lemma LoweringCorrect(d: Insn, c: Cpu, o: Oracle)
    requires Lowerable(d) && c.rsp == 0 && !c.fault
    ensures var r := Run(Lowered(d), c, o);
      var e := Emulate(d, Scalars(c.regs, c.flags));
      r.regs == e.gpr && r.flags == e.flags && r.rsp == 0 && Above(c, r)
  {
    hide Run, Exec, Open, Close, TzcntValue, LzcntValue, CountFlags, AndnValue, AndnFlags;
    var w := WidthOf(d);
    var s2 := if 0 <= d.bSrc < 16 then c.regs[d.bSrc] else W(0);
    match d.op
    case BMI_TZCNT =>
      var t := Scratch(d.dst, d.aSrc, -1);
      TzcntCorrect(c, w, d.dst, d.aSrc, t.0, t.1, s2, o);
    case BMI_LZCNT =>
      var t := Scratch(d.dst, d.aSrc, -1);
      LzcntCorrect(c, w, d.dst, d.aSrc, t.0, t.1, s2, o);
    case BMI_ANDN =>
      var t := Scratch(d.dst, d.aSrc, d.bSrc);
      AndnCorrect(c, w, d.dst, d.aSrc, d.bSrc, t.0, t.1, o);
    case BMI_SHLX =>
      ShlxLowering.Correct(c, w, d.dst, d.aSrc, d.bSrc, o);
      ShlxOutcome(w, c.regs[d.aSrc], s2, c.flags);
  }

  lemma ShlxOutcome(w: Width, a: Word, b: Word, flags: Word)
    ensures Exec(BMI_SHLX, w, a, b, flags) == Outcome(ShlxLowering.Shifted(w, a, b), flags)
  {
    hide MaskZ, ShiftLeft, ShiftCount;
  }
}
