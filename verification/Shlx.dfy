/** The SHLX lowering: shift through the stack by CL, so that no flag is disturbed. */
module ShlxLowering {
  import opened BmiExec
  import opened ScalarMachine
  import opened Lowering

  function Save(v: Gpr, n: Gpr): seq<Instr> {
    [LeaRsp(-128), Pushfq, Push(RCX)] + [Push(v), Push(n), Pop(RCX)]
  }

  function ShiftAndRestore(w: Width, d: Gpr): seq<Instr> {
    [ShlRspCl(w), Pop(d), if d != RCX then Pop(RCX) else LeaRsp(8)]
    + ((if w.W32? then [MovRR(W32, d, d)] else []) + [Popfq, LeaRsp(128)])
  }

  /** Flags, rcx and the value to shift are on the stack, and rcx holds the count. */
  ghost predicate Staged(c0: Cpu, c: Cpu, v: Word, n: Word) {
    && c.rsp == -152
    && c.stack(-136) == c0.flags && c.stack(-144) == c0.regs[RCX] && c.stack(-152) == v
    && c.regs == c0.regs[RCX := n]
    && Above(c0, c)
  }

  lemma SaveStages(c: Cpu, v: Gpr, n: Gpr, o: Oracle)
    requires c.rsp == 0 && !c.fault
    ensures Staged(c, Run(Save(v, n), c, o), c.regs[v], c.regs[n])
  {
    var p := [LeaRsp(-128), Pushfq, Push(RCX)];
    RunAppend(p, [Push(v), Push(n), Pop(RCX)], c, o);
    SaveFlags(c, o);
    PushOperands(c, Run(p, c, o), v, n, o);
  }

  lemma SaveFlags(c: Cpu, o: Oracle)
    requires c.rsp == 0 && !c.fault
    ensures var r := Run([LeaRsp(-128), Pushfq, Push(RCX)], c, o);
      && r.rsp == -144 && r.regs == c.regs
      && r.stack(-136) == c.flags && r.stack(-144) == c.regs[RCX]
      && Above(c, r)
  {
    Run3(LeaRsp(-128), Pushfq, Push(RCX), c, o);
  }

  lemma PushOperands(c0: Cpu, c: Cpu, v: Gpr, n: Gpr, o: Oracle)
    requires c.rsp == -144 && c.regs == c0.regs && Above(c0, c)
    requires c.stack(-136) == c0.flags && c.stack(-144) == c0.regs[RCX]
    ensures Staged(c0, Run([Push(v), Push(n), Pop(RCX)], c, o), c0.regs[v], c0.regs[n])
  {
    Run3(Push(v), Push(n), Pop(RCX), c, o);
  }

  function Shifted(w: Width, v: Word, n: Word): Word {
    MaskZ(ShiftLeft(MaskZ(v, w), ShiftCount(MaskZ(n, w), w)), w)
  }

  lemma CountIgnoresHighHalf(n: Word, w: Width)
    ensures ShiftCount(MaskZ(n, w), w) == ShiftCount(n, w)
  {}

  lemma LowHalfKept(v: Word, x: Word)
    ensures MaskZ(WithLowHalf(v, x), W32) == MaskZ(x, W32)
  {}

  /** The low half of the shifted cell is the shifted value. */
  lemma CellHoldsShift(w: Width, v: Word, n: Word)
    ensures MaskZ(ShiftCell(w, v, n), w) == Shifted(w, v, n)
  {
    hide MaskZ, WithLowHalf, ShiftLeft, ShiftCount;
    var x := ShiftLeft(MaskZ(v, w), ShiftCount(n, w));
    CountIgnoresHighHalf(n, w);
    MaskTwice(x, w);
    LowHalfKept(v, MaskZ(x, w));
  }

  /** After the shift and the pops: D holds the cell, rcx is back unless it is D. */
  lemma ShiftPops(c0: Cpu, c: Cpu, w: Width, d: Gpr, v: Word, n: Word, o: Oracle)
    requires Staged(c0, c, v, n)
    ensures var r := Run([ShlRspCl(w), Pop(d), if d != RCX then Pop(RCX) else LeaRsp(8)], c, o);
      && r.rsp == -136 && r.stack(-136) == c0.flags
      && r.regs == c0.regs[d := ShiftCell(w, v, n)]
      && Above(c0, r)
  {
    hide ShiftCell;
    Run3(ShlRspCl(w), Pop(d), if d != RCX then Pop(RCX) else LeaRsp(8), c, o);
  }

  lemma Finish(c0: Cpu, c: Cpu, w: Width, d: Gpr, x: Word, o: Oracle)
    requires c.rsp == -136 && c.stack(-136) == c0.flags && c.regs == c0.regs[d := x] && Above(c0, c)
    ensures var r := Run((if w.W32? then [MovRR(W32, d, d)] else []) + [Popfq, LeaRsp(128)], c, o);
      && r.rsp == 0 && r.flags == c0.flags
      && r.regs == c0.regs[d := MaskZ(x, w)]
      && Above(c0, r)
  {
    if w.W32? {
      assert [MovRR(W32, d, d)] + [Popfq, LeaRsp(128)] == [MovRR(W32, d, d), Popfq, LeaRsp(128)];
      Run3(MovRR(W32, d, d), Popfq, LeaRsp(128), c, o);
    } else {
      assert [] + [Popfq, LeaRsp(128)] == [Popfq, LeaRsp(128)];
      Run2(Popfq, LeaRsp(128), c, o);
    }
  }

  lemma Correct(c: Cpu, w: Width, d: Gpr, v: Gpr, n: Gpr, o: Oracle)
    requires c.rsp == 0 && !c.fault
    ensures var r := Run(Save(v, n) + ShiftAndRestore(w, d), c, o);
      && r.regs == c.regs[d := Shifted(w, c.regs[v], c.regs[n])]
      && r.flags == c.flags && r.rsp == 0
      && Above(c, r)
  {
    hide Run, Next, MaskZ, ShiftCell, Shifted;
    var a, b := c.regs[v], c.regs[n];
    RunAppend(Save(v, n), ShiftAndRestore(w, d), c, o);
    SaveStages(c, v, n, o);
    var c1 := Run(Save(v, n), c, o);
    var p := [ShlRspCl(w), Pop(d), if d != RCX then Pop(RCX) else LeaRsp(8)];
    RunAppend(p, (if w.W32? then [MovRR(W32, d, d)] else []) + [Popfq, LeaRsp(128)], c1, o);
    ShiftPops(c, c1, w, d, a, b, o);
    Finish(c, Run(p, c1, o), w, d, ShiftCell(w, a, b), o);
    CellHoldsShift(w, a, b);
  }
}
