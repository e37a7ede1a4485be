/**
 * avxemu_emit_native_block: a run of vector instructions compiled to straight-line SSE over
 * the in-memory register file, and its equivalence with emulating the run.
 */
module NativeBlock {
  import opened Decoded
  import opened VecExec
  import opened PackedLanes
  import opened SseMachine

  // register roles
  const A_LO: Xmm := 0
  const A_HI: Xmm := 1
  const B_LO: Xmm := 2
  const B_HI: Xmm := 3
  const TMP: Xmm := 4
  const CACHE: Xmm := 6
  const NX_ZERO: Xmm := 15

  predicate Supported(d: Insn) {
    && Modelled(d.op)
    && d.seg == 0
    && d.dstKind.DstYmm?
    && 0 <= d.dst <= 15
    && (BinaryOp(d.op) ==> 0 <= d.aSrc <= 15)
    && if d.bSrc == OPND_MEM then OperandOk(d) else 0 <= d.bSrc <= 15
  }

  /** What the decoder guarantees of a supported memory form. */
  predicate FromDecoder(d: Insn) {
    && OperandOk(d)
    && (d.bSrc == OPND_MEM ==>
          d.memBytes == MemSize(d.op, d.wide)
          && (d.scale == 1 || d.scale == 2 || d.scale == 4 || d.scale == 8))
  }

  // ------------------------------------------------------- effective address

  function ScaleShift(scale: nat): nat {
    if scale == 8 then 3 else if scale == 4 then 2 else if scale == 2 then 1 else 0
  }

  function AddIndex(d: Insn): seq<Instr> {
    [MovRcxRf(RF_GPR_OFF + d.index * 8)]
    + ((if ScaleShift(d.scale) > 0 then [ShlRcx(ScaleShift(d.scale))] else []) + [AddRaxRcx])
  }

  function EmitEa(d: Insn, addr: Address): seq<Instr> {
    [MovabsRax(Wrap(d.disp + if d.ripRel then Wrap(addr + d.len) else 0))]
    + ((if d.base != OPND_NONE then [AddRaxRf(RF_GPR_OFF + d.base * 8)] else [])
       + (if d.index != OPND_NONE then AddIndex(d) else []))
  }

  lemma WrapAdd(a: int, b: int)
    ensures Wrap(Wrap(a) + b) == Wrap(a + b)
  {}

  lemma WrapDouble(a: int)
    ensures Wrap(Wrap(a) * 2) == Wrap(a * 2)
  {}

  lemma ShiftIsScale(v: Address, scale: nat)
    requires scale == 1 || scale == 2 || scale == 4 || scale == 8
    ensures ShiftLeft(v, ScaleShift(scale)) == Wrap(v * scale)
  {
    WrapDouble(v * 2);
    WrapDouble(v * 4);
  }

  /** Only rax and rcx may differ. */
  ghost predicate AddressOnly(c0: Cpu, c: Cpu) { c.xmm == c0.xmm && c.rf == c0.rf }

  lemma RunNone(c: Cpu, m: Mem)
    ensures Run([], c, m) == c
  {}

  lemma ScaledIndex(c: Cpu, disp: int, k: nat, m: Mem)
    ensures var r := Run([MovRcxRf(disp)] + ((if k > 0 then [ShlRcx(k)] else []) + [AddRaxRcx]), c, m);
      r.rax == Wrap(c.rax + ShiftLeft(LoadGpr(c.rf, disp), k)) && AddressOnly(c, r)
  {
    hide Wrap, LoadGpr;
    if k > 0 {
      assert [MovRcxRf(disp)] + ([ShlRcx(k)] + [AddRaxRcx]) == [MovRcxRf(disp), ShlRcx(k), AddRaxRcx];
      Run3(MovRcxRf(disp), ShlRcx(k), AddRaxRcx, c, m);
    } else {
      assert [MovRcxRf(disp)] + ([] + [AddRaxRcx]) == [MovRcxRf(disp), AddRaxRcx];
      Run2(MovRcxRf(disp), AddRaxRcx, c, m);
    }
  }

  lemma IndexAdded(d: Insn, c: Cpu, m: Mem)
    requires 0 <= d.index <= 15
    requires d.scale == 1 || d.scale == 2 || d.scale == 4 || d.scale == 8
    ensures var r := Run(AddIndex(d), c, m);
      r.rax == Wrap(c.rax + c.rf.gpr[d.index] * d.scale) && AddressOnly(c, r)
  {
    hide Wrap, Run, ShiftLeft, ScaleShift;
    ShiftIsScale(c.rf.gpr[d.index], d.scale);
    WrapAdd(c.rf.gpr[d.index] * d.scale, c.rax);
    ScaledIndex(c, RF_GPR_OFF + d.index * 8, ScaleShift(d.scale), m);
  }

  lemma BaseAdded(d: Insn, c: Cpu, m: Mem)
    requires OperandOk(d)
    ensures var r := Run(if d.base != OPND_NONE then [AddRaxRf(RF_GPR_OFF + d.base * 8)] else [], c, m);
      && r.rax == (if d.base != OPND_NONE then Wrap(c.rax + c.rf.gpr[d.base]) else c.rax)
      && AddressOnly(c, r)
  {
    if d.base != OPND_NONE {
      Run1(AddRaxRf(RF_GPR_OFF + d.base * 8), c, m);
    }
  }

  /** The emitted address computation is the emulator's, for every addressing form. */
  lemma EaCorrect(d: Insn, addr: Address, c: Cpu, m: Mem)
    requires FromDecoder(d) && d.bSrc == OPND_MEM
    ensures var r := Run(EmitEa(d, addr), c, m);
      r.rax == EffectiveAddress(d, c.rf, Wrap(addr + d.len)) && AddressOnly(c, r)
  {
    hide Run, Wrap;
    var k := MovabsRax(Wrap(d.disp + if d.ripRel then Wrap(addr + d.len) else 0));
    var p := if d.base != OPND_NONE then [AddRaxRf(RF_GPR_OFF + d.base * 8)] else [];
    var q := if d.index != OPND_NONE then AddIndex(d) else [];
    RunAppend([k], p + q, c, m);
    Run1(k, c, m);
    var c1 := Run([k], c, m);
    RunAppend(p, q, c1, m);
    BaseAdded(d, c1, m);
    WrapAdd(d.disp, Wrap(addr + d.len));
    if d.index != OPND_NONE {
      IndexAdded(d, Run(p, c1, m), m);
    } else {
      RunNone(Run(p, c1, m), m);
    }
  }

  // ---------------------------------------------------------- one instruction

  /** NX_ZERO is zero, and CACHE is the low half of the previous destination. */
  ghost predicate Inv(c: Cpu, prev: int) {
    && -1 <= prev <= 15
    && c.xmm[NX_ZERO] == ZERO
    && (prev != -1 ==> c.xmm[CACHE] == c.rf.ymm[prev].lo)
  }

  function LoadSlot(slot: int, lo: Xmm, hi: Xmm, wide: bool, prev: int): seq<Instr> {
    [if slot == prev then Movdqa(lo, CACHE) else MovdquLoadRf(lo, slot * 32)]
    + (if wide then [MovdquLoadRf(hi, slot * 32 + 16)] else [])
  }

  function LoadB(d: Insn, prev: int): seq<Instr> {
    if d.bSrc == OPND_MEM
    then [MovdquLoad(B_LO, 0)] + (if d.wide then [MovdquLoad(B_HI, 16)] else [])
    else LoadSlot(d.bSrc, B_LO, B_HI, d.wide, prev)
  }

  function Combine(op: VexOp, wide: bool): seq<Instr> {
    [Packed(op, A_LO, B_LO)] + (if wide then [Packed(op, A_HI, B_HI)] else [])
  }

  function BroadcastTail(wide: bool): seq<Instr> {
    [Pshufd0(A_LO, A_LO)] + (if wide then [Movdqa(A_HI, A_LO)] else [])
  }

  function EmitValue(d: Insn, prev: int): seq<Instr> {
    var mem := d.bSrc == OPND_MEM;
    match d.op
    case VPBROADCASTD =>
      [if mem then MovdLoad(A_LO) else MovdLoadRf(A_LO, d.bSrc * 32)] + BroadcastTail(d.wide)
    case VPBROADCASTW =>
      [if mem then PinsrwLoad(A_LO) else MovdLoadRf(A_LO, d.bSrc * 32), Pshuflw0(A_LO, A_LO)]
      + BroadcastTail(d.wide)
    case VPMOVZXBW =>
      if mem then
        [PmovzxLoad(A_LO, 0)] + (if d.wide then [PmovzxLoad(A_HI, 8)] else [])
      else
        LoadSlot(d.bSrc, B_LO, B_HI, false, prev)
        + ([Pmovzx(A_LO, B_LO)]
           + (if d.wide then [Movdqa(TMP, B_LO), Psrldq8(TMP), Pmovzx(A_HI, TMP)] else []))
    case _ =>
      LoadSlot(d.aSrc, A_LO, A_HI, d.wide, prev) + (LoadB(d, prev) + Combine(d.op, d.wide))
  }

  function StoreDst(dst: int, wide: bool): seq<Instr> {
    [MovdquStoreRf(A_LO, dst * 32),
     MovdquStoreRf(if wide then A_HI else NX_ZERO, dst * 32 + 16),
     Movdqa(CACHE, A_LO)]
  }

  function EmitOne(d: Insn, addr: Address, prev: int): seq<Instr> {
    (if d.bSrc == OPND_MEM then EmitEa(d, addr) else [])
    + (EmitValue(d, prev) + StoreDst(d.dst, d.wide))
  }

  /** The computed vector is in A; only the working registers have changed. */
  ghost predicate Holds(c0: Cpu, c: Cpu, x: Vec, wide: bool) {
    && c.xmm[A_LO] == x.lo
    && (wide ==> c.xmm[A_HI] == x.hi)
    && WorkOnly(c0, c)
  }

  ghost predicate WorkOnly(c0: Cpu, c: Cpu) {
    && c.rf == c0.rf && c.rax == c0.rax
    && c.xmm[NX_ZERO] == c0.xmm[NX_ZERO]
    && c.xmm[CACHE] == c0.xmm[CACHE]
  }

  lemma HalfStep(x: Xmm, slot: int, hi: bool, c: Cpu, m: Mem)
    requires 0 <= slot <= 15
    ensures Run([MovdquLoadRf(x, slot * 32 + if hi then 16 else 0)], c, m)
         == Set(c, x, if hi then c.rf.ymm[slot].hi else c.rf.ymm[slot].lo)
  {
    hide Run;
    Run1(MovdquLoadRf(x, slot * 32 + if hi then 16 else 0), c, m);
  }

  /** Loads either from the register file or, for the previous destination, from the cache. */
  lemma LowLoaded(slot: int, lo: Xmm, prev: int, c: Cpu, m: Mem)
    requires 0 <= slot <= 15 && Inv(c, prev)
    ensures Run([if slot == prev then Movdqa(lo, CACHE) else MovdquLoadRf(lo, slot * 32)], c, m)
         == Set(c, lo, c.rf.ymm[slot].lo)
  {
    hide Run;
    if slot == prev {
      Run1(Movdqa(lo, CACHE), c, m);
    } else {
      HalfStep(lo, slot, false, c, m);
    }
  }

  lemma SlotLoaded(slot: int, lo: Xmm, hi: Xmm, wide: bool, prev: int, c: Cpu, m: Mem)
    requires 0 <= slot <= 15 && Inv(c, prev) && lo != hi
    ensures var r := Run(LoadSlot(slot, lo, hi, wide, prev), c, m);
      && r.xmm == (if wide then c.xmm[lo := c.rf.ymm[slot].lo][hi := c.rf.ymm[slot].hi]
                   else c.xmm[lo := c.rf.ymm[slot].lo])
      && r.rf == c.rf && r.rax == c.rax
  {
    hide Run, Step;
    var p := [if slot == prev then Movdqa(lo, CACHE) else MovdquLoadRf(lo, slot * 32)];
    RunAppend(p, if wide then [MovdquLoadRf(hi, slot * 32 + 16)] else [], c, m);
    LowLoaded(slot, lo, prev, c, m);
    if wide {
      HalfStep(hi, slot, true, Run(p, c, m), m);
    } else {
      RunNone(Run(p, c, m), m);
    }
  }

  /** The memory operand as the emulator reads it. */
  lemma HalvesOfMemory(m: Mem, a: Address, n: nat)
    ensures n >= 16 ==> MemVec(m, a, n).lo == MemHalf(m, a)
    ensures n >= 32 ==> MemVec(m, a, n).hi == MemHalf(m, a + 16)
    ensures forall i :: 0 <= i < 16 && i < n ==> MemVec(m, a, n).lo[i] == MemHalf(m, a)[i]
  {}

  lemma BLoaded(d: Insn, addr: Address, prev: int, c: Cpu, m: Mem)
    requires Supported(d) && FromDecoder(d) && BinaryOp(d.op) && Inv(c, prev)
    requires d.bSrc == OPND_MEM ==> c.rax == EffectiveAddress(d, c.rf, Wrap(addr + d.len))
    ensures var r := Run(LoadB(d, prev), c, m);
      var b := SourceB(d, addr, c.rf, m);
      && r.xmm == (if d.wide then c.xmm[B_LO := b.lo][B_HI := b.hi] else c.xmm[B_LO := b.lo])
      && r.rf == c.rf && r.rax == c.rax
  {
    hide EffectiveAddress, Wrap, MemVec, MemHalf;
    if d.bSrc == OPND_MEM {
      HalvesOfMemory(m, c.rax, d.memBytes);
      if d.wide {
        assert LoadB(d, prev) == [MovdquLoad(B_LO, 0), MovdquLoad(B_HI, 16)];
        Run2(MovdquLoad(B_LO, 0), MovdquLoad(B_HI, 16), c, m);
      } else {
        assert LoadB(d, prev) == [MovdquLoad(B_LO, 0)];
        Run1(MovdquLoad(B_LO, 0), c, m);
      }
    } else {
      SlotLoaded(d.bSrc, B_LO, B_HI, d.wide, prev, c, m);
    }
  }

  lemma LanesAreResult(op: VexOp, a: Vec, b: Vec)
    requires BinaryOp(op)
    ensures Result(op, a, b) == Vec(Lanes(op, a.lo, b.lo), Lanes(op, a.hi, b.hi))
  {
    hide Lane, PackedByte;
    var r := Result(op, a, b);
    forall x, y
      ensures PackedByte(op, x, y) == Lane(op, x, y)
    {
      PackedIsLane(op, x, y);
    }
    assert r.lo == Lanes(op, a.lo, b.lo);
    assert r.hi == Lanes(op, a.hi, b.hi);
  }

  lemma Combined(op: VexOp, wide: bool, c: Cpu, m: Mem)
    ensures var r := Run(Combine(op, wide), c, m);
      && r.xmm[A_LO] == Lanes(op, c.xmm[A_LO], c.xmm[B_LO])
      && (wide ==> r.xmm[A_HI] == Lanes(op, c.xmm[A_HI], c.xmm[B_HI]))
      && WorkOnly(c, r)
  {
    hide Lanes;
    if wide {
      assert Combine(op, wide) == [Packed(op, A_LO, B_LO), Packed(op, A_HI, B_HI)];
      Run2(Packed(op, A_LO, B_LO), Packed(op, A_HI, B_HI), c, m);
    } else {
      assert Combine(op, wide) == [Packed(op, A_LO, B_LO)];
      Run1(Packed(op, A_LO, B_LO), c, m);
    }
  }

  lemma BinaryCorrect(d: Insn, addr: Address, prev: int, c: Cpu, m: Mem)
    requires Supported(d) && FromDecoder(d) && BinaryOp(d.op) && Inv(c, prev)
    requires d.bSrc == OPND_MEM ==> c.rax == EffectiveAddress(d, c.rf, Wrap(addr + d.len))
    ensures Holds(c, Run(EmitValue(d, prev), c, m),
                  Result(d.op, c.rf.ymm[d.aSrc], SourceB(d, addr, c.rf, m)), d.wide)
  {
    hide Run, Step, LoadSlot, LoadB, Combine, SourceB, Result, Lanes, EffectiveAddress, Wrap;
    var p := LoadSlot(d.aSrc, A_LO, A_HI, d.wide, prev);
    RunAppend(p, LoadB(d, prev) + Combine(d.op, d.wide), c, m);
    SlotLoaded(d.aSrc, A_LO, A_HI, d.wide, prev, c, m);
    var c1 := Run(p, c, m);
    RunAppend(LoadB(d, prev), Combine(d.op, d.wide), c1, m);
    BLoaded(d, addr, prev, c1, m);
    Combined(d.op, d.wide, Run(LoadB(d, prev), c1, m), m);
    LanesAreResult(d.op, c.rf.ymm[d.aSrc], SourceB(d, addr, c.rf, m));
  }

  // ------------------------------------------------------------- broadcasts

  lemma TailCopies(wide: bool, c: Cpu, m: Mem)
    ensures var r := Run(BroadcastTail(wide), c, m);
      var x := Spread4(c.xmm[A_LO]);
      Holds(c, r, Vec(x, x), wide)
  {
    hide Spread4;
    if wide {
      assert BroadcastTail(wide) == [Pshufd0(A_LO, A_LO), Movdqa(A_HI, A_LO)];
      Run2(Pshufd0(A_LO, A_LO), Movdqa(A_HI, A_LO), c, m);
    } else {
      assert BroadcastTail(wide) == [Pshufd0(A_LO, A_LO)];
      Run1(Pshufd0(A_LO, A_LO), c, m);
    }
  }

  lemma DwordSpread(h: Half, a: Vec, b: Vec)
    requires forall i :: 0 <= i < 4 ==> h[i] == b.lo[i]
    ensures var x := Spread4(LowDword(h));
      Result(VPBROADCASTD, a, b) == Vec(x, x)
  {
    var x, r := Spread4(LowDword(h)), Result(VPBROADCASTD, a, b);
    forall i | 0 <= i < 16
      ensures r.lo[i] == x[i] && r.hi[i] == x[i]
    {
      assert x[i] == LowDword(h)[i % 4];
    }
    assert r.lo == x && r.hi == x;
  }

  lemma WordSpread(x: Half, a: Vec, b: Vec)
    requires x[0] == b.lo[0] && x[1] == b.lo[1]
    ensures var y := Spread4(SpreadLow2(x));
      Result(VPBROADCASTW, a, b) == Vec(y, y)
  {
    var y, r := Spread4(SpreadLow2(x)), Result(VPBROADCASTW, a, b);
    forall i | 0 <= i < 16
      ensures r.lo[i] == y[i] && r.hi[i] == y[i]
    {
      assert y[i] == SpreadLow2(x)[i % 4];
      assert (i % 4) % 2 == i % 2;
    }
    assert r.lo == y && r.hi == y;
  }

  lemma DwordCorrect(d: Insn, addr: Address, a: Vec, prev: int, c: Cpu, m: Mem)
    requires Supported(d) && FromDecoder(d) && d.op == VPBROADCASTD
    requires d.bSrc == OPND_MEM ==> c.rax == EffectiveAddress(d, c.rf, Wrap(addr + d.len))
    ensures Holds(c, Run(EmitValue(d, prev), c, m), Result(d.op, a, SourceB(d, addr, c.rf, m)), d.wide)
  {
    hide Run, BroadcastTail, Spread4, LowDword, MemVec, MemHalf, Result, EffectiveAddress, Wrap;
    var i := if d.bSrc == OPND_MEM then MovdLoad(A_LO) else MovdLoadRf(A_LO, d.bSrc * 32);
    RunAppend([i], BroadcastTail(d.wide), c, m);
    Run1(i, c, m);
    var h := if d.bSrc == OPND_MEM then MemHalf(m, c.rax) else c.rf.ymm[d.bSrc].lo;
    HalvesOfMemory(m, c.rax, d.memBytes);
    DwordSpread(h, a, SourceB(d, addr, c.rf, m));
    TailCopies(d.wide, Run([i], c, m), m);
  }

  lemma WordCorrect(d: Insn, addr: Address, a: Vec, prev: int, c: Cpu, m: Mem)
    requires Supported(d) && FromDecoder(d) && d.op == VPBROADCASTW
    requires d.bSrc == OPND_MEM ==> c.rax == EffectiveAddress(d, c.rf, Wrap(addr + d.len))
    ensures Holds(c, Run(EmitValue(d, prev), c, m), Result(d.op, a, SourceB(d, addr, c.rf, m)), d.wide)
  {
    hide Run, BroadcastTail, Spread4, SpreadLow2, MemVec, MemHalf, Result, EffectiveAddress, Wrap;
    var i := if d.bSrc == OPND_MEM then PinsrwLoad(A_LO) else MovdLoadRf(A_LO, d.bSrc * 32);
    RunAppend([i, Pshuflw0(A_LO, A_LO)], BroadcastTail(d.wide), c, m);
    Run2(i, Pshuflw0(A_LO, A_LO), c, m);
    var x := if d.bSrc == OPND_MEM then WithWord0(c.xmm[A_LO], MemHalf(m, c.rax))
             else LowDword(c.rf.ymm[d.bSrc].lo);
    HalvesOfMemory(m, c.rax, d.memBytes);
    WordSpread(x, a, SourceB(d, addr, c.rf, m));
    TailCopies(d.wide, Run([i, Pshuflw0(A_LO, A_LO)], c, m), m);
  }

  // --------------------------------------------------------- zero extension

  lemma WidenIsResult(a: Vec, b: Vec)
    ensures Result(VPMOVZXBW, a, b) == Vec(Widen(b.lo), Widen(DropLow8(b.lo)))
  {
    var r := Result(VPMOVZXBW, a, b);
    assert r.lo == Widen(b.lo);
    assert r.hi == Widen(DropLow8(b.lo));
  }

  /** Eight bytes further on in memory is the same as dropping eight bytes. */
  lemma WidenFurther(m: Mem, a: Address)
    ensures Widen(MemHalf(m, a + 8)) == Widen(DropLow8(MemHalf(m, a)))
  {
    var far, near := MemHalf(m, a + 8), DropLow8(MemHalf(m, a));
    forall i | 0 <= i < 8
      ensures far[i] == near[i]
    {
      assert near[i] == m(Wrap(a + (i + 8)));
    }
  }

  lemma WidenHigh(c: Cpu, m: Mem)
    ensures var r := Run([Movdqa(TMP, B_LO), Psrldq8(TMP), Pmovzx(A_HI, TMP)], c, m);
      && r.xmm[A_LO] == c.xmm[A_LO] && r.xmm[A_HI] == Widen(DropLow8(c.xmm[B_LO]))
      && WorkOnly(c, r)
  {
    hide Run, Widen, DropLow8;
    Run3(Movdqa(TMP, B_LO), Psrldq8(TMP), Pmovzx(A_HI, TMP), c, m);
    var c1 := Step(Movdqa(TMP, B_LO), c, m);
    assert c1.xmm[TMP] == c.xmm[B_LO];
    var c2 := Step(Psrldq8(TMP), c1, m);
    assert c2.xmm[TMP] == DropLow8(c.xmm[B_LO]);
  }

  lemma WidenFromRegister(wide: bool, h: Half, c: Cpu, m: Mem)
    requires c.xmm[B_LO] == h
    ensures var r := Run([Pmovzx(A_LO, B_LO)]
              + (if wide then [Movdqa(TMP, B_LO), Psrldq8(TMP), Pmovzx(A_HI, TMP)] else []), c, m);
      Holds(c, r, Vec(Widen(h), Widen(DropLow8(h))), wide)
  {
    hide Widen, DropLow8, Run;
    RunAppend([Pmovzx(A_LO, B_LO)],
              if wide then [Movdqa(TMP, B_LO), Psrldq8(TMP), Pmovzx(A_HI, TMP)] else [], c, m);
    Run1(Pmovzx(A_LO, B_LO), c, m);
    var c1 := Set(c, A_LO, Widen(h));
    if wide {
      WidenHigh(c1, m);
    } else {
      RunNone(c1, m);
    }
  }

  lemma PmovzxStep(x: Xmm, disp: int, c: Cpu, m: Mem)
    ensures Run([PmovzxLoad(x, disp)], c, m) == Set(c, x, Widen(MemHalf(m, c.rax + disp)))
  {
    hide Widen, MemHalf, Run;
    Run1(PmovzxLoad(x, disp), c, m);
  }

  lemma WidenFromMemory(wide: bool, c: Cpu, m: Mem)
    ensures var r := Run([PmovzxLoad(A_LO, 0)] + (if wide then [PmovzxLoad(A_HI, 8)] else []), c, m);
      Holds(c, r, Vec(Widen(MemHalf(m, c.rax)), Widen(MemHalf(m, c.rax + 8))), wide)
  {
    hide Widen, MemHalf, Run, Step;
    RunAppend([PmovzxLoad(A_LO, 0)], if wide then [PmovzxLoad(A_HI, 8)] else [], c, m);
    PmovzxStep(A_LO, 0, c, m);
    var c1 := Run([PmovzxLoad(A_LO, 0)], c, m);
    if wide {
      PmovzxStep(A_HI, 8, c1, m);
    } else {
      RunNone(c1, m);
    }
  }

  lemma WidenCorrect(d: Insn, addr: Address, a: Vec, prev: int, c: Cpu, m: Mem)
    requires Supported(d) && FromDecoder(d) && d.op == VPMOVZXBW && Inv(c, prev)
    requires d.bSrc == OPND_MEM ==> c.rax == EffectiveAddress(d, c.rf, Wrap(addr + d.len))
    ensures Holds(c, Run(EmitValue(d, prev), c, m), Result(d.op, a, SourceB(d, addr, c.rf, m)), d.wide)
  {
    hide Run, Step, Widen, DropLow8, MemVec, MemHalf, Result, LoadSlot, EffectiveAddress, Wrap;
    var b := SourceB(d, addr, c.rf, m);
    WidenIsResult(a, b);
    if d.bSrc == OPND_MEM {
      HalvesOfMemory(m, c.rax, d.memBytes);
      WidenFurther(m, c.rax);
      WidenFromMemory(d.wide, c, m);
    } else {
      var p := LoadSlot(d.bSrc, B_LO, B_HI, false, prev);
      var q := [Pmovzx(A_LO, B_LO)]
               + (if d.wide then [Movdqa(TMP, B_LO), Psrldq8(TMP), Pmovzx(A_HI, TMP)] else []);
      RunAppend(p, q, c, m);
      SlotLoaded(d.bSrc, B_LO, B_HI, false, prev, c, m);
      WidenFromRegister(d.wide, b.lo, Run(p, c, m), m);
    }
  }

  // ------------------------------------------------- the whole instruction

  lemma HalvesStored(rf: RegFile, dst: int, lo: Half, hi: Half)
    requires ValidFile(rf) && 0 <= dst <= 15
    ensures StoreHalf(StoreHalf(rf, dst * 32, lo), dst * 32 + 16, hi) == rf.(ymm := rf.ymm[dst := Vec(lo, hi)])
  {
    var rf1 := StoreHalf(rf, dst * 32, lo);
    assert rf1.ymm[dst] == Vec(lo, rf.ymm[dst].hi);
    assert rf.ymm[dst := rf1.ymm[dst]][dst := Vec(lo, hi)] == rf.ymm[dst := Vec(lo, hi)];
  }

  lemma Stored(dst: int, wide: bool, x: Vec, c0: Cpu, c: Cpu, m: Mem)
    requires 0 <= dst <= 15 && Holds(c0, c, x, wide) && c0.xmm[NX_ZERO] == ZERO
    ensures var r := Run(StoreDst(dst, wide), c, m);
      && r.rf == c.rf.(ymm := c.rf.ymm[dst := Vec(x.lo, if wide then x.hi else ZERO)])
      && Inv(r, dst)
  {
    hide StoreHalf, Run;
    Run3(MovdquStoreRf(A_LO, dst * 32), MovdquStoreRf(if wide then A_HI else NX_ZERO, dst * 32 + 16),
         Movdqa(CACHE, A_LO), c, m);
    HalvesStored(c.rf, dst, x.lo, if wide then x.hi else ZERO);
  }

  lemma ValueCorrect(d: Insn, addr: Address, prev: int, c: Cpu, m: Mem)
    requires Supported(d) && FromDecoder(d) && Inv(c, prev)
    requires d.bSrc == OPND_MEM ==> c.rax == EffectiveAddress(d, c.rf, Wrap(addr + d.len))
    ensures var a := if 0 <= d.aSrc <= 15 then c.rf.ymm[d.aSrc] else Vec(ZERO, ZERO);
      Holds(c, Run(EmitValue(d, prev), c, m), Result(d.op, a, SourceB(d, addr, c.rf, m)), d.wide)
  {
    hide Run, EmitValue, Result, SourceB, EffectiveAddress, Wrap, Holds;
    var a := if 0 <= d.aSrc <= 15 then c.rf.ymm[d.aSrc] else Vec(ZERO, ZERO);
    match d.op
    case VPBROADCASTD => DwordCorrect(d, addr, a, prev, c, m);
    case VPBROADCASTW => WordCorrect(d, addr, a, prev, c, m);
    case VPMOVZXBW => WidenCorrect(d, addr, a, prev, c, m);
    case _ => BinaryCorrect(d, addr, prev, c, m);
  }

  /** One emitted instruction does exactly what the emulator does, and keeps the cache true. */
  lemma OneCorrect(d: Insn, addr: Address, prev: int, c: Cpu, m: Mem)
    requires Supported(d) && FromDecoder(d) && Inv(c, prev)
    ensures var r := Run(EmitOne(d, addr, prev), c, m);
      r.rf == Emulate(d, addr, c.rf, m) && Inv(r, d.dst)
  {
    hide Run, Step, EmitValue, EmitEa, StoreDst, Result, SourceB, EffectiveAddress, Wrap;
    var p := if d.bSrc == OPND_MEM then EmitEa(d, addr) else [];
    var q := StoreDst(d.dst, d.wide);
    RunAppend(p, EmitValue(d, prev) + q, c, m);
    if d.bSrc == OPND_MEM {
      EaCorrect(d, addr, c, m);
    } else {
      RunNone(c, m);
    }
    var c1 := Run(p, c, m);
    RunAppend(EmitValue(d, prev), q, c1, m);
    ValueCorrect(d, addr, prev, c1, m);
    var a := if 0 <= d.aSrc <= 15 then c1.rf.ymm[d.aSrc] else Vec(ZERO, ZERO);
    Stored(d.dst, d.wide, Result(d.op, a, SourceB(d, addr, c1.rf, m)), c1, Run(EmitValue(d, prev), c1, m), m);
  }

  // ----------------------------------------------------------------- the run

  datatype Site = Site(addr: Address, dec: Insn)

  predicate AllSupported(s: seq<Site>) { forall i :: 0 <= i < |s| ==> Supported(s[i].dec) }

  predicate AllFromDecoder(s: seq<Site>) { forall i :: 0 <= i < |s| ==> FromDecoder(s[i].dec) }

  function EmitRun(s: seq<Site>, prev: int): seq<Instr> {
    if s == [] then [] else EmitOne(s[0].dec, s[0].addr, prev) + EmitRun(s[1..], s[0].dec.dst)
  }

  /** pxor zero,zero and then the run. */
  function Block(s: seq<Site>): seq<Instr> {
    [Packed(VPXOR, NX_ZERO, NX_ZERO)] + EmitRun(s, -1)
  }

  /** tramp_emulate_run: each instruction on the register file its predecessor left. */
  function EmulateRun(s: seq<Site>, rf: RegFile, m: Mem): (r: RegFile)
    requires ValidFile(rf) && AllSupported(s) && AllFromDecoder(s)
    ensures ValidFile(r)
  {
    if s == [] then rf
    else EmulateRun(s[1..], Emulate(s[0].dec, s[0].addr, rf, m), m)
  }

  lemma {:induction false} RunCorrect(s: seq<Site>, prev: int, c: Cpu, m: Mem)
    requires AllSupported(s) && AllFromDecoder(s) && Inv(c, prev)
    ensures Run(EmitRun(s, prev), c, m).rf == EmulateRun(s, c.rf, m)
    decreases |s|
  {
    hide Run, Step, EmitOne, Emulate;
    if s == [] {
      RunNone(c, m);
    } else {
      RunAppend(EmitOne(s[0].dec, s[0].addr, prev), EmitRun(s[1..], s[0].dec.dst), c, m);
      OneCorrect(s[0].dec, s[0].addr, prev, c, m);
      RunCorrect(s[1..], s[0].dec.dst, Run(EmitOne(s[0].dec, s[0].addr, prev), c, m), m);
    }
  }

  /**
   * The compiled block leaves vector registers, general registers and flags exactly as
   * emulating the instructions one by one does: any length, any data dependencies, any mix
   * of register, memory, 128-bit and 256-bit forms, whatever the xmm registers held before.
   */
  lemma BlockCorrect(s: seq<Site>, c: Cpu, m: Mem)
    requires AllSupported(s) && AllFromDecoder(s)
    ensures Run(Block(s), c, m).rf == EmulateRun(s, c.rf, m)
  {
    var z := Packed(VPXOR, NX_ZERO, NX_ZERO);
    RunAppend([z], EmitRun(s, -1), c, m);
    Run1(z, c, m);
    SelfXor(c.xmm[NX_ZERO]);
    RunCorrect(s, -1, Run([z], c, m), m);
  }

  lemma XorSame(x: bv8)
    ensures Lane(VPXOR, x, x) == 0
  {}

  lemma SelfXor(h: Half)
    ensures Lanes(VPXOR, h, h) == ZERO
  {
    forall i | 0 <= i < 16
      ensures PackedByte(VPXOR, h[i], h[i]) == 0
    {
      PackedIsLane(VPXOR, h[i], h[i]);
      XorSame(h[i]);
      hide PackedByte, Lane;
    }
  }
}
