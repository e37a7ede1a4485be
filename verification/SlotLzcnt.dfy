/**
 * gb_emit_lzcnt: LZCNT as straight-line code over the spilled register file, and runs of it.
 * The slots hold the spilled general registers (at 512 + 8 * number) and rflags (at 640).
 */
module SlotLzcnt {
  import opened Decoded
  import opened BmiExec
  import opened ScalarMachine
  import opened Lowering

  const RF_GPR_OFF := 512
  const RF_FLAGS_OFF := 640

  const S: Gpr := 0
  const D: Gpr := 1
  const T1: Gpr := 2
  const T2: Gpr := 8
  const F: Gpr := 9

  predicate Supported(d: Insn) {
    && d.isBmi && d.op == BMI_LZCNT
    && d.dstKind.DstGpr?
    && (d.opsize == 32 || d.opsize == 64)
    && d.seg == 0
    && d.aSrc != OPND_MEM && d.bSrc != OPND_MEM
    && 0 <= d.dst <= 15 && 0 <= d.aSrc <= 15
    && d.bmiDst2 == OPND_NONE && !d.bmiS1Rdx
  }

  function FlagsPatch(): seq<Instr> {
    [LoadSlot(W64, F, RF_FLAGS_OFF), AndImm(F, CLR)] + [OrRR(W64, F, T1), StoreSlot(F, RF_FLAGS_OFF)]
  }

  function Block(d: Insn): seq<Instr>
    requires Supported(d)
  {
    var w := WidthOf(d);
    [LoadSlot(w, S, RF_GPR_OFF + d.aSrc * 8)]
    + (LzcntValue(w, D, S, T1, T2)
       + (CountFlags(w, D, T1, T2)
          + (FlagsPatch() + [StoreSlot(D, RF_GPR_OFF + d.dst * 8)])))
  }

  predicate AllSupported(ds: seq<Insn>) {
    forall i :: 0 <= i < |ds| ==> Supported(ds[i])
  }

  function Blocks(ds: seq<Insn>): seq<Instr>
    requires AllSupported(ds)
  {
    if ds == [] then [] else Block(ds[0]) + Blocks(ds[1..])
  }

  lemma {:induction false} BlocksAppend(ds: seq<Insn>, d: Insn)
    requires AllSupported(ds) && Supported(d)
    ensures AllSupported(ds + [d]) && Blocks(ds + [d]) == Blocks(ds) + Block(d)
    decreases |ds|
  {
    hide Block;
    if ds == [] {
      assert [d][1..] == [];
      assert Blocks([d]) == Block(d) + [];
      assert [] + [d] == [d];
    } else {
      assert (ds + [d])[1..] == ds[1..] + [d];
      BlocksAppend(ds[1..], d);
    }
  }

  /** The register file that the slots spill. */
  function Spilled(c: Cpu): (s: Scalars)
    ensures |s.gpr| == 16
  {
    Scalars(seq(16, (i: nat) => c.slots(RF_GPR_OFF + i * 8)), c.slots(RF_FLAGS_OFF))
  }

  /** Everything outside the spilled registers and flags, and the stack. */
  ghost predicate RestKept(c0: Cpu, c: Cpu) {
    && c.rsp == c0.rsp && c.stack == c0.stack && c.fault == c0.fault
    && forall x :: (x < RF_GPR_OFF || RF_FLAGS_OFF < x || x % 8 != 0) ==> c.slots(x) == c0.slots(x)
  }

  function EmulateRun(ds: seq<Insn>, s: Scalars): (r: Scalars)
    requires |s.gpr| == 16
    requires AllSupported(ds)
    ensures |r.gpr| == 16
  {
    if ds == [] then s else EmulateRun(ds[1..], Emulate(ds[0], s))
  }

  lemma LoadStep(c: Cpu, w: Width, d: Gpr, slot: int, o: Oracle)
    ensures var r := Next(LoadSlot(w, d, slot), c, o);
      r.regs == c.regs[d := MaskZ(c.slots(slot), w)] && SameMemory(c, r)
  {
    hide Run, BitAnd, BitOr, BitXor, BitNot, Minus, WithByte, HighestBit, LowestBit, ScanForward, ScanReverse,
        StackWrite,
         WithLowHalf, PushWord, PopWord, SetByte, Test, Count, AluFlags, SignBit, MaskZ, Alu;
  }

  lemma StoreStep(c: Cpu, d: Gpr, slot: int, o: Oracle)
    ensures var r := Next(StoreSlot(d, slot), c, o);
      && r.regs == c.regs && r.rsp == c.rsp && r.stack == c.stack && r.fault == c.fault
      && r.slots(slot) == c.regs[d]
      && forall x :: x != slot ==> r.slots(x) == c.slots(x)
  {
    hide Run, BitAnd, BitOr, BitXor, BitNot, Minus, WithByte, HighestBit, LowestBit, ScanForward, ScanReverse,
        StackWrite,
         WithLowHalf, PushWord, PopWord, SetByte, Test, Count, AluFlags, SignBit, MaskZ, Alu;
  }

  lemma AluStep(c: Cpu, d: Gpr, s: Gpr, mask: Word, o: Oracle)
    ensures var r := Next(AndImm(d, mask), c, o);
      r.regs == c.regs[d := MaskZ(BitAnd(c.regs[d], mask), W64)] && SameMemory(c, r)
    ensures var r := Next(OrRR(W64, d, s), c, o);
      r.regs == c.regs[d := MaskZ(BitOr(c.regs[d], c.regs[s]), W64)] && SameMemory(c, r)
  {
    hide Run, BitAnd, BitOr, BitXor, BitNot, Minus, WithByte, HighestBit, LowestBit, ScanForward, ScanReverse,
        StackWrite,
         WithLowHalf, PushWord, PopWord, SetByte, Test, Count, AluFlags, SignBit, MaskZ;
  }

  lemma LoadSource(c: Cpu, w: Width, slot: int, o: Oracle)
    ensures var r := Run([LoadSlot(w, S, slot)], c, o);
      r.regs == c.regs[S := MaskZ(c.slots(slot), w)] && SameMemory(c, r)
  {
    hide MaskZ, Run, Next;
    Run1(LoadSlot(w, S, slot), c, o);
    LoadStep(c, w, S, slot, o);
  }

  lemma LoadAndMask(c: Cpu, f: Gpr, slot: int, mask: Word, o: Oracle)
    ensures var r := Run([LoadSlot(W64, f, slot), AndImm(f, mask)], c, o);
      && r.regs == c.regs[f := BitAnd(c.slots(slot), mask)]
      && SameMemory(c, r)
  {
    hide MaskZ, BitAnd, Run, Next;
    SelfAnd(c.slots(slot), W64);
    SelfAnd(BitAnd(c.slots(slot), mask), W64);
    Run2(LoadSlot(W64, f, slot), AndImm(f, mask), c, o);
    LoadStep(c, W64, f, slot, o);
    AluStep(Next(LoadSlot(W64, f, slot), c, o), f, f, mask, o);
  }

  lemma StoreFlags(c: Cpu, o: Oracle)
    ensures var r := Run([OrRR(W64, F, T1), StoreSlot(F, RF_FLAGS_OFF)], c, o);
      && SameExcept(c.regs, r.regs, F, F, F)
      && r.rsp == c.rsp && r.stack == c.stack && r.fault == c.fault
      && r.slots(RF_FLAGS_OFF) == BitOr(c.regs[F], c.regs[T1])
      && forall x :: x != RF_FLAGS_OFF ==> r.slots(x) == c.slots(x)
  {
    hide MaskZ, BitOr, BitAnd, Run, Next;
    SelfAnd(BitOr(c.regs[F], c.regs[T1]), W64);
    Run2(OrRR(W64, F, T1), StoreSlot(F, RF_FLAGS_OFF), c, o);
    AluStep(c, F, T1, CLR, o);
    StoreStep(Next(OrRR(W64, F, T1), c, o), F, RF_FLAGS_OFF, o);
  }

  lemma PatchFlags(c: Cpu, o: Oracle)
    ensures var r := Run(FlagsPatch(), c, o);
      && SameExcept(c.regs, r.regs, F, F, F)
      && r.rsp == c.rsp && r.stack == c.stack && r.fault == c.fault
      && r.slots(RF_FLAGS_OFF) == BitOr(BitAnd(c.slots(RF_FLAGS_OFF), CLR), c.regs[T1])
      && forall x :: x != RF_FLAGS_OFF ==> r.slots(x) == c.slots(x)
  {
    hide Run, Next, BitAnd, BitOr;
    var p := [LoadSlot(W64, F, RF_FLAGS_OFF), AndImm(F, CLR)];
    RunAppend(p, [OrRR(W64, F, T1), StoreSlot(F, RF_FLAGS_OFF)], c, o);
    LoadAndMask(c, F, RF_FLAGS_OFF, CLR, o);
    StoreFlags(Run(p, c, o), o);
  }

  lemma StoreResult(c: Cpu, slot: int, o: Oracle)
    ensures var r := Run([StoreSlot(D, slot)], c, o);
      && r.regs == c.regs && r.rsp == c.rsp && r.stack == c.stack && r.fault == c.fault
      && r.slots(slot) == c.regs[D]
      && forall x :: x != slot ==> r.slots(x) == c.slots(x)
  {
    Run1(StoreSlot(D, slot), c, o);
  }

  /** The computing half of a block: result in D, flags patched, nothing stored yet but flags. */
  lemma ComputeCorrect(c: Cpu, d: Insn, o: Oracle)
    requires Supported(d)
    ensures var w := WidthOf(d);
      var r := Run([LoadSlot(w, S, RF_GPR_OFF + d.aSrc * 8)]
                   + (LzcntValue(w, D, S, T1, T2) + (CountFlags(w, D, T1, T2) + FlagsPatch())), c, o);
      var x := Exec(BMI_LZCNT, w, c.slots(RF_GPR_OFF + d.aSrc * 8), W(0), c.slots(RF_FLAGS_OFF));
      && r.regs[D] == x.dst
      && r.slots(RF_FLAGS_OFF) == x.flags
      && r.rsp == c.rsp && r.stack == c.stack && r.fault == c.fault
      && forall a :: a != RF_FLAGS_OFF ==> r.slots(a) == c.slots(a)
  {
    hide Run, Next, Exec, MaskZ, SetFlags, Count, HighestBit, BitOr, BitAnd, OwnedBits, Flag,
      LzcntValue, CountFlags, FlagsPatch;
    var w, src := WidthOf(d), RF_GPR_OFF + d.aSrc * 8;
    var p0, p1, p2 := [LoadSlot(w, S, src)], LzcntValue(w, D, S, T1, T2), CountFlags(w, D, T1, T2);
    RunAppend(p0, p1 + (p2 + FlagsPatch()), c, o);
    LoadSource(c, w, src, o);
    var c1 := Run(p0, c, o);
    RunAppend(p1, p2 + FlagsPatch(), c1, o);
    LzcntValueCorrect(c1, w, D, S, T1, T2, o);
    var c2 := Run(p1, c1, o);
    RunAppend(p2, FlagsPatch(), c2, o);
    var v := c.slots(src);
    MaskTwice(v, w);
    var z := MaskZ(v, w).v == 0;
    CountFlagsCorrect(c2, w, D, T1, T2, z, o);
    var c3 := Run(p2, c2, o);
    PatchFlags(c3, o);
    CountOutcome(BMI_LZCNT, w, v, W(0), c.slots(RF_FLAGS_OFF));
    PatchImage(c.slots(RF_FLAGS_OFF), z, MaskZ(c2.regs[D], w).v == 0, false);
  }

  /** One block does to the spilled registers and flags what the emulator does. */
  lemma BlockCorrect(c: Cpu, d: Insn, o: Oracle)
    requires Supported(d)
    ensures var r := Run(Block(d), c, o);
      Spilled(r) == Emulate(d, Spilled(c)) && RestKept(c, r)
  {
    hide Run, Next, Exec, LzcntValue, CountFlags, FlagsPatch;
    var w, out := WidthOf(d), [StoreSlot(D, RF_GPR_OFF + d.dst * 8)];
    var p := [LoadSlot(w, S, RF_GPR_OFF + d.aSrc * 8)]
             + (LzcntValue(w, D, S, T1, T2) + (CountFlags(w, D, T1, T2) + FlagsPatch()));
    assert Block(d) == p + out;
    RunAppend(p, out, c, o);
    ComputeCorrect(c, d, o);
    StoreResult(Run(p, c, o), RF_GPR_OFF + d.dst * 8, o);
    SecondOperandUnused(w, c.slots(RF_GPR_OFF + d.aSrc * 8), c.slots(RF_FLAGS_OFF));
  }

  lemma SecondOperandUnused(w: Width, s: Word, flags: Word)
    ensures forall b :: Exec(BMI_LZCNT, w, s, b, flags) == Exec(BMI_LZCNT, w, s, W(0), flags)
  {
    hide MaskZ, SetFlags, LeadingFrom, Count;
  }

  /** A run of any length, with any dependencies between its instructions. */
  lemma {:induction false} RunCorrect(ds: seq<Insn>, c: Cpu, o: Oracle)
    requires AllSupported(ds)
    ensures var r := Run(Blocks(ds), c, o);
      Spilled(r) == EmulateRun(ds, Spilled(c)) && RestKept(c, r)
    decreases |ds|
  {
    hide Run, Next, Block, Emulate, Spilled;
    if ds == [] {
      RunEmpty(c, o);
    } else {
      RunAppend(Block(ds[0]), Blocks(ds[1..]), c, o);
      BlockCorrect(c, ds[0], o);
      RunCorrect(ds[1..], Run(Block(ds[0]), c, o), o);
    }
  }

  lemma RunEmpty(c: Cpu, o: Oracle)
    ensures Run([], c, o) == c
  {}
}
