/** The inline native lowerings of TZCNT, LZCNT, ANDN and SHLX, and their correctness. */
module Lowering {
  import opened Decoded
  import opened BmiExec
  import opened ScalarMachine

  /** ~(CF|ZF|SF|OF): the 32-bit immediate sign-extended by the AND. */
  const CLR := W(0xffff_ffff_ffff_f73e)

  function Flag(b: bool): Word { W(if b then 1 else 0) }

  // ------------------------------------------------------------ word facts

  lemma ClearedByte(x: Word, b: bool)
    ensures WithByte(MaskZ(BitXor(x, x), W64), b) == Flag(b)
  {}

  lemma AluZero(u: Undefined, z: bool, s: bool)
    ensures Zero(AluFlags(u, z, s)) == z
    ensures Sign(AluFlags(u, z, s)) == s
  {}

  lemma SelfAnd(x: Word, w: Width)
    ensures MaskZ(BitAnd(x, x), w) == MaskZ(x, w)
    ensures MaskZ(x, W64) == x
  {}

  lemma SmallCount(k: nat, w: Width)
    requires k <= 64
    ensures MaskZ(Count(k), w) == Count(k)
    ensures Count(k).v == 0 <==> k == 0
  {}

  lemma CountMinus(m: nat, i: nat)
    requires i <= m <= 64
    ensures Minus(Count(m), Count(i)) == Count(m - i)
  {
    IntRoundTrip(Count(m - i).v);
  }

  lemma IntRoundTrip(x: bv64)
    ensures (x as int) as bv64 == x
  {}

  /** The bits a lowering ORs into the saved flags image. */
  function OwnedBits(cf: bool, zf: bool, sf: bool): Word {
    W((if cf then FLAG_CF else 0) | (if zf then FLAG_ZF else 0) | (if sf then FLAG_SF else 0))
  }

  lemma PatchImage(image: Word, cf: bool, zf: bool, sf: bool)
    ensures BitOr(BitAnd(image, CLR), OwnedBits(cf, zf, sf)) == SetFlags(image, cf, zf, sf, false)
  {}

  lemma ShiftedFlag(b: bool)
    ensures MaskZ(ShiftLeft(Flag(b), 6), W64) == OwnedBits(false, b, false)
    ensures MaskZ(ShiftLeft(Flag(b), 7), W64) == OwnedBits(false, false, b)
  {}

  lemma JoinOwned(cf: bool, zf: bool, sf: bool)
    ensures MaskZ(BitOr(Flag(cf), OwnedBits(false, zf, false)), W64) == OwnedBits(cf, zf, false)
    ensures MaskZ(BitOr(OwnedBits(false, zf, false), OwnedBits(false, false, sf)), W64) == OwnedBits(false, zf, sf)
  {}

  /** Scanning up for the lowest bit is the trailing-zero loop; scanning down, the leading one. */
  lemma {:induction false} LowestIsTrailing(v: Word, n: nat, i: nat)
    requires i <= n <= 64
    ensures LowestBit(v, n, i) == TrailingFrom(v, n, i)
    decreases n - i
  {
    if i < n && !Bit(v, i) { LowestIsTrailing(v, n, i + 1); }
  }

  lemma {:induction false} HighestIsLeading(v: Word, n: nat, c: nat)
    requires c < n <= 64
    requires LeadingFrom(v, n, c) < n
    ensures HighestBit(v, n - 1 - c) == n - 1 - LeadingFrom(v, n, c)
    decreases n - c
  {
    if !Bit(v, n - 1 - c) { HighestIsLeading(v, n, c + 1); }
  }

  // ------------------------------------------------------------------ stages

  function Open(t1: Gpr, t2: Gpr): seq<Instr> {
    [LeaRsp(-128), Pushfq, Push(t1), Push(t2)]
  }

  function TzcntValue(w: Width, d: Gpr, s: Gpr, t1: Gpr, t2: Gpr): seq<Instr> {
    [XorRR(W64, t1, t1), TestRR(w, s, s), SetZ(t1)]
    + ([Bsf(w, d, s)] + [MovImm32(t2, Count(w.Bits())), CmovZ(W64, d, t2)])
  }

  function LzcntValue(w: Width, d: Gpr, s: Gpr, t1: Gpr, t2: Gpr): seq<Instr> {
    [XorRR(W64, t1, t1), TestRR(w, s, s), SetZ(t1)]
    + (([Bsr(w, d, s)] + [MovImm32(t2, Count(w.Bits() - 1)), SubRR(W64, t2, d)])
       + ([TestRR(W64, t1, t1)] + [MovImm32(d, Count(w.Bits())), CmovZ(W64, d, t2)]))
  }

  function CountFlags(w: Width, d: Gpr, t1: Gpr, t2: Gpr): seq<Instr> {
    [XorRR(W64, t2, t2), TestRR(w, d, d), SetZ(t2)]
    + [ShlImm(W64, t2, 6), OrRR(W64, t1, t2)]
  }

  function AndnValue(w: Width, d: Gpr, s1: Gpr, s2: Gpr, t1: Gpr): seq<Instr> {
    [MovRR(w, t1, s1), NotR(w, t1), AndRR(w, t1, s2), MovRR(w, d, t1)]
  }

  function AndnFlags(w: Width, d: Gpr, t1: Gpr, t2: Gpr): seq<Instr> {
    [XorRR(W64, t1, t1), XorRR(W64, t2, t2)]
    + ([TestRR(w, d, d), SetZ(t1), SetS(t2)]
       + [ShlImm(W64, t1, 6), ShlImm(W64, t2, 7), OrRR(W64, t1, t2)])
  }

  /** Patches the saved image and undoes Open. */
  function Close(t1: Gpr, t2: Gpr): seq<Instr> {
    [AndRsp16(CLR), OrRsp16(t1)] + [Pop(t2), Pop(t1), Popfq, LeaRsp(128)]
  }

  /** Between Open and Close: the state saved on the stack, and what may not have changed. */
  ghost predicate Saved(c0: Cpu, c: Cpu, t1: Gpr, t2: Gpr, image: Word) {
    && c.rsp == -152
    && c.stack(-136) == image
    && c.stack(-144) == c0.regs[t1]
    && c.stack(-152) == c0.regs[t2]
    && Above(c0, c)
  }

  /** Only registers and flags differ. */
  ghost predicate SameMemory(c0: Cpu, c: Cpu) {
    c.rsp == c0.rsp && c.stack == c0.stack && c.slots == c0.slots && c.fault == c0.fault
  }

  lemma OpenSaves(c: Cpu, t1: Gpr, t2: Gpr, o: Oracle)
    requires c.rsp == 0 && !c.fault
    ensures var r := Run(Open(t1, t2), c, o);
      Saved(c, r, t1, t2, c.flags) && r.regs == c.regs
  {
    Run4(LeaRsp(-128), Pushfq, Push(t1), Push(t2), c, o);
  }

  lemma CloseRestores(c0: Cpu, c: Cpu, t1: Gpr, t2: Gpr, image: Word, o: Oracle)
    requires Saved(c0, c, t1, t2, image) && t1 != t2
    ensures var r := Run(Close(t1, t2), c, o);
      && r.regs == c.regs[t2 := c0.regs[t2]][t1 := c0.regs[t1]]
      && r.flags == BitOr(BitAnd(image, CLR), c.regs[t1])
      && r.rsp == 0 && Above(c0, r)
  {
    hide BitOr, BitAnd, Run;
    var p := [AndRsp16(CLR), OrRsp16(t1)];
    RunAppend(p, [Pop(t2), Pop(t1), Popfq, LeaRsp(128)], c, o);
    Run2(p[0], p[1], c, o);
    var m := Run(p, c, o);
    PopAll(c0, m, t1, t2, BitOr(BitAnd(image, CLR), c.regs[t1]), o);
  }

  lemma PopAll(c0: Cpu, c: Cpu, t1: Gpr, t2: Gpr, image: Word, o: Oracle)
    requires Saved(c0, c, t1, t2, image) && t1 != t2
    ensures var r := Run([Pop(t2), Pop(t1), Popfq, LeaRsp(128)], c, o);
      && r.regs == c.regs[t2 := c0.regs[t2]][t1 := c0.regs[t1]]
      && r.flags == image && r.rsp == 0 && Above(c0, r)
  {
    Run4(Pop(t2), Pop(t1), Popfq, LeaRsp(128), c, o);
  }

  /** T1 receives (source == 0); the source itself is untouched. */
  lemma SourceIsZero(c: Cpu, w: Width, s: Gpr, t1: Gpr, o: Oracle)
    requires t1 != s
    ensures var r := Run([XorRR(W64, t1, t1), TestRR(w, s, s), SetZ(t1)], c, o);
      && r.regs == c.regs[t1 := Flag(MaskZ(c.regs[s], w).v == 0)]
      && SameMemory(c, r)
  {
    hide MaskZ, AluFlags, SignBit, BitAnd, BitXor, WithByte, Zero, Flag;
    Run3(XorRR(W64, t1, t1), TestRR(w, s, s), SetZ(t1), c, o);
    var x := MaskZ(c.regs[s], w);
    SelfAnd(c.regs[s], w);
    AluZero(o(c.tick + 1), x.v == 0, SignBit(x, w));
    ClearedByte(c.regs[t1], x.v == 0);
  }

  lemma BsfStep(c: Cpu, w: Width, d: Gpr, s: Gpr, o: Oracle)
    ensures var r := Next(Bsf(w, d, s), c, o);
      var x := MaskZ(c.regs[s], w);
      && r.regs == c.regs[d := if x.v == 0 then o(c.tick).value else Count(LowestBit(x, w.Bits(), 0))]
      && Zero(r.flags) == (x.v == 0)
      && SameMemory(c, r)
  {
    hide MaskZ, AluFlags, Zero, Sign, Count, LowestBit;
    AluZero(o(c.tick), MaskZ(c.regs[s], w).v == 0, Sign(o(c.tick).flags));
  }

  lemma MoveStep(c: Cpu, imm: Word, a: Gpr, o: Oracle)
    ensures var r := Next(MovImm32(a, imm), c, o);
      r.regs == c.regs[a := imm] && r.flags == c.flags && SameMemory(c, r)
  {}

  lemma SelectStep(c: Cpu, d: Gpr, s: Gpr, o: Oracle)
    ensures var r := Next(CmovZ(W64, d, s), c, o);
      r.regs == c.regs[d := if Zero(c.flags) then c.regs[s] else c.regs[d]] && SameMemory(c, r)
  {
    hide Zero, MaskZ;
    SelfAnd(c.regs[s], W64);
    SelfAnd(c.regs[d], W64);
  }

  /** a := imm; then d := s if ZF is set. */
  lemma MoveThenSelect(c: Cpu, imm: Word, a: Gpr, d: Gpr, s: Gpr, o: Oracle)
    requires d != s && (a == d || a == s)
    ensures var r := Run([MovImm32(a, imm), CmovZ(W64, d, s)], c, o);
      && (a == s ==> r.regs == c.regs[s := imm][d := if Zero(c.flags) then imm else c.regs[d]])
      && (a == d ==> r.regs == c.regs[d := if Zero(c.flags) then c.regs[s] else imm])
      && SameMemory(c, r)
  {
    hide Zero, Run, Next;
    Run2(MovImm32(a, imm), CmovZ(W64, d, s), c, o);
    MoveStep(c, imm, a, o);
    SelectStep(Next(MovImm32(a, imm), c, o), d, s, o);
  }

  /** bsf, then the cmov that replaces an undefined result by the operand size. */
  lemma BsfOrSize(c: Cpu, w: Width, d: Gpr, s: Gpr, t2: Gpr, o: Oracle)
    requires t2 != d
    ensures var r := Run([Bsf(w, d, s)] + [MovImm32(t2, Count(w.Bits())), CmovZ(W64, d, t2)], c, o);
      var x, n := MaskZ(c.regs[s], w), w.Bits();
      && r.regs == c.regs[t2 := Count(n)][d := if x.v == 0 then Count(n) else Count(LowestBit(x, n, 0))]
      && SameMemory(c, r)
  {
    hide MaskZ, Zero, Count, LowestBit, Next, Run;
    var n := Count(w.Bits());
    RunAppend([Bsf(w, d, s)], [MovImm32(t2, n), CmovZ(W64, d, t2)], c, o);
    Run1(Bsf(w, d, s), c, o);
    BsfStep(c, w, d, s, o);
    MoveThenSelect(Next(Bsf(w, d, s), c, o), n, t2, d, t2, o);
  }

  lemma TzcntValueCorrect(c: Cpu, w: Width, d: Gpr, s: Gpr, t1: Gpr, t2: Gpr, o: Oracle)
    requires t1 != t2 && t1 != d && t2 != d && t1 != s && t2 != s
    ensures var r := Run(TzcntValue(w, d, s, t1, t2), c, o);
      var x, n := MaskZ(c.regs[s], w), w.Bits();
      && r.regs == c.regs[t1 := Flag(x.v == 0)][t2 := Count(n)]
           [d := if x.v == 0 then Count(n) else Count(LowestBit(x, n, 0))]
      && SameMemory(c, r)
  {
    hide MaskZ, Flag, Count, LowestBit, Next, Run;
    var p := [XorRR(W64, t1, t1), TestRR(w, s, s), SetZ(t1)];
    RunAppend(p, [Bsf(w, d, s)] + [MovImm32(t2, Count(w.Bits())), CmovZ(W64, d, t2)], c, o);
    SourceIsZero(c, w, s, t1, o);
    BsfOrSize(Run(p, c, o), w, d, s, t2, o);
  }

  /** bsr, and opsize-1 minus its result in T2. */
  lemma BsrDistance(c: Cpu, w: Width, d: Gpr, s: Gpr, t2: Gpr, o: Oracle)
    requires t2 != d
    ensures var r := Run([Bsr(w, d, s)] + [MovImm32(t2, Count(w.Bits() - 1)), SubRR(W64, t2, d)], c, o);
      var x, n := MaskZ(c.regs[s], w), w.Bits();
      && SameExcept(c.regs, r.regs, d, t2, t2)
      && (x.v != 0 ==> r.regs[t2] == Count(n - 1 - HighestBit(x, n - 1)))
      && SameMemory(c, r)
  {
    hide MaskZ, Count, HighestBit, Minus, Next, Run;
    var n := w.Bits();
    RunAppend([Bsr(w, d, s)], [MovImm32(t2, Count(n - 1)), SubRR(W64, t2, d)], c, o);
    Run1(Bsr(w, d, s), c, o);
    BsrStep(c, w, d, s, o);
    MoveThenSub(Next(Bsr(w, d, s), c, o), Count(n - 1), t2, d, o);
    var x := MaskZ(c.regs[s], w);
    CountMinus(n - 1, HighestBit(x, n - 1));
  }

  lemma BsrStep(c: Cpu, w: Width, d: Gpr, s: Gpr, o: Oracle)
    ensures var r := Next(Bsr(w, d, s), c, o);
      var x := MaskZ(c.regs[s], w);
      && r.regs == c.regs[d := if x.v == 0 then o(c.tick).value else Count(HighestBit(x, w.Bits() - 1))]
      && SameMemory(c, r)
  {
    hide MaskZ, AluFlags, Sign, Count, HighestBit;
  }

  lemma MoveThenSub(c: Cpu, imm: Word, a: Gpr, d: Gpr, o: Oracle)
    requires a != d
    ensures var r := Run([MovImm32(a, imm), SubRR(W64, a, d)], c, o);
      && r.regs == c.regs[a := Minus(imm, c.regs[d])]
      && SameMemory(c, r)
  {
    hide MaskZ, Minus, AluFlags, SignBit;
    SelfAnd(Minus(imm, c.regs[d]), W64);
    Run2(MovImm32(a, imm), SubRR(W64, a, d), c, o);
  }

  ghost predicate SameExcept(a: seq<Word>, b: seq<Word>, r1: int, r2: int, r3: int) {
    && |a| == |b|
    && forall q :: 0 <= q < |a| && q != r1 && q != r2 && q != r3 ==> a[q] == b[q]
  }

  /** D receives the operand size if T1 is one, and T2 if T1 is zero. */
  lemma SelectSize(c: Cpu, w: Width, d: Gpr, t1: Gpr, t2: Gpr, z: bool, o: Oracle)
    requires t1 != d && t2 != d && c.regs[t1] == Flag(z)
    ensures var r := Run([TestRR(W64, t1, t1)] + [MovImm32(d, Count(w.Bits())), CmovZ(W64, d, t2)], c, o);
      && r.regs == c.regs[d := if z then Count(w.Bits()) else c.regs[t2]]
      && SameMemory(c, r)
  {
    hide Zero, Flag, Count, Next, Run;
    var n := Count(w.Bits());
    RunAppend([TestRR(W64, t1, t1)], [MovImm32(d, n), CmovZ(W64, d, t2)], c, o);
    Run1(TestRR(W64, t1, t1), c, o);
    TestFlag(c, t1, z, o);
    MoveThenSelect(Next(TestRR(W64, t1, t1), c, o), n, d, d, t2, o);
  }

  lemma TestFlag(c: Cpu, t1: Gpr, z: bool, o: Oracle)
    requires c.regs[t1] == Flag(z)
    ensures var r := Next(TestRR(W64, t1, t1), c, o);
      r.regs == c.regs && Zero(r.flags) == !z && SameMemory(c, r)
  {
    hide MaskZ, AluFlags, SignBit, BitAnd, Zero, Flag;
    SelfAnd(c.regs[t1], W64);
    FlagZero(z);
    AluZero(o(c.tick), !z, SignBit(Flag(z), W64));
  }

  lemma FlagZero(z: bool)
    ensures Flag(z).v == 0 <==> !z
  {}

  lemma LzcntValueCorrect(c: Cpu, w: Width, d: Gpr, s: Gpr, t1: Gpr, t2: Gpr, o: Oracle)
    requires t1 != t2 && t1 != d && t2 != d && t1 != s && t2 != s
    ensures var r := Run(LzcntValue(w, d, s, t1, t2), c, o);
      var x, n := MaskZ(c.regs[s], w), w.Bits();
      && SameExcept(c.regs, r.regs, d, t1, t2)
      && r.regs[t1] == Flag(x.v == 0)
      && r.regs[d] == (if x.v == 0 then Count(n) else Count(n - 1 - HighestBit(x, n - 1)))
      && SameMemory(c, r)
  {
    hide MaskZ, Flag, Count, HighestBit, Next, Run;
    var n := w.Bits();
    var p1 := [XorRR(W64, t1, t1), TestRR(w, s, s), SetZ(t1)];
    var p2 := [Bsr(w, d, s)] + [MovImm32(t2, Count(n - 1)), SubRR(W64, t2, d)];
    var p3 := [TestRR(W64, t1, t1)] + [MovImm32(d, Count(n)), CmovZ(W64, d, t2)];
    RunAppend(p1, p2 + p3, c, o);
    SourceIsZero(c, w, s, t1, o);
    var c1 := Run(p1, c, o);
    RunAppend(p2, p3, c1, o);
    BsrDistance(c1, w, d, s, t2, o);
    SelectSize(Run(p2, c1, o), w, d, t1, t2, MaskZ(c.regs[s], w).v == 0, o);
  }

  /** OwnedBits(cf, result == 0) ends up in T1. */
  lemma CountFlagsCorrect(c: Cpu, w: Width, d: Gpr, t1: Gpr, t2: Gpr, cf: bool, o: Oracle)
    requires t1 != t2 && t1 != d && t2 != d && c.regs[t1] == Flag(cf)
    ensures var r := Run(CountFlags(w, d, t1, t2), c, o);
      && SameExcept(c.regs, r.regs, t1, t2, t2)
      && r.regs[t1] == OwnedBits(cf, MaskZ(c.regs[d], w).v == 0, false)
      && SameMemory(c, r)
  {
    hide MaskZ, AluFlags, SignBit, BitOr, ShiftLeft, Flag, OwnedBits, Next, Run;
    var z := MaskZ(c.regs[d], w).v == 0;
    var p := [XorRR(W64, t2, t2), TestRR(w, d, d), SetZ(t2)];
    RunAppend(p, [ShlImm(W64, t2, 6), OrRR(W64, t1, t2)], c, o);
    SourceIsZero(c, w, d, t2, o);
    JoinFlags(Run(p, c, o), t1, t2, cf, z, o);
  }

  lemma JoinFlags(c: Cpu, t1: Gpr, t2: Gpr, cf: bool, z: bool, o: Oracle)
    requires t1 != t2 && c.regs[t1] == Flag(cf) && c.regs[t2] == Flag(z)
    ensures var r := Run([ShlImm(W64, t2, 6), OrRR(W64, t1, t2)], c, o);
      && SameExcept(c.regs, r.regs, t1, t2, t2)
      && r.regs[t1] == OwnedBits(cf, z, false)
      && SameMemory(c, r)
  {
    hide MaskZ, AluFlags, SignBit, BitOr, ShiftLeft, Flag, OwnedBits;
    Run2(ShlImm(W64, t2, 6), OrRR(W64, t1, t2), c, o);
    ShiftedFlag(z);
    JoinOwned(cf, z, false);
  }

  lemma CountOutcome(op: VexOp, w: Width, s: Word, s2: Word, flags: Word)
    requires op.BMI_TZCNT? || op.BMI_LZCNT?
    ensures var x, n := MaskZ(s, w), w.Bits();
      var r := if x.v == 0 then Count(n)
               else if op.BMI_TZCNT? then Count(LowestBit(x, n, 0))
               else Count(n - 1 - HighestBit(x, n - 1));
      Exec(op, w, s, s2, flags) == Outcome(r, SetFlags(flags, x.v == 0, MaskZ(r, w).v == 0, false, false))
  {
    hide MaskZ, SetFlags, Bit, TrailingFrom, LeadingFrom, LowestBit, HighestBit, Count;
    var x, n := MaskZ(s, w), w.Bits();
    SmallCount(n, w);
    if x.v != 0 {
      NonzeroHasBit(s, w);
      var k := if op.BMI_TZCNT? then TrailingFrom(x, n, 0) else LeadingFrom(x, n, 0);
      LowestIsTrailing(x, n, 0);
      HighestIsLeading(x, n, 0);
      SmallCount(k, w);
    }
  }

  lemma MaskTwice(x: Word, w: Width)
    ensures MaskZ(MaskZ(x, w), w) == MaskZ(x, w)
  {}

  // -------------------------------------------------------------------- ANDN

  lemma AndnWord(a: Word, b: Word, w: Width)
    ensures MaskZ(MaskZ(BitAnd(MaskZ(BitNot(MaskZ(a, w)), w), b), w), w) == AndnResult(a, b, w)
  {
    if w.W32? { AndnLow(a.v, b.v); }
  }

  lemma AndnLow(a: bv64, b: bv64)
    ensures ((!(a & 0xffff_ffff) & 0xffff_ffff) & b) & 0xffff_ffff & 0xffff_ffff
              == (!(a & 0xffff_ffff) & (b & 0xffff_ffff)) & 0xffff_ffff
  {}

  function AndnResult(a: Word, b: Word, w: Width): Word {
    MaskZ(W(!MaskZ(a, w).v & MaskZ(b, w).v), w)
  }

  lemma AndnValueCorrect(c: Cpu, w: Width, d: Gpr, s1: Gpr, s2: Gpr, t1: Gpr, o: Oracle)
    requires t1 != d && t1 != s1 && t1 != s2
    ensures var r := Run(AndnValue(w, d, s1, s2, t1), c, o);
      && SameExcept(c.regs, r.regs, d, t1, t1)
      && r.regs[d] == AndnResult(c.regs[s1], c.regs[s2], w)
      && SameMemory(c, r)
  {
    hide MaskZ, AluFlags, SignBit, BitAnd, BitNot, AndnResult;
    Run4(MovRR(w, t1, s1), NotR(w, t1), AndRR(w, t1, s2), MovRR(w, d, t1), c, o);
    AndnWord(c.regs[s1], c.regs[s2], w);
  }

  lemma ClearBoth(c: Cpu, t1: Gpr, t2: Gpr, o: Oracle)
    requires t1 != t2
    ensures var r := Run([XorRR(W64, t1, t1), XorRR(W64, t2, t2)], c, o);
      && r.regs == c.regs[t1 := W(0)][t2 := W(0)]
      && SameMemory(c, r)
  {
    hide MaskZ, AluFlags, SignBit, BitXor;
    Run2(XorRR(W64, t1, t1), XorRR(W64, t2, t2), c, o);
    SelfXor(c.regs[t1]);
    SelfXor(c.regs[t2]);
  }

  lemma SelfXor(x: Word)
    ensures MaskZ(BitXor(x, x), W64) == W(0)
    ensures WithByte(W(0), true) == Flag(true) && WithByte(W(0), false) == Flag(false)
  {}

  /** T1 and T2 receive (D == 0) and sign(D). */
  lemma TestZeroSign(c: Cpu, w: Width, d: Gpr, t1: Gpr, t2: Gpr, o: Oracle)
    requires t1 != t2 && c.regs[t1] == W(0) && c.regs[t2] == W(0)
    ensures var r := Run([TestRR(w, d, d), SetZ(t1), SetS(t2)], c, o);
      var x := MaskZ(c.regs[d], w);
      && r.regs == c.regs[t1 := Flag(x.v == 0)][t2 := Flag(SignBit(x, w))]
      && SameMemory(c, r)
  {
    hide MaskZ, SignBit, Next, Flag;
    Run3(TestRR(w, d, d), SetZ(t1), SetS(t2), c, o);
    Tested(c, w, d, o);
    BothSet(Next(TestRR(w, d, d), c, o), t1, t2, o);
  }

  lemma Tested(c: Cpu, w: Width, d: Gpr, o: Oracle)
    ensures var a, x := Next(TestRR(w, d, d), c, o), MaskZ(c.regs[d], w);
      a.regs == c.regs && SameMemory(c, a) && Zero(a.flags) == (x.v == 0) && Sign(a.flags) == SignBit(x, w)
  {
    hide MaskZ, AluFlags, SignBit, BitAnd, Zero, Sign;
    var x := MaskZ(c.regs[d], w);
    SelfAnd(c.regs[d], w);
    AluZero(o(c.tick), x.v == 0, SignBit(x, w));
  }

  lemma BothSet(a: Cpu, t1: Gpr, t2: Gpr, o: Oracle)
    requires t1 != t2 && a.regs[t1] == W(0) && a.regs[t2] == W(0)
    ensures var r := Next(SetS(t2), Next(SetZ(t1), a, o), o);
      r.regs == a.regs[t1 := Flag(Zero(a.flags))][t2 := Flag(Sign(a.flags))] && SameMemory(a, r)
  {
    hide WithByte, Zero, Sign, Flag;
    SelfXor(W(0));
  }

  lemma PlaceZeroSign(c: Cpu, t1: Gpr, t2: Gpr, z: bool, s: bool, o: Oracle)
    requires t1 != t2 && c.regs[t1] == Flag(z) && c.regs[t2] == Flag(s)
    ensures var r := Run([ShlImm(W64, t1, 6), ShlImm(W64, t2, 7), OrRR(W64, t1, t2)], c, o);
      && SameExcept(c.regs, r.regs, t1, t2, t2)
      && r.regs[t1] == OwnedBits(false, z, s)
      && SameMemory(c, r)
  {
    hide MaskZ, AluFlags, SignBit, BitOr, ShiftLeft, Flag, OwnedBits;
    Run3(ShlImm(W64, t1, 6), ShlImm(W64, t2, 7), OrRR(W64, t1, t2), c, o);
    ShiftedFlag(z);
    ShiftedFlag(s);
    JoinOwned(false, z, s);
  }

  lemma AndnFlagsCorrect(c: Cpu, w: Width, d: Gpr, t1: Gpr, t2: Gpr, o: Oracle)
    requires t1 != t2 && t1 != d && t2 != d
    ensures var r := Run(AndnFlags(w, d, t1, t2), c, o);
      var x := MaskZ(c.regs[d], w);
      && SameExcept(c.regs, r.regs, t1, t2, t2)
      && r.regs[t1] == OwnedBits(false, x.v == 0, SignBit(x, w))
      && SameMemory(c, r)
  {
    hide MaskZ, SignBit, Flag, OwnedBits, Next, Run;
    var x := MaskZ(c.regs[d], w);
    var p1 := [XorRR(W64, t1, t1), XorRR(W64, t2, t2)];
    var p2 := [TestRR(w, d, d), SetZ(t1), SetS(t2)];
    var p3 := [ShlImm(W64, t1, 6), ShlImm(W64, t2, 7), OrRR(W64, t1, t2)];
    RunAppend(p1, p2 + p3, c, o);
    ClearBoth(c, t1, t2, o);
    var c1 := Run(p1, c, o);
    RunAppend(p2, p3, c1, o);
    TestZeroSign(c1, w, d, t1, t2, o);
    PlaceZeroSign(Run(p2, c1, o), t1, t2, x.v == 0, SignBit(x, w), o);
  }
}
