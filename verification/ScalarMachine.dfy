/**
 * An interpreter for the base-ISA instructions that the scalar emitters write.
 *
 * Addresses are displacements. Stack cells are named by their distance from the
 * value rsp had on entry to the block (rsp itself is that distance, zero on entry),
 * so different displacements are different addresses as long as a block stays within
 * 2^64 bytes. Register-file slots are named by their distance from rsi. A cell is one
 * quadword; an access that is not quadword-aligned relative to the entry rsp is a fault.
 *
 * Whatever the architecture leaves undefined (the bsf/bsr destination for a zero
 * source, and every status flag other than ZF and SF after an ALU operation, which no
 * emitted block reads) is drawn from an oracle, so a theorem holds for any outcome.
 */
module ScalarMachine {
  import opened BmiExec

  /** A general register other than rsp, by hardware number. */
  type Gpr = r: int | 0 <= r < 16 && r != RSP witness 0

  const RSP := 4
  const RCX: Gpr := 1

  type ShiftAmount = k: bv64 | k < 64

  datatype Instr =
    | LeaRsp(disp: int)
    | Pushfq
    | Popfq
    | Push(r: Gpr)
    | Pop(r: Gpr)
    | MovRR(w: Width, d: Gpr, s: Gpr)
    | MovImm32(d: Gpr, imm: Word)
    | NotR(w: Width, d: Gpr)
    | AndRR(w: Width, d: Gpr, s: Gpr)
    | OrRR(w: Width, d: Gpr, s: Gpr)
    | XorRR(w: Width, d: Gpr, s: Gpr)
    | SubRR(w: Width, d: Gpr, s: Gpr)
    | TestRR(w: Width, d: Gpr, s: Gpr)
    | ShlImm(w: Width, d: Gpr, k: ShiftAmount)
    | SetZ(d: Gpr)
    | SetS(d: Gpr)
    | CmovZ(w: Width, d: Gpr, s: Gpr)
    | Bsf(w: Width, d: Gpr, s: Gpr)
    | Bsr(w: Width, d: Gpr, s: Gpr)
    | AndRsp16(mask: Word)
    | OrRsp16(s: Gpr)
    | ShlRspCl(w: Width)
    | LoadSlot(w: Width, d: Gpr, slot: int)
    | StoreSlot(s: Gpr, slot: int)
    | AndImm(d: Gpr, mask: Word)

  datatype Undefined = Undefined(value: Word, flags: Word)

  type Oracle = nat -> Undefined

  datatype CpuState = CpuState(
    regs: seq<Word>,      // indexed by hardware number; entry RSP is not used
    rsp: int,             // displacement from the entry rsp
    flags: Word,
    stack: int -> Word,   // quadword at each displacement
    slots: int -> Word,   // quadword at each displacement from rsi
    tick: nat,            // instructions executed
    fault: bool)

  type Cpu = c: CpuState | |c.regs| == 16
    witness CpuState(seq(16, i => W(0)), 0, W(0), (x: int) => W(0), (x: int) => W(0), 0, false)

  function Poke(m: int -> Word, a: int, v: Word): int -> Word {
    (x: int) => if x == a then v else m(x)
  }

  /** ZF and SF as given; everything else from the oracle. */
  function AluFlags(u: Undefined, z: bool, s: bool): Word {
    W((u.flags.v & !0xc0) | (if z then FLAG_ZF else 0) | (if s then FLAG_SF else 0))
  }

  predicate Zero(flags: Word) { flags.v & FLAG_ZF != 0 }

  predicate Sign(flags: Word) { flags.v & FLAG_SF != 0 }

  function BitAnd(x: Word, y: Word): Word { W(x.v & y.v) }

  function BitOr(x: Word, y: Word): Word { W(x.v | y.v) }

  function BitXor(x: Word, y: Word): Word { W(x.v ^ y.v) }

  function BitNot(x: Word): Word { W(!x.v) }

  function Minus(x: Word, y: Word): Word {
    W(((x.v as int - y.v as int) % 0x1_0000_0000_0000_0000) as bv64)
  }

  /** v with its low byte replaced by 0 or 1. */
  function WithByte(v: Word, b: bool): Word { W((v.v & !0xff) | (if b then 1 else 0)) }

  function HighestBit(v: Word, i: nat): (r: nat)
    requires i < 64
    ensures r <= i
  {
    if i == 0 || Bit(v, i) then i else HighestBit(v, i - 1)
  }

  function LowestBit(v: Word, n: nat, i: nat): (r: nat)
    requires i <= n <= 64
    ensures r <= n
    decreases n - i
  {
    if i == n || Bit(v, i) then i else LowestBit(v, n, i + 1)
  }

  function SetReg(c: Cpu, d: Gpr, v: Word): Cpu {
    c.(regs := c.regs[d := v])
  }

  /** Writes an ALU result and the flags it produces. */
  function Alu(c: Cpu, u: Undefined, w: Width, d: Gpr, v: Word): Cpu {
    var x := MaskZ(v, w);
    c.(regs := c.regs[d := x], flags := AluFlags(u, x.v == 0, SignBit(x, w)))
  }

  function Test(c: Cpu, u: Undefined, w: Width, v: Word): Cpu {
    var x := MaskZ(v, w);
    c.(flags := AluFlags(u, x.v == 0, SignBit(x, w)))
  }

  function PushWord(c: Cpu, v: Word): Cpu {
    c.(rsp := c.rsp - 8, stack := Poke(c.stack, c.rsp - 8, v),
       fault := c.fault || c.rsp % 8 != 0)
  }

  function PopWord(c: Cpu): Cpu {
    c.(rsp := c.rsp + 8, fault := c.fault || c.rsp % 8 != 0)
  }

  /** Replaces the low byte of d. */
  function SetByte(c: Cpu, d: Gpr, b: bool): Cpu {
    SetReg(c, d, WithByte(c.regs[d], b))
  }

  /** bsf and bsr: ZF says whether the source was zero; the destination is then undefined. */
  function ScanForward(c: Cpu, u: Undefined, w: Width, d: Gpr, v: Word): Cpu {
    var x := MaskZ(v, w);
    SetReg(c, d, if x.v == 0 then u.value else Count(LowestBit(x, w.Bits(), 0)))
      .(flags := AluFlags(u, x.v == 0, Sign(u.flags)))
  }

  function ScanReverse(c: Cpu, u: Undefined, w: Width, d: Gpr, v: Word): Cpu {
    var x := MaskZ(v, w);
    SetReg(c, d, if x.v == 0 then u.value else Count(HighestBit(x, w.Bits() - 1)))
      .(flags := AluFlags(u, x.v == 0, Sign(u.flags)))
  }

  /** A read-modify-write of one stack quadword; the block never reads the flags it leaves. */
  function StackWrite(c: Cpu, u: Undefined, a: int, v: Word): Cpu {
    c.(stack := Poke(c.stack, a, v), fault := c.fault || a % 8 != 0, flags := u.flags)
  }

  function WithLowHalf(v: Word, x: Word): Word {
    W((v.v & 0xffff_ffff_0000_0000) | (x.v & 0xffff_ffff))
  }

  /** A shift of the low half (W32) or all of a quadword; a W32 shift keeps the high half. */
  function ShiftCell(w: Width, v: Word, count: Word): Word {
    var x := MaskZ(ShiftLeft(MaskZ(v, w), ShiftCount(count, w)), w);
    if w.W32? then WithLowHalf(v, x) else x
  }

  function Step(i: Instr, c: Cpu, u: Undefined): Cpu {
    match i
    case LeaRsp(disp) => c.(rsp := c.rsp + disp)
    case Pushfq => PushWord(c, c.flags)
    case Popfq => PopWord(c).(flags := c.stack(c.rsp))
    case Push(r) => PushWord(c, c.regs[r])
    case Pop(r) => SetReg(PopWord(c), r, c.stack(c.rsp))
    case MovRR(w, d, s) => SetReg(c, d, MaskZ(c.regs[s], w))
    case MovImm32(d, imm) => SetReg(c, d, imm)
    case NotR(w, d) => SetReg(c, d, MaskZ(BitNot(c.regs[d]), w))
    case AndRR(w, d, s) => Alu(c, u, w, d, BitAnd(c.regs[d], c.regs[s]))
    case OrRR(w, d, s) => Alu(c, u, w, d, BitOr(c.regs[d], c.regs[s]))
    case XorRR(w, d, s) => Alu(c, u, w, d, BitXor(c.regs[d], c.regs[s]))
    case SubRR(w, d, s) => Alu(c, u, w, d, Minus(c.regs[d], c.regs[s]))
    case TestRR(w, d, s) => Test(c, u, w, BitAnd(c.regs[d], c.regs[s]))
    case ShlImm(w, d, k) => Alu(c, u, w, d, ShiftLeft(c.regs[d], k))
    case SetZ(d) => SetByte(c, d, Zero(c.flags))
    case SetS(d) => SetByte(c, d, Sign(c.flags))
    case CmovZ(w, d, s) => SetReg(c, d, MaskZ(if Zero(c.flags) then c.regs[s] else c.regs[d], w))
    case Bsf(w, d, s) => ScanForward(c, u, w, d, c.regs[s])
    case Bsr(w, d, s) => ScanReverse(c, u, w, d, c.regs[s])
    case AndRsp16(mask) => StackWrite(c, u, c.rsp + 16, BitAnd(c.stack(c.rsp + 16), mask))
    case OrRsp16(s) => StackWrite(c, u, c.rsp + 16, BitOr(c.stack(c.rsp + 16), c.regs[s]))
    case ShlRspCl(w) => StackWrite(c, u, c.rsp, ShiftCell(w, c.stack(c.rsp), c.regs[RCX]))
    case LoadSlot(w, d, slot) => SetReg(c, d, MaskZ(c.slots(slot), w))
    case StoreSlot(s, slot) => c.(slots := Poke(c.slots, slot, c.regs[s]))
    case AndImm(d, mask) => Alu(c, u, W64, d, BitAnd(c.regs[d], mask))
  }

  function Next(i: Instr, c: Cpu, o: Oracle): Cpu {
    Step(i, c, o(c.tick)).(tick := c.tick + 1)
  }

  function Run(p: seq<Instr>, c: Cpu, o: Oracle): Cpu
    decreases |p|
  {
    if p == [] then c else Run(p[1..], Next(p[0], c, o), o)
  }

  /** Memory outside the 32 bytes just below the red zone is as it was. */
  ghost predicate Above(c0: Cpu, c: Cpu) {
    && (forall x :: x < -160 || -128 <= x ==> c.stack(x) == c0.stack(x))
    && c.slots == c0.slots
    && !c.fault
  }

  lemma {:induction false} RunAppend(p: seq<Instr>, q: seq<Instr>, c: Cpu, o: Oracle)
    ensures Run(p + q, c, o) == Run(q, Run(p, c, o), o)
    decreases |p|
  {
    hide Next;
    if p == [] {
      assert p + q == q;
    } else {
      assert (p + q)[1..] == p[1..] + q;
      RunAppend(p[1..], q, Next(p[0], c, o), o);
    }
  }

  lemma Run1(a: Instr, c: Cpu, o: Oracle)
    ensures Run([a], c, o) == Next(a, c, o)
  {
    hide Next;
    assert [a][1..] == [];
    assert Run([a], c, o) == Run([], Next(a, c, o), o);
  }

  lemma Run2(a: Instr, b: Instr, c: Cpu, o: Oracle)
    ensures Run([a, b], c, o) == Next(b, Next(a, c, o), o)
  {
    hide Next;
    assert [a, b][1..] == [b];
    Run1(b, Next(a, c, o), o);
  }

  lemma Run3(a: Instr, b: Instr, e: Instr, c: Cpu, o: Oracle)
    ensures Run([a, b, e], c, o) == Next(e, Next(b, Next(a, c, o), o), o)
  {
    hide Next;
    assert [a, b, e][1..] == [b, e];
    Run2(b, e, Next(a, c, o), o);
  }

  lemma Run4(a: Instr, b: Instr, e: Instr, f: Instr, c: Cpu, o: Oracle)
    ensures Run([a, b, e, f], c, o) == Next(f, Next(e, Next(b, Next(a, c, o), o), o), o)
  {
    hide Next;
    assert [a, b, e, f][1..] == [b, e, f];
    Run3(b, e, f, Next(a, c, o), o);
  }
}
