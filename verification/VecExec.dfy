/** The vector reference: vec_exec byte by byte, and avxemu_emulate for a vector destination. */
module VecExec {
  import opened Decoded

  /** 128 bits as bytes, lowest address first. */
  type Half = s: seq<bv8> | |s| == 16 witness [0, 0, 0, 0, 0, 0, 0, 0, 0, 0, 0, 0, 0, 0, 0, 0]

  /** One ymm register. */
  datatype Vec = Vec(lo: Half, hi: Half)

  const ZERO: Half := [0, 0, 0, 0, 0, 0, 0, 0, 0, 0, 0, 0, 0, 0, 0, 0]

  function ByteAt(v: Vec, i: nat): bv8
    requires i < 32
  {
    if i < 16 then v.lo[i] else v.hi[i - 16]
  }

  predicate BinaryOp(op: VexOp) {
    op.VPAND? || op.VPOR? || op.VPXOR? || op.VPSUBB? || op.VPCMPEQB? || op.VPCMPGTB?
  }

  predicate Modelled(op: VexOp) {
    BinaryOp(op) || op.VPBROADCASTD? || op.VPBROADCASTW? || op.VPMOVZXBW?
  }

  function Lane(op: VexOp, x: bv8, y: bv8): bv8
    requires BinaryOp(op)
  {
    match op
    case VPAND => x & y
    case VPOR => x | y
    case VPXOR => x ^ y
    case VPSUBB => x - y
    case VPCMPEQB => if x == y then 0xff else 0
    case VPCMPGTB => if x ^ 0x80 > y ^ 0x80 then 0xff else 0  // signed comparison
  }

  /** Byte i of the result of vec_exec. */
  function ResultByte(op: VexOp, a: Vec, b: Vec, i: nat): bv8
    requires Modelled(op) && i < 32
  {
    match op
    case VPBROADCASTD => ByteAt(b, i % 4)
    case VPBROADCASTW => ByteAt(b, i % 2)
    case VPMOVZXBW => if i % 2 == 0 then ByteAt(b, i / 2) else 0
    case _ => Lane(op, ByteAt(a, i), ByteAt(b, i))
  }

  function Result(op: VexOp, a: Vec, b: Vec): Vec
    requires Modelled(op)
  {
    Vec(seq(16, i requires 0 <= i < 16 => ResultByte(op, a, b, i)),
        seq(16, i requires 0 <= i < 16 => ResultByte(op, a, b, 16 + i)))
  }

  // ------------------------------------------------------------ register file

  const M64 := 0x1_0000_0000_0000_0000

  type Address = a: int | 0 <= a < M64

  type Mem = Address -> bv8

  function Wrap(x: int): Address { x % M64 }

  datatype RegFile = RegFile(ymm: seq<Vec>, gpr: seq<Address>, rflags: Address)

  predicate ValidFile(rf: RegFile) { |rf.ymm| == 16 && |rf.gpr| == 16 }

  /** n bytes of memory at a, zero-extended to a register. */
  function MemVec(m: Mem, a: Address, n: nat): Vec {
    Vec(seq(16, i requires 0 <= i < 16 => if i < n then m(Wrap(a + i)) else 0),
        seq(16, i requires 0 <= i < 16 => if 16 + i < n then m(Wrap(a + 16 + i)) else 0))
  }

  /** ea_rf: displacement, next-instruction address if rip-relative, base, scaled index. */
  function EffectiveAddress(d: Insn, rf: RegFile, ripNext: Address): Address
    requires ValidFile(rf) && OperandOk(d)
  {
    var a0 := Wrap(d.disp);
    var a1 := if d.ripRel then Wrap(a0 + ripNext) else a0;
    var a2 := if d.base != OPND_NONE then Wrap(a1 + rf.gpr[d.base]) else a1;
    if d.index != OPND_NONE then Wrap(a2 + rf.gpr[d.index] * d.scale) else a2
  }

  predicate OperandOk(d: Insn) {
    && (d.base == OPND_NONE || 0 <= d.base <= 15)
    && (d.index == OPND_NONE || 0 <= d.index <= 15)
  }

  /** Bytes the decoder records for a memory operand of a supported instruction. */
  function MemSize(op: VexOp, wide: bool): nat {
    match op
    case VPBROADCASTD => 4
    case VPBROADCASTW => 2
    case VPMOVZXBW => 16
    case _ => if wide then 32 else 16
  }

  function SourceB(d: Insn, addr: Address, rf: RegFile, m: Mem): Vec
    requires ValidFile(rf) && OperandOk(d)
    requires d.bSrc == OPND_MEM || 0 <= d.bSrc <= 15
  {
    if d.bSrc == OPND_MEM
    then MemVec(m, EffectiveAddress(d, rf, Wrap(addr + d.len)), d.memBytes)
    else rf.ymm[d.bSrc]
  }

  /** avxemu_emulate: a 128-bit operation clears the upper half. */
  function Emulate(d: Insn, addr: Address, rf: RegFile, m: Mem): (r: RegFile)
    requires ValidFile(rf) && OperandOk(d) && Modelled(d.op)
    requires d.bSrc == OPND_MEM || 0 <= d.bSrc <= 15
    requires 0 <= d.dst <= 15 && (0 <= d.aSrc <= 15 || !BinaryOp(d.op))
    ensures ValidFile(r)
  {
    var a := if 0 <= d.aSrc <= 15 then rf.ymm[d.aSrc] else Vec(ZERO, ZERO);
    var x := Result(d.op, a, SourceB(d, addr, rf, m));
    rf.(ymm := rf.ymm[d.dst := Vec(x.lo, if d.wide then x.hi else ZERO)])
  }
}
