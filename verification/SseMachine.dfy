/**
 * An interpreter for the SSE and address instructions of the native vector block.
 * The register file is the memory at rsi; program memory is everything rax can address.
 */
module SseMachine {
  import opened Decoded
  import opened VecExec
  import opened PackedLanes

  type Xmm = x: int | 0 <= x < 16

  datatype Instr =
    | MovdquLoadRf(x: Xmm, disp: int)         // movdqu xmm, [rsi+disp]
    | MovdquStoreRf(x: Xmm, disp: int)        // movdqu [rsi+disp], xmm
    | MovdLoadRf(x: Xmm, disp: int)           // movd xmm, [rsi+disp]
    | MovdquLoad(x: Xmm, disp: int)           // movdqu xmm, [rax+disp]
    | MovdLoad(x: Xmm)                        // movd xmm, [rax]
    | PinsrwLoad(x: Xmm)                      // pinsrw xmm, [rax], 0
    | PmovzxLoad(x: Xmm, disp: int)           // pmovzxbw xmm, [rax+disp]
    | Movdqa(x: Xmm, y: Xmm)
    | Packed(op: VexOp, x: Xmm, y: Xmm)       // the two-operand SSE form of op
    | Pshufd0(x: Xmm, y: Xmm)
    | Pshuflw0(x: Xmm, y: Xmm)
    | Pmovzx(x: Xmm, y: Xmm)
    | Psrldq8(x: Xmm)
    | MovabsRax(v: Address)
    | AddRaxRf(disp: int)                     // add rax, [rsi+disp]
    | MovRcxRf(disp: int)                     // mov rcx, [rsi+disp]
    | ShlRcx(k: nat)
    | AddRaxRcx

  datatype CpuState = CpuState(xmm: seq<Half>, rax: Address, rcx: Address, rf: RegFile)

  type Cpu = c: CpuState | |c.xmm| == 16 && ValidFile(c.rf)
    witness CpuState(seq(16, i => ZERO), 0, 0, RegFile(seq(16, i => Vec(ZERO, ZERO)), seq(16, i => 0), 0))

  const RF_GPR_OFF := 512

  /** The 16 bytes at displacement disp of the register file. */
  function LoadHalf(rf: RegFile, disp: int): Half
    requires ValidFile(rf)
  {
    if disp < 0 || disp >= RF_GPR_OFF || disp % 16 != 0 then ZERO
    else if disp % 32 == 0 then rf.ymm[disp / 32].lo else rf.ymm[disp / 32].hi
  }

  function StoreHalf(rf: RegFile, disp: int, h: Half): (r: RegFile)
    requires ValidFile(rf)
    ensures ValidFile(r)
  {
    if disp < 0 || disp >= RF_GPR_OFF || disp % 16 != 0 then rf
    else
      var v := rf.ymm[disp / 32];
      rf.(ymm := rf.ymm[disp / 32 := if disp % 32 == 0 then Vec(h, v.hi) else Vec(v.lo, h)])
  }

  function LoadGpr(rf: RegFile, disp: int): Address
    requires ValidFile(rf)
  {
    var k := disp - RF_GPR_OFF;
    if 0 <= k < 128 && k % 8 == 0 then rf.gpr[k / 8] else 0
  }

  function MemHalf(m: Mem, a: int): Half {
    seq(16, i requires 0 <= i < 16 => m(Wrap(a + i)))
  }

  /** A doubleword load: the other twelve bytes become zero. */
  function LowDword(h: Half): Half { seq(16, i requires 0 <= i < 16 => if i < 4 then h[i] else 0) }

  function WithWord0(x: Half, h: Half): Half {
    seq(16, i requires 0 <= i < 16 => if i < 2 then h[i] else x[i])
  }

  function Spread4(h: Half): Half { seq(16, i requires 0 <= i < 16 => h[i % 4]) }

  function SpreadLow2(h: Half): Half {
    seq(16, i requires 0 <= i < 16 => if i < 8 then h[i % 2] else h[i])
  }

  function Widen(h: Half): Half {
    seq(16, i requires 0 <= i < 16 => if i % 2 == 0 then h[i / 2] else 0)
  }

  function DropLow8(h: Half): Half {
    seq(16, i requires 0 <= i < 16 => if i < 8 then h[i + 8] else 0)
  }

  function Lanes(op: VexOp, x: Half, y: Half): Half {
    if BinaryOp(op) then seq(16, i requires 0 <= i < 16 => PackedByte(op, x[i], y[i])) else x
  }

  function ShiftLeft(v: Address, k: nat): Address
    decreases k
  {
    if k == 0 then v else ShiftLeft(Wrap(v * 2), k - 1)
  }

  function Set(c: Cpu, x: Xmm, h: Half): Cpu { c.(xmm := c.xmm[x := h]) }

  function Step(i: Instr, c: Cpu, m: Mem): Cpu {
    match i
    case MovdquLoadRf(x, disp) => Set(c, x, LoadHalf(c.rf, disp))
    case MovdquStoreRf(x, disp) => c.(rf := StoreHalf(c.rf, disp, c.xmm[x]))
    case MovdLoadRf(x, disp) => Set(c, x, LowDword(LoadHalf(c.rf, disp)))
    case MovdquLoad(x, disp) => Set(c, x, MemHalf(m, c.rax + disp))
    case MovdLoad(x) => Set(c, x, LowDword(MemHalf(m, c.rax)))
    case PinsrwLoad(x) => Set(c, x, WithWord0(c.xmm[x], MemHalf(m, c.rax)))
    case PmovzxLoad(x, disp) => Set(c, x, Widen(MemHalf(m, c.rax + disp)))
    case Movdqa(x, y) => Set(c, x, c.xmm[y])
    case Packed(op, x, y) => Set(c, x, Lanes(op, c.xmm[x], c.xmm[y]))
    case Pshufd0(x, y) => Set(c, x, Spread4(c.xmm[y]))
    case Pshuflw0(x, y) => Set(c, x, SpreadLow2(c.xmm[y]))
    case Pmovzx(x, y) => Set(c, x, Widen(c.xmm[y]))
    case Psrldq8(x) => Set(c, x, DropLow8(c.xmm[x]))
    case MovabsRax(v) => c.(rax := v)
    case AddRaxRf(disp) => c.(rax := Wrap(c.rax + LoadGpr(c.rf, disp)))
    case MovRcxRf(disp) => c.(rcx := LoadGpr(c.rf, disp))
    case ShlRcx(k) => c.(rcx := ShiftLeft(c.rcx, k))
    case AddRaxRcx => c.(rax := Wrap(c.rax + c.rcx))
  }

  function Run(p: seq<Instr>, c: Cpu, m: Mem): Cpu
    decreases |p|
  {
    if p == [] then c else Run(p[1..], Step(p[0], c, m), m)
  }

  lemma {:induction false} RunAppend(p: seq<Instr>, q: seq<Instr>, c: Cpu, m: Mem)
    ensures Run(p + q, c, m) == Run(q, Run(p, c, m), m)
    decreases |p|
  {
    hide Step;
    if p == [] {
      assert p + q == q;
    } else {
      assert (p + q)[1..] == p[1..] + q;
      RunAppend(p[1..], q, Step(p[0], c, m), m);
    }
  }

  lemma Run1(a: Instr, c: Cpu, m: Mem)
    ensures Run([a], c, m) == Step(a, c, m)
  {
    hide Step;
    assert [a][1..] == [];
    assert Run([a], c, m) == Run([], Step(a, c, m), m);
  }

  lemma Run2(a: Instr, b: Instr, c: Cpu, m: Mem)
    ensures Run([a, b], c, m) == Step(b, Step(a, c, m), m)
  {
    hide Step;
    assert [a, b][1..] == [b];
    Run1(b, Step(a, c, m), m);
  }

  lemma Run3(a: Instr, b: Instr, e: Instr, c: Cpu, m: Mem)
    ensures Run([a, b, e], c, m) == Step(e, Step(b, Step(a, c, m), m), m)
  {
    hide Step;
    assert [a, b, e][1..] == [b, e];
    Run2(b, e, Step(a, c, m), m);
  }
}
