/**
 * VEX and legacy instructions put together field by field, as section 2.3 of volume 2 of the
 * Intel 64 manual lays them out, with the opcode numbers of its instruction pages; and what the
 * emulator's decoder reads from them.
 */
module VexEncode {
  import opened Decoded
  import opened ByteStrings
  import opened VexDecode
  import opened Branches

  // ------------------------------------------------------------- operands

  datatype Disp = D0 | D8(v: int) | D32(v: int)

  /** A register, or memory at rip, at a base, at a scaled index, or at both. */
  datatype Operand =
    | Reg(n: nat)
    | AtRip(v: int)
    | AtBase(base: nat, d: Disp)
    | AtSib(base: nat, index: int, scale: nat, d: Disp)
    | AtIndex(index: int, scale: nat, v: int)

  predicate DispOk(d: Disp) {
    match d
    case D0 => true
    case D8(v) => -0x80 <= v <= 0x7F
    case D32(v) => -0x8000_0000 <= v <= 0x7FFF_FFFF
  }

  predicate ScaleOk(s: nat) { s == 1 || s == 2 || s == 4 || s == 8 }

  /** index -1: none; register 4 cannot be one. */
  predicate IndexOk(i: int) { -1 <= i < 16 && i != 4 }

  predicate OperandOk(x: Operand) {
    match x
    case Reg(n) => n < 16
    case AtRip(v) => DispOk(D32(v))
    case AtBase(base, d) => base < 16 && base % 8 != 4 && DispOk(d) && (d.D0? ==> base % 8 != 5)
    case AtSib(base, index, scale, d) =>
      base < 16 && IndexOk(index) && ScaleOk(scale) && DispOk(d) && (d.D0? ==> base % 8 != 5)
    case AtIndex(index, scale, v) => IndexOk(index) && ScaleOk(scale) && DispOk(D32(v))
  }

  function DispBytes(d: Disp): Bytes
    requires DispOk(d)
  {
    match d
    case D0 => []
    case D8(v) => Disp8(v)
    case D32(v) => Disp32(v)
  }

  function Mod(d: Disp): nat { if d.D0? then 0 else if d.D8? then 1 else 2 }

  function Log(scale: nat): nat { if scale == 1 then 0 else if scale == 2 then 1 else if scale == 4 then 2 else 3 }

  /** Three fields of a byte: two bits, three bits, three bits. */
  function Fields(a: nat, b: nat, c: nat): Byte
    requires a < 4 && b < 8 && c < 8
  {
    64 * a + 8 * b + c
  }

  function SibByte(index: int, scale: nat, base: nat): Byte
    requires IndexOk(index) && ScaleOk(scale)
  {
    Fields(Log(scale), if index < 0 then 4 else index % 8, base % 8)
  }

  /** ModRM, SIB and displacement; reg is the low three bits of the register field. */
  function Modrm(reg: nat, x: Operand): (s: Bytes)
    requires OperandOk(x) && reg < 8
    ensures |s| > 0
  {
    match x
    case Reg(n) => [Fields(3, reg, n % 8)]
    case AtRip(v) => [Fields(0, reg, 5)] + Disp32(v)
    case AtBase(base, d) => [Fields(Mod(d), reg, base % 8)] + DispBytes(d)
    case AtSib(base, index, scale, d) => [Fields(Mod(d), reg, 4), SibByte(index, scale, base)] + DispBytes(d)
    case AtIndex(index, scale, v) => [Fields(0, reg, 4), SibByte(index, scale, 5)] + Disp32(v)
  }

  /** The extension bits of the index and of the register or base. */
  predicate ExtX(x: Operand) { (x.AtSib? || x.AtIndex?) && x.index >= 8 }

  predicate ExtB(x: Operand) { (x.Reg? && x.n >= 8) || ((x.AtBase? || x.AtSib?) && x.base >= 8) }

  // --------------------------------------------------- what is meant by it

  function RegOf(x: Operand): int { if x.Reg? then x.n else -1 }

  function BaseOf(x: Operand): int { if x.AtBase? || x.AtSib? then x.base else OPND_NONE }

  function IndexOf(x: Operand): int { if (x.AtSib? || x.AtIndex?) && x.index >= 0 then x.index else OPND_NONE }

  function ScaleOf(x: Operand): nat { if x.AtSib? || x.AtIndex? then x.scale else 1 }

  function DispOf(x: Operand): int {
    match x
    case Reg(_) => 0
    case AtRip(v) => v
    case AtBase(_, d) => if d.D0? then 0 else d.v
    case AtSib(_, _, _, d) => if d.D0? then 0 else d.v
    case AtIndex(_, _, v) => v
  }

  function Meant(x: Operand, n: nat): VexDecode.Modrm {
    VexDecode.Modrm.Modrm(RegOf(x), !x.Reg?, BaseOf(x), IndexOf(x), ScaleOf(x), DispOf(x), x.AtRip?, n)
  }

  ghost predicate At(s: Bytes, i: nat, c: Bytes) { i + |c| <= |s| && forall k :: 0 <= k < |c| ==> s[i + k] == c[k] }

  lemma FieldsRead(a: nat, b: nat, c: nat)
    requires a < 4 && b < 8 && c < 8
    ensures var v := Fields(a, b, c); v / 64 == a && v / 8 % 8 == b && v % 8 == c
  {
    var v: nat := Fields(a, b, c);
    assert v == 8 * (8 * a + b) + c;
    assert v / 8 == 8 * a + b;
  }

  lemma DispRead(s: Bytes, i: nat, n: nat, d: Disp, base: int, index: int, scale: nat, rip: bool)
    requires DispOk(d) && At(s, i + n, DispBytes(d))
    ensures WithDisp(s, i, Mod(d), false, n, base, index, scale, rip) ==
      VexDecode.Modrm.Modrm(-1, true, base, index, scale, if d.D0? then 0 else d.v, rip, n + |DispBytes(d)|)
  {
    hide Disp32, Signed32;
    var c := DispBytes(d);
    match d
    case D0 =>
    case D8(v) =>
      assert s[i + n + 0] == c[0];
      Disp8Read(v);
    case D32(v) =>
      forall k | 0 <= k < 4
        ensures s[i + n + k] == Disp32(v)[k]
      {
        assert s[i + n + k] == c[k];
      }
      Disp32Read(s, i + n, v);
  }

  lemma WideDispRead(s: Bytes, i: nat, n: nat, v: int, mod: int, base: int, index: int, scale: nat, rip: bool)
    requires DispOk(D32(v)) && At(s, i + n, Disp32(v))
    ensures WithDisp(s, i, mod, true, n, base, index, scale, rip) ==
      VexDecode.Modrm.Modrm(-1, true, base, index, scale, v, rip, n + 4)
  {
    hide Disp32, Signed32;
    Disp32Read(s, i + n, v);
  }

  lemma AtTail(s: Bytes, i: nat, c: Bytes, d: Bytes)
    requires At(s, i, c + d)
    ensures At(s, i, c) && At(s, i + |c|, d)
  {
    forall k | 0 <= k < |d|
      ensures s[i + |c| + k] == d[k]
    {
      assert s[i + (|c| + k)] == (c + d)[|c| + k];
    }
    forall k | 0 <= k < |c|
      ensures s[i + k] == c[k]
    {
      assert (c + d)[k] == c[k];
    }
  }

  /** The operand is read as it was meant, with its extension bits. */
  lemma ModrmRead(s: Bytes, i: nat, reg: nat, x: Operand)
    requires OperandOk(x) && reg < 8 && At(s, i, Modrm(reg, x))
    ensures ParseModrm(s, i, ExtX(x), ExtB(x)) == Meant(x, |Modrm(reg, x)|)
    ensures s[i] / 8 % 8 == reg
  {
    match x
    case Reg(n) => RegRead(s, i, reg, n);
    case AtRip(v) => RipRead(s, i, reg, v);
    case AtBase(base, d) => BaseRead(s, i, reg, base, d);
    case AtSib(base, index, scale, d) => SibRead(s, i, reg, base, index, scale, d);
    case AtIndex(index, scale, v) => IndexRead(s, i, reg, index, scale, v);
  }

  lemma RegRead(s: Bytes, i: nat, reg: nat, n: nat)
    requires n < 16 && reg < 8 && At(s, i, Modrm(reg, Reg(n)))
    ensures ParseModrm(s, i, false, n >= 8) == Meant(Reg(n), 1) && s[i] / 8 % 8 == reg
  {
    var head := Modrm(reg, Reg(n));
    assert s[i + 0] == head[0];
    FieldsRead(3, reg, n % 8);
    hide Fields, WithDisp;
  }

  lemma RipRead(s: Bytes, i: nat, reg: nat, v: int)
    requires reg < 8 && DispOk(D32(v)) && At(s, i, Modrm(reg, AtRip(v)))
    ensures ParseModrm(s, i, false, false) == Meant(AtRip(v), 5) && s[i] / 8 % 8 == reg
  {
    hide Disp32, WithDisp, Fields;
    FieldsRead(0, reg, 5);
    var head := [Fields(0, reg, 5)];
    AtTail(s, i, head, Disp32(v));
    assert s[i + 0] == head[0];
    WideDispRead(s, i, 1, v, 0, OPND_NONE, OPND_NONE, 1, true);
  }

  lemma BaseRead(s: Bytes, i: nat, reg: nat, base: nat, d: Disp)
    requires reg < 8 && OperandOk(AtBase(base, d)) && At(s, i, Modrm(reg, AtBase(base, d)))
    ensures ParseModrm(s, i, false, base >= 8) == Meant(AtBase(base, d), |Modrm(reg, AtBase(base, d))|)
    ensures s[i] / 8 % 8 == reg
  {
    hide DispBytes, WithDisp, Fields;
    FieldsRead(Mod(d), reg, base % 8);
    var head := [Fields(Mod(d), reg, base % 8)];
    AtTail(s, i, head, DispBytes(d));
    assert s[i + 0] == head[0];
    DispRead(s, i, 1, d, base, OPND_NONE, 1, false);
  }

  lemma SibFields(index: int, scale: nat, base: nat)
    requires IndexOk(index) && ScaleOk(scale)
    ensures var b := SibByte(index, scale, base);
      && b % 8 == base % 8 && Scale(b / 64) == scale
      && (if b / 8 % 8 == 4 && index < 8 then OPND_NONE else Extend(b / 8 % 8, index >= 8))
           == if index < 0 then OPND_NONE else index
  {
    FieldsRead(Log(scale), if index < 0 then 4 else index % 8, base % 8);
    hide Fields;
  }

  lemma SibRead(s: Bytes, i: nat, reg: nat, base: nat, index: int, scale: nat, d: Disp)
    requires reg < 8 && OperandOk(AtSib(base, index, scale, d)) && At(s, i, Modrm(reg, AtSib(base, index, scale, d)))
    ensures ParseModrm(s, i, index >= 8, base >= 8) ==
      Meant(AtSib(base, index, scale, d), |Modrm(reg, AtSib(base, index, scale, d))|)
    ensures s[i] / 8 % 8 == reg
  {
    hide DispBytes, WithDisp, Fields, SibByte, Scale;
    FieldsRead(Mod(d), reg, 4);
    SibFields(index, scale, base);
    var head := [Fields(Mod(d), reg, 4), SibByte(index, scale, base)];
    AtTail(s, i, head, DispBytes(d));
    assert s[i + 0] == head[0] && s[i + 1] == head[1];
    DispRead(s, i, 2, d, base, if index < 0 then OPND_NONE else index, scale, false);
  }

  lemma IndexRead(s: Bytes, i: nat, reg: nat, index: int, scale: nat, v: int)
    requires reg < 8 && OperandOk(AtIndex(index, scale, v)) && At(s, i, Modrm(reg, AtIndex(index, scale, v)))
    ensures ParseModrm(s, i, index >= 8, false) == Meant(AtIndex(index, scale, v), 6)
    ensures s[i] / 8 % 8 == reg
  {
    hide Disp32, WithDisp, Fields, SibByte, Scale;
    FieldsRead(0, reg, 4);
    SibFields(index, scale, 5);
    var head := [Fields(0, reg, 4), SibByte(index, scale, 5)];
    AtTail(s, i, head, Disp32(v));
    assert s[i + 0] == head[0] && s[i + 1] == head[1];
    WideDispRead(s, i, 2, v, 0, OPND_NONE, if index < 0 then OPND_NONE else index, scale, false);
  }

  // ------------------------------------------------------------ VEX

  datatype Segment = Plain | Fs | Gs

  function SegmentByte(g: Segment): Bytes {
    match g
    case Plain => []
    case Fs => [0x64]
    case Gs => [0x65]
  }

  function SegmentCode(g: Segment): nat { if g.Fs? then 2 else if g.Gs? then 1 else 0 }

  /** The opcode map, the prefix field and the opcode of an operation's page. */
  datatype Page = Page(opMap: nat, pp: nat, opcode: Byte)

  predicate Known(op: VexOp) { !op.OtherOp? && !op.BMI_TZCNT? && !op.BMI_LZCNT? }

  function PageOf(op: VexOp): Page
    requires Known(op)
  {
    match op
    case VPAND => Page(1, 1, 0xDB)
    case VPOR => Page(1, 1, 0xEB)
    case VPXOR => Page(1, 1, 0xEF)
    case VPSUBB => Page(1, 1, 0xF8)
    case VPCMPEQB => Page(1, 1, 0x74)
    case VPCMPGTB => Page(1, 1, 0x64)
    case VPBROADCASTD => Page(2, 1, 0x58)
    case VPBROADCASTW => Page(2, 1, 0x79)
    case VPMOVZXBW => Page(2, 1, 0x30)
    case BMI_ANDN => Page(2, 0, 0xF2)
    case BMI_SHLX => Page(2, 1, 0xF7)
  }

  /** reg: the ModRM register; v: the register in the VEX prefix, 0 where there is none; rm: the other operand. */
  datatype VexInsn = VexInsn(seg: Segment, op: VexOp, wide: bool, w: bool, reg: nat, v: nat, rm: Operand, short: bool)

  predicate Unary(op: VexOp) { op.VPBROADCASTD? || op.VPBROADCASTW? || op.VPMOVZXBW? }

  /** The two-byte prefix has no room for the map, W, X and B. */
  predicate InsnOk(i: VexInsn) {
    && Known(i.op) && i.reg < 16 && i.v < 16 && OperandOk(i.rm)
    && (Unary(i.op) ==> i.v == 0)
    && (i.short ==> PageOf(i.op).opMap == 1 && !i.w && !ExtX(i.rm) && !ExtB(i.rm))
  }

  function Bit(b: bool, v: nat): nat { if b then v else 0 }

  /** The extension and the second register are stored inverted. */
  function Prefix(i: VexInsn): (s: Bytes)
    requires InsnOk(i)
  {
    var p := PageOf(i.op);
    if i.short then [0xC5, Bit(i.reg < 8, 0x80) + 8 * (15 - i.v) + Bit(i.wide, 4) + p.pp]
    else
      [0xC4, Bit(i.reg < 8, 0x80) + Bit(!ExtX(i.rm), 0x40) + Bit(!ExtB(i.rm), 0x20) + p.opMap,
       Bit(i.w, 0x80) + 8 * (15 - i.v) + Bit(i.wide, 4) + p.pp]
  }

  function Encoded(i: VexInsn): Bytes
    requires InsnOk(i)
  {
    SegmentByte(i.seg) + (Prefix(i) + ([PageOf(i.op).opcode] + Modrm(i.reg % 8, i.rm)))
  }

  function OperandOf(x: Operand): int { if x.Reg? then x.n else OPND_MEM }

  /** Bytes a memory operand has. */
  function MemSize(i: VexInsn): nat {
    match i.op
    case VPBROADCASTD => 4
    case VPBROADCASTW => 2
    case VPMOVZXBW => 16
    case BMI_ANDN => if i.w then 8 else 4
    case BMI_SHLX => if i.w then 8 else 4
    case _ => if i.rm.Reg? then 0 else if i.wide then 32 else 16
  }

  /** The descriptor of the instruction. */
  function Described(i: VexInsn, len: nat): Insn {
    var bmi := i.op.BMI_ANDN? || i.op.BMI_SHLX?;
    Insn(
      i.op, len,
      if Unary(i.op) then OPND_NONE else if i.op.BMI_SHLX? then OperandOf(i.rm) else i.v,
      if i.op.BMI_SHLX? then i.v else OperandOf(i.rm),
      i.reg, if bmi then DstGpr else DstYmm, i.wide,
      BaseOf(i.rm), IndexOf(i.rm), ScaleOf(i.rm), DispOf(i.rm), i.rm.AtRip?, SegmentCode(i.seg),
      MemSize(i), bmi, if i.w then 64 else 32, OPND_NONE, false)
  }

  lemma LongPrefixRead(i: VexInsn)
    requires InsnOk(i) && !i.short
    ensures var p, b1: int, b2: int := PageOf(i.op), Prefix(i)[1], Prefix(i)[2];
      && b1 % 32 == p.opMap && b2 % 4 == p.pp && (b2 >= 128 <==> i.w) && (b2 / 4 % 2 == 1 <==> i.wide)
      && 15 - b2 / 8 % 16 == i.v && (b1 < 128 <==> i.reg >= 8)
      && (b1 / 64 % 2 == 0 <==> ExtX(i.rm)) && (b1 / 32 % 2 == 0 <==> ExtB(i.rm))
  {
    hide ExtX, ExtB, OperandOk;
    MapSmall(i.op);
    LongFields(Bit(i.reg < 8, 1), Bit(!ExtX(i.rm), 1), Bit(!ExtB(i.rm), 1), PageOf(i.op).opMap);
    TailFields(Bit(i.w, 1), 15 - i.v, Bit(i.wide, 1), PageOf(i.op).pp);
    hide PageOf;
  }

  lemma MapSmall(op: VexOp)
    requires Known(op)
    ensures 1 <= PageOf(op).opMap <= 2 && PageOf(op).pp <= 1
  {}

  lemma LongFields(r: nat, x: nat, b: nat, m: nat)
    requires r <= 1 && x <= 1 && b <= 1 && m < 32
    ensures var v := 0x80 * r + 0x40 * x + 0x20 * b + m;
      v % 32 == m && (v < 128 <==> r == 0) && v / 64 % 2 == x && v / 32 % 2 == b
  {}

  lemma TailFields(w: nat, v: nat, l: nat, pp: nat)
    requires w <= 1 && v < 16 && l <= 1 && pp < 4
    ensures var b := 0x80 * w + 8 * v + 4 * l + pp;
      b % 4 == pp && (b >= 128 <==> w == 1) && b / 4 % 2 == l && b / 8 % 16 == v
  {}

  lemma ShortPrefixRead(i: VexInsn)
    requires InsnOk(i) && i.short
    ensures var b1: int := Prefix(i)[1];
      && b1 % 4 == PageOf(i.op).pp && (b1 / 4 % 2 == 1 <==> i.wide) && 15 - b1 / 8 % 16 == i.v
      && (b1 < 128 <==> i.reg >= 8)
  {
    hide ExtX, ExtB, OperandOk;
    MapSmall(i.op);
    TailFields(Bit(i.reg < 8, 1), 15 - i.v, Bit(i.wide, 1), PageOf(i.op).pp);
    hide PageOf;
  }

  /** What the decoder has of the prefix when it comes to the opcode. */
  function PrefixOf(i: VexInsn, at: nat): Vex
    requires Known(i.op)
  {
    Vex(PageOf(i.op).opMap, PageOf(i.op).pp, i.w, i.wide, i.v, i.reg >= 8, ExtX(i.rm), ExtB(i.rm), at)
  }

  /** The operation its page names. */
  lemma PageRead(i: VexInsn, at: nat, ext: int)
    requires InsnOk(i)
    ensures var f := FormOf(PrefixOf(i, at), PageOf(i.op).opcode, ext);
      && f.Form? && f.op == i.op && f.imm == 0
      && f.wiring == WiringOf(i.op)
      && (if f.memBytes > 0 then f.memBytes else if i.rm.Reg? then 0 else if i.wide then 32 else 16) == MemSize(i)
  {
    hide ExtX, ExtB, OperandOk;
  }

  lemma OpcodeRead(s: Bytes, i: VexInsn, at: nat)
    requires InsnOk(i) && At(s, at, [PageOf(i.op).opcode] + Modrm(i.reg % 8, i.rm))
    ensures var d := Described(i, at + 1 + |Modrm(i.reg % 8, i.rm)|);
      DecodeVex(s, PrefixOf(i, at)) == Ok(d.(seg := 0))
  {
    hide Modrm, ParseModrm, FormOf, ExtX, ExtB, OperandOk, PageOf, Meant, Wire, Described, MemSize, Unary;
    var m := Modrm(i.reg % 8, i.rm);
    var c := [PageOf(i.op).opcode];
    AtTail(s, at, c, m);
    assert s[at + 0] == c[0];
    ModrmRead(s, at + 1, i.reg % 8, i.rm);
    PageRead(i, at, i.reg % 8);
    MeantIs(i.rm, |m|);
    Wired(i, at + 1 + |m|, |m|);
  }

  function WiringOf(op: VexOp): Wiring {
    if Unary(op) then RmB else if op.BMI_ANDN? then Gpr3 else if op.BMI_SHLX? then GprRm else Vvv
  }

  lemma MeantIs(x: Operand, n: nat)
    ensures Meant(x, n).Modrm? && Meant(x, n).n == n && Meant(x, n).hasMem == !x.Reg?
  {}

  /** The fields filled one after the other make up the descriptor. */
  lemma Wired(i: VexInsn, len: nat, n: nat)
    requires InsnOk(i)
    ensures var m, wiring := Meant(i.rm, n), WiringOf(i.op);
      Wire(WithMem(BLANK, m).(op := i.op, wide := i.wide, opsize := if i.w then 64 else 32,
                              isBmi := IsBmiWiring(wiring), len := len, memBytes := MemSize(i)),
           wiring, Extend(i.reg % 8, i.reg >= 8), i.v, m)
        == Described(i, len).(seg := 0)
  {
    Halved(i.reg);
    RmIs(i.rm, n);
    hide MemSize, OperandOk, ExtX, ExtB, DispOf, BaseOf, IndexOf, ScaleOf, OperandOf, Extend, RmOperand, RegOf;
  }

  lemma Halved(reg: nat)
    requires reg < 16
    ensures Extend(reg % 8, reg >= 8) == reg
  {}

  lemma RmIs(x: Operand, n: nat)
    ensures RmOperand(Meant(x, n)) == OperandOf(x)
  {}

  // ------------------------------------------------------- the round trip

  lemma PrefixRead(s: Bytes, i: VexInsn, p: nat)
    requires InsnOk(i) && At(s, p, Prefix(i) + ([PageOf(i.op).opcode] + Modrm(i.reg % 8, i.rm)))
    ensures DecodeInner(s, p) == DecodeVex(s, PrefixOf(i, p + |Prefix(i)|))
  {
    hide DecodeVex, Modrm, PageOf, ExtX, ExtB, OperandOk;
    var c, tail := Prefix(i), [PageOf(i.op).opcode] + Modrm(i.reg % 8, i.rm);
    AtTail(s, p, c, tail);
    assert s[p + 0] == c[0] && s[p + 1] == c[1];
    NoLegacy(s, p);
    if i.short {
      ShortPrefixRead(i);
      assert !i.w && !ExtX(i.rm) && !ExtB(i.rm) && PageOf(i.op).opMap == 1;
    } else {
      assert s[p + 2] == c[2];
      LongPrefixRead(i);
    }
    hide Prefix;
  }

  /** A VEX byte ends the legacy prefixes. */
  lemma NoLegacy(s: Bytes, p: nat)
    requires p + 3 < |s| && (s[p] == 0xC4 || s[p] == 0xC5)
    ensures var l := LegacyScan(s, Legacy(p, 0, false, false, false), 0); l.q == p && LegacyKindAt(s, l) == NotLegacy
  {}

  lemma SegmentRead(s: Bytes, g: Segment, c: Byte)
    requires At(s, 0, SegmentByte(g) + [c]) && c != 0x67 && !X86Len.IsSegment(c)
    ensures ScanPadding(s, 0, 0) == Padding(|SegmentByte(g)|, SegmentCode(g))
  {
    var code := SegmentByte(g) + [c];
    assert s[0 + (|code| - 1)] == code[|code| - 1] == c;
    if |code| == 2 { assert s[0 + 0] == code[0]; }
  }

  /**
   * Whatever follows, the decoder reads an assembled instruction as the instruction: the operation,
   * its width, its registers and its memory operand.
   */
  lemma DecodeEncoded(i: VexInsn, rest: Bytes)
    requires InsnOk(i)
    ensures Decode(Encoded(i) + rest) == Ok(Described(i, |Encoded(i)|))
  {
    hide DecodeInner, DecodeVex, Described, Modrm, PageOf, ExtX, ExtB, OperandOk, ScanPadding, Prefix, SegmentByte,
         SegmentCode, At;
    var s := Encoded(i) + rest;
    var g, head, tail := SegmentByte(i.seg), Prefix(i), [PageOf(i.op).opcode] + Modrm(i.reg % 8, i.rm);
    Leads(Encoded(i), rest);
    AtTail(s, 0, g, head + tail);
    AtTail(s, |g|, head, tail);
    FirstByte(i);
    AtNext(s, g, head, 0);
    SegmentRead(s, i.seg, head[0]);
    PrefixRead(s, i, |g|);
    OpcodeRead(s, i, |g| + |head|);
    LengthSmall(i);
    SegmentSet(i, |Encoded(i)|);
  }

  lemma Leads(c: Bytes, rest: Bytes)
    ensures At(c + rest, 0, c)
  {}

  /** Two pieces on end, cut after the first byte of the second. */
  lemma AtNext(s: Bytes, a: Bytes, c: Bytes, i: nat)
    requires At(s, i, a) && At(s, i + |a|, c) && |c| > 0
    ensures At(s, i, a + [c[0]])
  {
    assert s[i + |a| + 0] == c[0];
  }

  lemma FirstByte(i: VexInsn)
    requires InsnOk(i)
    ensures |Prefix(i)| > 0 && (Prefix(i)[0] == 0xC4 || Prefix(i)[0] == 0xC5)
  {}

  lemma LengthSmall(i: VexInsn)
    requires InsnOk(i)
    ensures |Encoded(i)| < 0x100
    ensures |Encoded(i)| == |SegmentByte(i.seg)| + |Prefix(i)| + 1 + |Modrm(i.reg % 8, i.rm)|
  {
    hide PageOf, ExtX, ExtB;
  }

  lemma SegmentSet(i: VexInsn, len: nat)
    ensures Described(i, len) == Described(i, len).(seg := 0).(len := len, seg := SegmentCode(i.seg))
  {}

  // ------------------------------------------------- tzcnt and lzcnt

  /** size: 16, 32 or 64 bits; rex: whether there is a REX byte, which some operands need. */
  datatype CountInsn = CountInsn(seg: Segment, leading: bool, size: nat, reg: nat, rm: Operand, rex: bool)

  predicate CountOk(i: CountInsn) {
    && (i.size == 16 || i.size == 32 || i.size == 64) && i.reg < 16 && OperandOk(i.rm)
    && (!i.rex ==> i.size != 64 && i.reg < 8 && !ExtX(i.rm) && !ExtB(i.rm))
  }

  function RexByte(i: CountInsn): Bytes {
    if !i.rex then []
    else [0x40 + Bit(i.size == 64, 8) + Bit(i.reg >= 8, 4) + Bit(ExtX(i.rm), 2) + Bit(ExtB(i.rm), 1)]
  }

  /** The operand-size prefix, F3, REX, the opcode. */
  function CountHead(i: CountInsn): Bytes {
    (if i.size == 16 then [0x66] else []) + [0xF3] + RexByte(i)
  }

  function CountOpcode(i: CountInsn): Bytes { [0x0F, if i.leading then 0xBD else 0xBC] }

  function CountCode(i: CountInsn): Bytes
    requires CountOk(i)
  {
    SegmentByte(i.seg) + (CountHead(i) + (CountOpcode(i) + Modrm(i.reg % 8, i.rm)))
  }

  function CountDescribed(i: CountInsn, len: nat): Insn {
    Insn(if i.leading then BMI_LZCNT else BMI_TZCNT, len, OperandOf(i.rm), OPND_NONE, i.reg, DstGpr, false,
         BaseOf(i.rm), IndexOf(i.rm), ScaleOf(i.rm), DispOf(i.rm), i.rm.AtRip?, SegmentCode(i.seg),
         i.size / 8, true, i.size, OPND_NONE, false)
  }

  lemma RexRead(i: CountInsn)
    requires CountOk(i) && i.rex
    ensures var c := RexByte(i)[0];
      && X86Len.IsRex(c) && RexW(c) == (i.size == 64) && RexR(c) == (i.reg >= 8)
      && RexX(c) == ExtX(i.rm) && RexB(c) == ExtB(i.rm)
  {
    hide ExtX, ExtB, OperandOk;
  }

  /** What the prefix loop has gathered at the opcode. */
  lemma HeadRead(s: Bytes, i: CountInsn, p: nat)
    requires CountOk(i) && At(s, p, CountHead(i) + CountOpcode(i))
    ensures var l := LegacyScan(s, Legacy(p, 0, false, false, false), 0);
      && l.q == p + |CountHead(i)| && l.hasF3 && l.has66 == (i.size == 16)
      && RexW(l.rex) == (i.size == 64) && RexR(l.rex) == (i.reg >= 8)
      && RexX(l.rex) == ExtX(i.rm) && RexB(l.rex) == ExtB(i.rm)
  {
    hide ExtX, ExtB, OperandOk;
    var h, o := CountHead(i), CountOpcode(i);
    AtTail(s, p, h, o);
    assert s[p + |h| + 0] == o[0];
    var l0 := Legacy(p, 0, false, false, false);
    var l1 := if i.size == 16 then AfterLegacyPrefix(l0, 0x66) else l0;
    var l2 := AfterLegacyPrefix(l1, 0xF3);
    var k := |h| - |RexByte(i)| - 1;
    assert s[p + k] == h[k] == 0xF3;
    if i.size == 16 { assert s[p + 0] == h[0] == 0x66; }
    if i.rex {
      assert s[p + (k + 1)] == h[k + 1] == RexByte(i)[0];
      RexRead(i);
      hide RexByte, RexW, RexR, RexX, RexB;
      assert LegacyScan(s, AfterRex(l2, s[p + k + 1]), k + 1) == AfterRex(l2, s[p + k + 1]);
      assert LegacyScan(s, l2, k + 1) == AfterRex(l2, s[p + k + 1]);
    } else {
      assert LegacyScan(s, l2, k + 1) == l2;
    }
    assert LegacyScan(s, l1, k) == LegacyScan(s, l2, k + 1);
    if i.size == 16 { assert LegacyScan(s, l0, 0) == LegacyScan(s, l1, 1); }
  }

  lemma CountRead(s: Bytes, i: CountInsn, p: nat)
    requires CountOk(i) && At(s, p, CountHead(i) + (CountOpcode(i) + Modrm(i.reg % 8, i.rm)))
    ensures var n := |CountHead(i)| + 2 + |Modrm(i.reg % 8, i.rm)|;
      DecodeInner(s, p) == Ok(CountDescribed(i, p + n).(seg := 0))
  {
    hide LegacyScan, Modrm, ParseModrm, ExtX, ExtB, OperandOk, Meant, CountHead, RexW, RexR, RexX, RexB;
    var h, o, m := CountHead(i), CountOpcode(i), Modrm(i.reg % 8, i.rm);
    assert h + (o + m) == h + o + m;
    AtTail(s, p, h + o, m);
    AtTail(s, p, h, o + m);
    AtTail(s, p + |h|, o, m);
    HeadRead(s, i, p);
    assert s[p + |h| + 0] == o[0] && s[p + |h| + 1] == o[1];
    ModrmRead(s, p + |h| + 2, i.reg % 8, i.rm);
    MeantIs(i.rm, |m|);
    CountFilled(i, p + |h| + 2 + |m|, |m|);
    hide CountDescribed, BLANK;
  }

  lemma CountFilled(i: CountInsn, len: nat, n: nat)
    requires CountOk(i)
    ensures var m := Meant(i.rm, n);
      WithMem(BLANK, m).(isBmi := true, opsize := i.size, memBytes := i.size / 8, len := len,
                         op := if i.leading then BMI_LZCNT else BMI_TZCNT,
                         dst := Extend(i.reg % 8, i.reg >= 8), dstKind := DstGpr, aSrc := RmOperand(m))
        == CountDescribed(i, len).(seg := 0)
  {
    Halved(i.reg);
    RmIs(i.rm, n);
    hide OperandOk, ExtX, ExtB, DispOf, BaseOf, IndexOf, ScaleOf, OperandOf, Extend, RmOperand, RegOf;
  }

  /** And tzcnt and lzcnt of every size, registers and memory alike. */
  lemma DecodeCount(i: CountInsn, rest: Bytes)
    requires CountOk(i)
    ensures Decode(CountCode(i) + rest) == Ok(CountDescribed(i, |CountCode(i)|))
  {
    hide DecodeInner, CountDescribed, Modrm, ExtX, ExtB, OperandOk, ScanPadding, CountHead, CountOpcode, SegmentByte,
         SegmentCode, At;
    var s := CountCode(i) + rest;
    var g, head, tail := SegmentByte(i.seg), CountHead(i), CountOpcode(i) + Modrm(i.reg % 8, i.rm);
    Leads(CountCode(i), rest);
    AtTail(s, 0, g, head + tail);
    AtTail(s, |g|, head, tail);
    CountFirst(i);
    AtNext(s, g, head, 0);
    SegmentRead(s, i.seg, head[0]);
    CountRead(s, i, |g|);
    CountSmall(i);
    CountSegment(i, |CountCode(i)|);
  }

  lemma CountFirst(i: CountInsn)
    ensures var h := CountHead(i); |h| > 0 && (h[0] == 0x66 || h[0] == 0xF3)
  {
    hide RexByte;
  }

  lemma CountSmall(i: CountInsn)
    requires CountOk(i)
    ensures |CountCode(i)| < 0x100
    ensures |CountCode(i)| == |SegmentByte(i.seg)| + |CountHead(i)| + 2 + |Modrm(i.reg % 8, i.rm)|
  {
    hide ExtX, ExtB;
  }

  lemma CountSegment(i: CountInsn, len: nat)
    ensures CountDescribed(i, len) == CountDescribed(i, len).(seg := 0).(len := len, seg := SegmentCode(i.seg))
  {}
}
