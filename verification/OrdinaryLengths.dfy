/**
 * The instructions compilers emit, by the pages of the manual: how long each is, from its own
 * parts, and that the length decoder finds that length whatever follows.
 */
module OrdinaryLengths {
  import opened ByteStrings
  import opened X86Len
  import B = Branches
  import ControlFlow
  import V = VexEncode

  /** Immediates: so many bytes, as wide as a 32-bit operand, or as wide as the register. */
  datatype Size = Bytes(n: nat) | OperandWide | RegisterWide

  /** Arguments are the fields of the opcode: operation, form, condition, register or extension. */
  datatype Kind =
    | Alu(op: nat, form: nat) | AluAl(op: nat) | AluEax(op: nat)
    | Push(r: nat) | Pop(r: nat) | Movsxd | PushWide | PushByte | ImulWide | ImulByte
    | GroupByte | GroupWide | GroupShort
    | Test(form: nat) | Xchg(form: nat) | Mov(form: nat) | Lea | PopOperand
    | XchgEax(r: nat) | Extend(form: nat) | MovAbsolute(form: nat)
    | Moves(form: nat) | Scans(form: nat) | TestAl | TestEax
    | MovByte(r: nat) | MovRegister(r: nat) | ShiftBy(form: nat) | Shift(form: nat)
    | MovToByte | MovToWide | RetPop | Ret | Enter | Leave | Int3 | Int
    | Float(op: nat) | InOut(form: nat) | Call
    | UnaryByte(ext: nat) | UnaryWide(ext: nat) | IncDec | Group5 | FlagSet(form: nat)
    | Cmov(cc: nat) | Setcc(cc: nat) | Movzx(form: nat) | Movsx(form: nat) | Imul | NopOperand
    | BitTest(form: nat) | BitTestBy | DoubleShiftBy(form: nat) | DoubleShift(form: nat) | BitScan(form: nat)
    | Cmpxchg(form: nat) | Xadd(form: nat) | Bswap(r: nat) | Syscall | Rdtsc | Cpuid
    | Sse(op: nat) | SseShuffle(form: nat) | SseCompare | SsePick(form: nat)
    | Map38(op: nat) | Map3A(op: nat)

  datatype Page = One | Two | Three38 | Three3A

  /** The opcode's page and byte, whether ModRM follows, and the immediate. */
  datatype Form = Form(page: Page, op: nat, operand: bool, imm: Size)

  predicate KindOk(k: Kind) {
    match k
    case Alu(op, form) => op < 8 && form < 4
    case AluAl(op) => op < 8
    case AluEax(op) => op < 8
    case Push(r) => r < 8
    case Pop(r) => r < 8
    case Test(f) => f < 2
    case Xchg(f) => f < 2
    case Mov(f) => f < 4
    case XchgEax(r) => r < 8
    case Extend(f) => f < 2
    case MovAbsolute(f) => f < 4
    case Moves(f) => f < 4
    case Scans(f) => f < 6
    case MovByte(r) => r < 8
    case MovRegister(r) => r < 8
    case ShiftBy(f) => f < 2
    case Shift(f) => f < 4
    case Float(op) => op < 8
    case InOut(f) => f < 4
    case UnaryByte(e) => e < 8
    case UnaryWide(e) => e < 8
    case FlagSet(f) => f < 6
    case Cmov(cc) => cc < 16
    case Setcc(cc) => cc < 16
    case Movzx(f) => f < 2
    case Movsx(f) => f < 2
    case BitTest(f) => f < 4
    case DoubleShiftBy(f) => f < 2
    case DoubleShift(f) => f < 2
    case BitScan(f) => f < 2
    case Cmpxchg(f) => f < 2
    case Xadd(f) => f < 2
    case Bswap(r) => r < 8
    case Sse(op) =>
      0x10 <= op <= 0x17 || 0x28 <= op <= 0x2F || 0x50 <= op <= 0x6F || 0x74 <= op <= 0x76 || 0x7C <= op <= 0x7F
      || 0xD0 <= op <= 0xFE
    case SseShuffle(f) => f < 4
    case SsePick(f) => f < 3
    case Map38(op) => op < 0x100
    case Map3A(op) => op < 0x100
    case _ => true
  }

  function FormOf(k: Kind): Form
    requires KindOk(k)
  {
    match k
    case Alu(op, form) => Form(One, 8 * op + form, true, Bytes(0))
    case AluAl(op) => Form(One, 8 * op + 4, false, Bytes(1))
    case AluEax(op) => Form(One, 8 * op + 5, false, OperandWide)
    case Push(r) => Form(One, 0x50 + r, false, Bytes(0))
    case Pop(r) => Form(One, 0x58 + r, false, Bytes(0))
    case Movsxd => Form(One, 0x63, true, Bytes(0))
    case PushWide => Form(One, 0x68, false, OperandWide)
    case ImulWide => Form(One, 0x69, true, OperandWide)
    case PushByte => Form(One, 0x6A, false, Bytes(1))
    case ImulByte => Form(One, 0x6B, true, Bytes(1))
    case GroupByte => Form(One, 0x80, true, Bytes(1))
    case GroupWide => Form(One, 0x81, true, OperandWide)
    case GroupShort => Form(One, 0x83, true, Bytes(1))
    case Test(f) => Form(One, 0x84 + f, true, Bytes(0))
    case Xchg(f) => Form(One, 0x86 + f, true, Bytes(0))
    case Mov(f) => Form(One, 0x88 + f, true, Bytes(0))
    case Lea => Form(One, 0x8D, true, Bytes(0))
    case PopOperand => Form(One, 0x8F, true, Bytes(0))
    case XchgEax(r) => Form(One, 0x90 + r, false, Bytes(0))
    case Extend(f) => Form(One, 0x98 + f, false, Bytes(0))
    case MovAbsolute(f) => Form(One, 0xA0 + f, false, Bytes(8))
    case Moves(f) => Form(One, 0xA4 + f, false, Bytes(0))
    case TestAl => Form(One, 0xA8, false, Bytes(1))
    case TestEax => Form(One, 0xA9, false, OperandWide)
    case Scans(f) => Form(One, 0xAA + f, false, Bytes(0))
    case MovByte(r) => Form(One, 0xB0 + r, false, Bytes(1))
    case MovRegister(r) => Form(One, 0xB8 + r, false, RegisterWide)
    case ShiftBy(f) => Form(One, 0xC0 + f, true, Bytes(1))
    case RetPop => Form(One, 0xC2, false, Bytes(2))
    case Ret => Form(One, 0xC3, false, Bytes(0))
    case MovToByte => Form(One, 0xC6, true, Bytes(1))
    case MovToWide => Form(One, 0xC7, true, OperandWide)
    case Enter => Form(One, 0xC8, false, Bytes(3))
    case Leave => Form(One, 0xC9, false, Bytes(0))
    case Int3 => Form(One, 0xCC, false, Bytes(0))
    case Int => Form(One, 0xCD, false, Bytes(1))
    case Shift(f) => Form(One, 0xD0 + f, true, Bytes(0))
    case Float(op) => Form(One, 0xD8 + op, true, Bytes(0))
    case InOut(f) => Form(One, 0xE4 + f, false, Bytes(1))
    case Call => Form(One, 0xE8, false, OperandWide)
    case UnaryByte(e) => Form(One, 0xF6, true, Bytes(if e < 2 then 1 else 0))
    case UnaryWide(e) => Form(One, 0xF7, true, if e < 2 then OperandWide else Bytes(0))
    case FlagSet(f) => Form(One, 0xF8 + f, false, Bytes(0))
    case IncDec => Form(One, 0xFE, true, Bytes(0))
    case Group5 => Form(One, 0xFF, true, Bytes(0))
    case Syscall => Form(Two, 0x05, false, Bytes(0))
    case NopOperand => Form(Two, 0x1F, true, Bytes(0))
    case Rdtsc => Form(Two, 0x31, false, Bytes(0))
    case Cmov(cc) => Form(Two, 0x40 + cc, true, Bytes(0))
    case SseShuffle(f) => Form(Two, 0x70 + f, true, Bytes(1))
    case Setcc(cc) => Form(Two, 0x90 + cc, true, Bytes(0))
    case Cpuid => Form(Two, 0xA2, false, Bytes(0))
    case BitTest(f) => Form(Two, 0xA3 + 8 * f, true, Bytes(0))
    case DoubleShiftBy(f) => Form(Two, 0xA4 + 8 * f, true, Bytes(1))
    case DoubleShift(f) => Form(Two, 0xA5 + 8 * f, true, Bytes(0))
    case Imul => Form(Two, 0xAF, true, Bytes(0))
    case Cmpxchg(f) => Form(Two, 0xB0 + f, true, Bytes(0))
    case Movzx(f) => Form(Two, 0xB6 + f, true, Bytes(0))
    case BitTestBy => Form(Two, 0xBA, true, Bytes(1))
    case BitScan(f) => Form(Two, 0xBC + f, true, Bytes(0))
    case Movsx(f) => Form(Two, 0xBE + f, true, Bytes(0))
    case Xadd(f) => Form(Two, 0xC0 + f, true, Bytes(0))
    case SseCompare => Form(Two, 0xC2, true, Bytes(1))
    case SsePick(f) => Form(Two, 0xC4 + f, true, Bytes(1))
    case Bswap(r) => Form(Two, 0xC8 + r, false, Bytes(0))
    case Sse(op) => Form(Two, op, true, Bytes(0))
    case Map38(op) => Form(Three38, op, true, Bytes(0))
    case Map3A(op) => Form(Three3A, op, true, Bytes(1))
  }

  /** reg: the three bits beside the operand, which are the extension where the opcode has one. */
  datatype Insn = Insn(prefixes: Bytes, rex: Bytes, kind: Kind, reg: nat, rm: V.Operand, imm: Bytes)

  predicate RexWide(rex: Bytes) { |rex| == 1 && rex[0] / 8 % 2 == 1 }

  /** How many bytes of immediate the processor takes. */
  function ImmBytes(i: Insn): nat
    requires KindOk(i.kind)
  {
    var small := 0x66 in i.prefixes;
    match FormOf(i.kind).imm
    case Bytes(n) => n
    case OperandWide => if RexWide(i.rex) then 4 else if small then 2 else 4
    case RegisterWide => if RexWide(i.rex) then 8 else if small then 2 else 4
  }

  predicate ExtOk(i: Insn) { (i.kind.UnaryByte? || i.kind.UnaryWide?) ==> i.reg == i.kind.ext }

  predicate InsnOk(i: Insn) {
    && B.AllLegacy(i.prefixes) && B.RexOk(i.rex) && KindOk(i.kind) && i.reg < 8 && V.OperandOk(i.rm) && ExtOk(i)
    && |i.imm| == ImmBytes(i)
    && (i.kind.MovAbsolute? ==> 0x67 !in i.prefixes) && (i.kind.Call? ==> 0x66 !in i.prefixes)
  }

  /** What the decoder takes the operand-size prefix for even beside REX.W. */
  predicate Contradictory(i: Insn)
    requires KindOk(i.kind)
  {
    FormOf(i.kind).imm.OperandWide? && RexWide(i.rex) && 0x66 in i.prefixes
  }

  lemma OpcodeIsByte(k: Kind)
    requires KindOk(k)
    ensures FormOf(k).op < 0x100
  {}

  function Opcode(k: Kind): (s: Bytes)
    requires KindOk(k)
    ensures |s| > 0
  {
    OpcodeIsByte(k);
    match FormOf(k).page
    case One => [FormOf(k).op]
    case Two => [0x0F, FormOf(k).op]
    case Three38 => [0x0F, 0x38, FormOf(k).op]
    case Three3A => [0x0F, 0x3A, FormOf(k).op]
  }

  function Operand(i: Insn): Bytes
    requires InsnOk(i)
  {
    if FormOf(i.kind).operand then V.Modrm(i.reg, i.rm) else []
  }

  function Code(i: Insn): Bytes
    requires InsnOk(i)
  {
    i.prefixes + i.rex + (Opcode(i.kind) + Operand(i) + i.imm)
  }

  // -------------------------------------------------------------- ModRM

  lemma AfterOperand(s: Bytes, p: nat, reg: nat, x: V.Operand)
    requires V.OperandOk(x) && reg < 8 && V.At(s, p, V.Modrm(reg, x))
    ensures AfterModrm(s, p) == p + |V.Modrm(reg, x)| && s[p] / 8 % 8 == reg
  {
    hide B.Disp32, V.Fields, V.SibByte;
    var c := V.Modrm(reg, x);
    assert s[p + 0] == c[0];
    match x
    case Reg(n) => V.FieldsRead(3, reg, n % 8);
    case AtRip(v) => V.FieldsRead(0, reg, 5);
    case AtBase(base, d) => V.FieldsRead(V.Mod(d), reg, base % 8);
    case AtSib(base, index, scale, d) =>
      V.FieldsRead(V.Mod(d), reg, 4);
      V.SibFields(index, scale, base);
      assert s[p + 1] == c[1];
    case AtIndex(index, scale, v) =>
      V.FieldsRead(0, reg, 4);
      V.SibFields(index, scale, 5);
      assert s[p + 1] == c[1];
  }

  // ---------------------------------------------------------------- tables

  /** The decoder's code for an immediate. */
  function ImmCode(k: Kind): Imm
    requires KindOk(k)
  {
    match FormOf(k).imm
    case OperandWide => ImmZ
    case RegisterWide => ImmV
    case Bytes(n) =>
      if n == 0 then NoImm else if n == 1 then Imm8 else if n == 2 then Imm16 else if n == 3 then Imm.Enter else Moffs
  }

  lemma OneOperand(k: Kind)
    requires KindOk(k) && FormOf(k).page.One?
    ensures HasModrm1(FormOf(k).op) == FormOf(k).operand
  {}

  lemma OneUnary(k: Kind)
    requires KindOk(k) && FormOf(k).page.One?
    ensures (k.UnaryByte? <==> FormOf(k).op == 0xF6) && (k.UnaryWide? <==> FormOf(k).op == 0xF7)
  {}

  lemma OneImmAlu(k: Kind, op: Byte)
    requires KindOk(k) && FormOf(k).page.One? && op == FormOf(k).op && op < 0x40
    ensures Imm1(op) == ImmCode(k)
  {}

  lemma OneImmLow(k: Kind, op: Byte)
    requires KindOk(k) && FormOf(k).page.One? && op == FormOf(k).op && 0x40 <= op < 0x98
    ensures Imm1(op) == ImmCode(k)
  {}

  lemma OneImmHigh(k: Kind, op: Byte)
    requires KindOk(k) && FormOf(k).page.One? && op == FormOf(k).op && op >= 0x98 && !k.UnaryByte? && !k.UnaryWide?
    ensures Imm1(op) == ImmCode(k)
  {}

  lemma OneImm(k: Kind, op: Byte)
    requires KindOk(k) && FormOf(k).page.One? && op == FormOf(k).op && !k.UnaryByte? && !k.UnaryWide?
    ensures Imm1(op) == ImmCode(k)
  {
    hide FormOf, Imm1, ImmCode, KindOk;
    if op < 0x40 { OneImmAlu(k, op); } else if op < 0x98 { OneImmLow(k, op); } else { OneImmHigh(k, op); }
  }

  lemma OneApart(k: Kind)
    requires KindOk(k) && FormOf(k).page.One?
    ensures var op := FormOf(k).op;
      !IsPrefix(op) && !IsRex(op) && op != 0x0F && op != 0x62 && op != 0xC4 && op != 0xC5
  {}

  lemma TwoPage(k: Kind)
    requires KindOk(k) && FormOf(k).page.Two?
    ensures var op := FormOf(k).op;
      && HasModrm0F(op) == FormOf(k).operand && Imm0F(op) == ImmCode(k)
      && op != 0x0F && op != 0x38 && op != 0x3A
  {}

  lemma ThreePage(k: Kind)
    requires KindOk(k) && (FormOf(k).page.Three38? || FormOf(k).page.Three3A?)
    ensures FormOf(k).operand && FormOf(k).imm == Bytes(if FormOf(k).page.Three38? then 0 else 1)
  {}

  lemma ImmKnown(k: Kind)
    requires KindOk(k) && FormOf(k).imm.Bytes?
    ensures FormOf(k).imm.n in [0, 1, 2, 3, 8]
  {}

  // --------------------------------------------------------------- lengths

  /** What the decoder adds for the immediate: all of it, or two bytes short. */
  function Counted(i: Insn): int
    requires InsnOk(i)
  {
    |i.imm| - if Contradictory(i) then 2 else 0
  }

  lemma ImmCounted(i: Insn)
    requires InsnOk(i)
    ensures ImmSize(ImmCode(i.kind), 0x66 in i.prefixes, RexWide(i.rex)) == Counted(i)
  {
    hide FormOf, KindOk;
    if FormOf(i.kind).imm.Bytes? { ImmKnown(i.kind); }
  }

  /** Where the instruction's parts stand: opcode, operand, immediate. */
  ghost predicate Parts(s: Bytes, q: nat, i: Insn) {
    && InsnOk(i) && V.At(s, q, Opcode(i.kind)) && V.At(s, q + |Opcode(i.kind)|, Operand(i))
    && q + |Opcode(i.kind)| + |Operand(i)| + |i.imm| <= |s|
  }

  function PartsEnd(q: nat, i: Insn): int
    requires InsnOk(i)
  {
    q + |Opcode(i.kind)| + |Operand(i)| + Counted(i)
  }

  lemma OneEnd(s: Bytes, q: nat, i: Insn)
    requires Parts(s, q, i) && FormOf(i.kind).page.One?
    ensures q < |s| && AfterOpcode(s, q, 0x66 in i.prefixes, RexWide(i.rex)) == PartsEnd(q, i)
  {
    hide FormOf, KindOk, HasModrm1, Imm1, AfterModrm, ImmSize, V.Modrm, IsPrefix, IsRex, ImmCode, RexWide;
    OneOperand(i.kind);
    OneUnary(i.kind);
    OneApart(i.kind);
    ImmCounted(i);
    assert s[q + 0] == Opcode(i.kind)[0];
    if FormOf(i.kind).operand { AfterOperand(s, q + 1, i.reg, i.rm); }
    if i.kind.UnaryByte? || i.kind.UnaryWide? {
      UnaryImm(i);
    } else {
      OneImm(i.kind, s[q]);
    }
  }

  lemma UnaryImm(i: Insn)
    requires InsnOk(i) && (i.kind.UnaryByte? || i.kind.UnaryWide?)
    ensures FormOf(i.kind).operand
    ensures ImmCode(i.kind) == if i.reg >= 2 then NoImm else if i.kind.UnaryByte? then Imm8 else ImmZ
  {}

  lemma TwoEnd(s: Bytes, q: nat, i: Insn)
    requires Parts(s, q, i) && FormOf(i.kind).page.Two?
    ensures q < |s| && AfterOpcode(s, q, 0x66 in i.prefixes, RexWide(i.rex)) == PartsEnd(q, i)
  {
    hide FormOf, KindOk, HasModrm0F, Imm0F, AfterModrm, ImmSize, V.Modrm, ImmCode, RexWide;
    TwoPage(i.kind);
    ImmCounted(i);
    assert s[q + 0] == Opcode(i.kind)[0] && s[q + 1] == Opcode(i.kind)[1];
    if FormOf(i.kind).operand { AfterOperand(s, q + 2, i.reg, i.rm); }
  }

  lemma ThreeEnd(s: Bytes, q: nat, i: Insn)
    requires Parts(s, q, i) && (FormOf(i.kind).page.Three38? || FormOf(i.kind).page.Three3A?)
    ensures q < |s| && AfterOpcode(s, q, 0x66 in i.prefixes, RexWide(i.rex)) == PartsEnd(q, i)
  {
    hide FormOf, KindOk, AfterModrm, V.Modrm, RexWide;
    ThreePage(i.kind);
    assert s[q + 0] == Opcode(i.kind)[0] && s[q + 1] == Opcode(i.kind)[1];
    AfterOperand(s, q + 3, i.reg, i.rm);
  }

  lemma CodeLaid(i: Insn, rest: Bytes) returns (s: Bytes)
    requires InsnOk(i)
    ensures s == Code(i) + rest
    ensures B.Laid(s, i.prefixes, i.rex, Opcode(i.kind) + Operand(i) + i.imm)
  {
    hide V.Modrm, FormOf, KindOk, IsPrefix, IsRex, B.AllLegacy, B.RexOk;
    s := Code(i) + rest;
    if FormOf(i.kind).page.One? {
      OneApart(i.kind);
    } else {
      TwoByteFirst();
    }
    assert s[..|Code(i)|] == Code(i);
  }

  lemma TwoByteFirst()
    ensures !IsPrefix(0x0F) && !IsRex(0x0F)
  {}

  /**
   * The decoder finds the length the manual's pages give, whatever follows; beside REX.W it counts
   * an operand-wide immediate two bytes short exactly when the operand-size prefix is there too.
   */
  lemma LengthExact(i: Insn, rest: Bytes)
    requires InsnOk(i)
    ensures Length(Code(i) + rest).len == |Code(i)| - if Contradictory(i) then 2 else 0
  {
    hide V.Modrm, FormOf, KindOk, AfterOpcode, ScanPrefixes, B.AllLegacy, Opcode, ControlFlow.OpcodePos;
    var s := CodeLaid(i, rest);
    var code := Opcode(i.kind) + Operand(i) + i.imm;
    B.Layout(s, i.prefixes, i.rex, code);
    var q := |i.prefixes| + |i.rex|;
    PartsFound(s, q, i);
    match FormOf(i.kind).page
    case One => OneEnd(s, q, i);
    case Two => TwoEnd(s, q, i);
    case Three38 => ThreeEnd(s, q, i);
    case Three3A => ThreeEnd(s, q, i);
  }

  lemma PartsFound(s: Bytes, q: nat, i: Insn)
    requires InsnOk(i) && V.At(s, q, Opcode(i.kind) + Operand(i) + i.imm)
    ensures Parts(s, q, i)
  {
    hide V.Modrm, FormOf, KindOk, Opcode, Operand;
    var a, b := Opcode(i.kind), Operand(i);
    var code := a + b + i.imm;
    forall k | 0 <= k < |a|
      ensures s[q + k] == a[k]
    {
      assert s[q + k] == code[k];
    }
    forall k | 0 <= k < |b|
      ensures s[q + |a| + k] == b[k]
    {
      assert s[q + (|a| + k)] == code[|a| + k];
    }
  }

  // ----------------------------------------------------- lzcnt and tzcnt

  lemma {:induction false} LastF3(s: Bytes, i: nat, opsz: bool, f3: int)
    requires i <= |s| && f3 < i
    ensures var r := ScanPrefixes(s, i, opsz, f3);
      && (r.f3 == f3 || i <= r.f3 < r.n)
      && (r.f3 == f3 ==> forall k :: i <= k < r.n ==> s[k] != 0xF3)
      && forall k :: i <= r.f3 < k < r.n ==> s[k] != 0xF3
    decreases |s| - i
  {
    if i < |s| && IsPrefix(s[i]) { LastF3(s, i + 1, opsz || s[i] == 0x66, if s[i] == 0xF3 then i else f3); }
  }

  /** The sites to rewrite: bit scans with an F3 among their prefixes, the last of which is found. */
  predicate Scanning(i: Insn) { i.kind.BitScan? && 0xF3 in i.prefixes }

  lemma ScanOpcode(k: Kind)
    requires KindOk(k)
    ensures k.BitScan? <==> FormOf(k).page.Two? && (FormOf(k).op == 0xBC || FormOf(k).op == 0xBD)
    ensures k.BitScan? ==> FormOf(k).op == 0xBC + k.form
    ensures FormOf(k).page.One? ==> FormOf(k).op != 0x0F
  {}

  /** What Length reports beside a length. */
  lemma SiteRead(s: Bytes)
    requires Length(s).len > 0
    ensures var (f3, q) := (ScanPrefixes(s, 0, false, -1).f3, ControlFlow.OpcodePos(s));
      && Length(s).zk == (if f3 >= 0 && q + 1 < |s| && s[q] == 0x0F
           then (if s[q + 1] == 0xBD then 1 else if s[q + 1] == 0xBC then 2 else 0) else 0)
      && (Length(s).zk != 0 ==> Length(s).pfx == f3)
  {
    hide ScanPrefixes, AfterOpcode;
  }

  /** The first two opcode bytes tell a bit scan from everything else. */
  lemma ScanBytes(s: Bytes, q: nat, i: Insn)
    requires InsnOk(i) && V.At(s, q, Opcode(i.kind) + Operand(i) + i.imm)
    ensures i.kind.BitScan? ==> i.kind.form < 2 && q + 1 < |s| && s[q] == 0x0F && s[q + 1] == 0xBC + i.kind.form
    ensures !i.kind.BitScan? && q + 1 < |s| && s[q] == 0x0F ==> s[q + 1] != 0xBC && s[q + 1] != 0xBD
  {
    hide V.Modrm, FormOf, KindOk;
    PartsFound(s, q, i);
    ScanOpcode(i.kind);
    TwoForms(i.kind);
    assert s[q + 0] == Opcode(i.kind)[0];
    if |Opcode(i.kind)| > 1 { assert s[q + 1] == Opcode(i.kind)[1]; }
  }

  lemma TwoForms(k: Kind)
    requires KindOk(k)
    ensures k.BitScan? ==> k.form < 2
  {}

  lemma Located(s: Bytes, p: Bytes, f3: int)
    requires |p| <= |s| && (forall k :: 0 <= k < |p| ==> s[k] == p[k])
    requires f3 == -1 || (0 <= f3 < |p| && s[f3] == 0xF3)
    requires forall k :: f3 < k < |p| ==> s[k] != 0xF3
    ensures f3 >= 0 <==> 0xF3 in p
    ensures f3 >= 0 ==> p[f3] == 0xF3
    ensures forall k :: f3 < k < |p| && 0 <= k ==> p[k] != 0xF3
  {}

  lemma F3Found(s: Bytes, p: Bytes)
    requires |p| <= |s| && (forall k :: 0 <= k < |p| ==> s[k] == p[k]) && ControlFlow.AfterPrefixes(s) == |p|
    ensures var f3 := ScanPrefixes(s, 0, false, -1).f3;
      && (f3 >= 0 <==> 0xF3 in p) && f3 < |p| && (f3 >= 0 ==> p[f3] == 0xF3)
      && forall k :: f3 < k < |p| && 0 <= k ==> p[k] != 0xF3
  {
    hide ScanPrefixes;
    LastF3(s, 0, false, -1);
    PrefixesEnd(s);
    Located(s, p, ScanPrefixes(s, 0, false, -1).f3);
  }

  /** The two opcode bytes are where the decoder looks, and so are the prefixes. */
  lemma SiteStands(s: Bytes, i: Insn)
    requires InsnOk(i) && B.Laid(s, i.prefixes, i.rex, Opcode(i.kind) + Operand(i) + i.imm)
    ensures var q := ControlFlow.OpcodePos(s);
      && (i.kind.BitScan? ==> i.kind.form < 2 && q + 1 < |s| && s[q] == 0x0F && s[q + 1] == 0xBC + i.kind.form)
      && (!i.kind.BitScan? && q + 1 < |s| && s[q] == 0x0F ==> s[q + 1] != 0xBC && s[q + 1] != 0xBD)
    ensures |i.prefixes| <= |s| && ControlFlow.AfterPrefixes(s) == |i.prefixes|
    ensures forall k :: 0 <= k < |i.prefixes| ==> s[k] == i.prefixes[k]
  {
    hide V.Modrm, FormOf, KindOk, B.AllLegacy, B.RexOk, ControlFlow.OpcodePos, ScanPrefixes, Opcode, Operand;
    var code := Opcode(i.kind) + Operand(i) + i.imm;
    B.Layout(s, i.prefixes, i.rex, code);
    ScanBytes(s, |i.prefixes| + |i.rex|, i);
    var c := i.prefixes + i.rex + code;
    assert s[..|c|] == c;
    forall k | 0 <= k < |i.prefixes|
      ensures s[k] == i.prefixes[k]
    {
      assert s[k] == c[k];
    }
  }

  lemma SiteExact(i: Insn, rest: Bytes)
    requires InsnOk(i)
    ensures var r := Length(Code(i) + rest);
      && r.zk == (if Scanning(i) then 2 - i.kind.form else 0)
      && (Scanning(i) ==> 0 <= r.pfx < |i.prefixes| && i.prefixes[r.pfx] == 0xF3)
      && (Scanning(i) ==> forall k :: r.pfx < k < |i.prefixes| ==> i.prefixes[k] != 0xF3)
  {
    hide InsnOk, B.Laid, Code, Length, ScanPrefixes, Contradictory, Opcode, Operand, ControlFlow.OpcodePos,
         ControlFlow.AfterPrefixes;
    LengthExact(i, rest);
    CodeLonger(i);
    var s := CodeLaid(i, rest);
    SiteStands(s, i);
    F3Found(s, i.prefixes);
    SiteRead(s);
  }

  lemma PrefixesEnd(s: Bytes)
    ensures ControlFlow.AfterPrefixes(s) == ScanPrefixes(s, 0, false, -1).n
  {}

  lemma CodeLonger(i: Insn)
    requires InsnOk(i)
    ensures |Code(i)| > if Contradictory(i) then 2 else 0
  {
    hide FormOf, KindOk, V.Modrm;
  }

  /** add rax, 0x12345678 with the operand-size prefix: the processor takes seven bytes, the decoder five. */
  lemma WideAddShort(rest: Bytes)
    ensures Length([0x66, 0x48, 0x05, 0x78, 0x56, 0x34, 0x12] + rest).len == 5
  {
    var i := Insn([0x66], [0x48], AluEax(0), 0, V.Reg(0), [0x78, 0x56, 0x34, 0x12]);
    assert Code(i) == [0x66, 0x48, 0x05, 0x78, 0x56, 0x34, 0x12];
    LengthExact(i, rest);
  }
}
