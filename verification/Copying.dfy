/**
 * Which ordinary instructions the copy test of a relocation window lets through, told from what
 * the instructions are and not from their bytes.
 */
module Copying {
  import opened ByteStrings
  import opened X86Len
  import opened OrdinaryLengths
  import opened ControlFlow
  import V = VexEncode
  import B = Branches
  import Relocation

  /** Control goes on behind the instruction, and nowhere else. */
  predicate GoesOn(i: Insn) {
    && !i.kind.Call? && !i.kind.Ret? && !i.kind.RetPop?
    && !(i.kind.Group5? && i.reg == 4)
  }

  /** Registers only, and an opcode of one or two bytes. */
  predicate RegistersOnly(i: Insn)
    requires KindOk(i.kind)
  {
    && (FormOf(i.kind).page.One? || FormOf(i.kind).page.Two?)
    && (FormOf(i.kind).operand ==> i.rm.Reg?)
  }

  lemma OneOpcodes(k: Kind)
    requires KindOk(k) && FormOf(k).page.One?
    ensures var op := FormOf(k).op;
      && op != 0xEB && op != 0xE9 && !(0x70 <= op <= 0x7F) && !(0xE0 <= op <= 0xE3)
      && op != 0xCA && op != 0xCB && op != 0xF4
  {}

  lemma OneEnds(k: Kind)
    requires KindOk(k) && FormOf(k).page.One?
    ensures var op := FormOf(k).op;
      && (op == 0xE8 <==> k.Call?) && (op == 0xC3 <==> k.Ret?) && (op == 0xC2 <==> k.RetPop?)
      && (op == 0xFF <==> k.Group5?)
  {}

  lemma TwoOpcodes(k: Kind)
    requires KindOk(k) && FormOf(k).page.Two?
    ensures var op := FormOf(k).op; !(0x80 <= op <= 0x8F) && op != 0x0B
    ensures !k.Call? && !k.Ret? && !k.RetPop? && !k.Group5?
  {}

  lemma ThreeKinds(k: Kind)
    requires KindOk(k) && !FormOf(k).page.One? && !FormOf(k).page.Two?
    ensures !k.Call? && !k.Ret? && !k.RetPop? && !k.Group5?
  {}

  lemma RegisterBits(s: Bytes, p: nat, reg: nat, x: V.Operand)
    requires V.OperandOk(x) && reg < 8 && V.At(s, p, V.Modrm(reg, x))
    ensures p < |s| && (s[p] / 64 == 3 <==> x.Reg?)
  {
    hide V.Fields, V.SibByte;
    assert s[p + 0] == V.Modrm(reg, x)[0];
    match x
    case Reg(n) => V.FieldsRead(3, reg, n % 8);
    case AtRip(_) => V.FieldsRead(0, reg, 5);
    case AtBase(base, d) => V.FieldsRead(V.Mod(d), reg, base % 8);
    case AtSib(_, _, _, d) => V.FieldsRead(V.Mod(d), reg, 4);
    case AtIndex(_, _, _) => V.FieldsRead(0, reg, 4);
  }

  /** What the test asks beside the flow, once the opcode is found. */
  predicate OpcodePasses(s: Bytes, q: nat)
    requires q < |s|
  {
    && s[q] != 0xE8 && !(0xE0 <= s[q] <= 0xE3)
    && if s[q] == 0x0F then
         && q + 1 < |s| && s[q + 1] != 0x38 && s[q + 1] != 0x3A && s[q + 1] != 0x0F
         && Relocation.RegisterOperand(s, q + 2, HasModrm0F(s[q + 1]))
       else Relocation.RegisterOperand(s, q + 1, HasModrm1(s[q]))
  }

  lemma FlowOf(s: Bytes, q: nat)
    requires Length(s).len > 0 && OpcodePos(s) == q < |s|
    requires s[q] != 0xEB && !Near(s, q) && !(0x70 <= s[q] <= 0x7F)
    ensures Classify(s, 0) == Flow(
      s[q] == 0xC3 || s[q] == 0xC2 || s[q] == 0xCB || s[q] == 0xCA || s[q] == 0xF4
      || (s[q] == 0x0F && q + 1 < |s| && s[q + 1] == 0x0B), -1)
  {
    hide Length, Near, OpcodePos;
  }

  lemma TestSplit(s: Bytes, q: nat)
    requires Length(s).len > 0 && OpcodePos(s) == q < |s| && AfterPrefixes(s) <= q
    requires !Relocation.IsVexByte(s[AfterPrefixes(s)])
    ensures Relocation.SafeCopyable(s) <==>
      !Classify(s, 0).term && Classify(s, 0).tgt < 0 && !IsJmpIndirect(s) && OpcodePasses(s, q)
  {
    hide Length, Classify, IsJmpIndirect, AfterPrefixes, OpcodePos;
  }

  lemma OneCopied(s: Bytes, q: nat, i: Insn)
    requires Parts(s, q, i) && FormOf(i.kind).page.One? && OpcodePos(s) == q && Length(s).len > 0
    ensures q < |s|
    ensures OpcodePasses(s, q) && !Classify(s, 0).term && !IsJmpIndirect(s) <==> GoesOn(i) && RegistersOnly(i)
    ensures Classify(s, 0).tgt < 0 && s[q] == FormOf(i.kind).op
  {
    hide FormOf, KindOk, Length, Classify, OpcodePos, V.Modrm, HasModrm1, HasModrm0F;
    OneOpcodes(i.kind);
    OneEnds(i.kind);
    OneApart(i.kind);
    OneOperand(i.kind);
    assert s[q + 0] == Opcode(i.kind)[0];
    FlowOf(s, q);
    if FormOf(i.kind).operand {
      AfterOperand(s, q + 1, i.reg, i.rm);
      RegisterBits(s, q + 1, i.reg, i.rm);
    }
    if i.kind.Group5? { GroupOperand(i.kind); }
  }

  lemma GroupOperand(k: Kind)
    requires k.Group5?
    ensures KindOk(k) && FormOf(k).operand
  {}

  lemma TwoCopied(s: Bytes, q: nat, i: Insn)
    requires Parts(s, q, i) && FormOf(i.kind).page.Two? && OpcodePos(s) == q && Length(s).len > 0
    ensures q < |s|
    ensures OpcodePasses(s, q) && !Classify(s, 0).term && !IsJmpIndirect(s) <==> GoesOn(i) && RegistersOnly(i)
    ensures Classify(s, 0).tgt < 0 && s[q] == 0x0F
  {
    hide FormOf, KindOk, Length, Classify, OpcodePos, V.Modrm, HasModrm1, HasModrm0F, Imm0F, ImmCode;
    TwoOpcodes(i.kind);
    TwoPage(i.kind);
    assert s[q + 0] == Opcode(i.kind)[0] && s[q + 1] == Opcode(i.kind)[1];
    FlowOf(s, q);
    if FormOf(i.kind).operand { RegisterBits(s, q + 2, i.reg, i.rm); }
  }

  lemma ThreeCopied(s: Bytes, q: nat, i: Insn)
    requires Parts(s, q, i) && (FormOf(i.kind).page.Three38? || FormOf(i.kind).page.Three3A?)
    requires OpcodePos(s) == q && Length(s).len > 0
    ensures q < |s| && !OpcodePasses(s, q) && !RegistersOnly(i) && s[q] == 0x0F
  {
    hide FormOf, KindOk, Length, Classify, OpcodePos, V.Modrm, HasModrm1, HasModrm0F;
    assert s[q + 0] == Opcode(i.kind)[0] && s[q + 1] == Opcode(i.kind)[1];
  }

  /** The byte behind the prefixes begins no vector instruction. */
  lemma NoVexByte(s: Bytes, i: Insn)
    requires InsnOk(i) && |i.prefixes| + |i.rex| < |s|
    requires |i.rex| == 1 ==> s[|i.prefixes|] == i.rex[0]
    requires s[|i.prefixes| + |i.rex|] == 0x0F
      || (FormOf(i.kind).page.One? && s[|i.prefixes| + |i.rex|] == FormOf(i.kind).op)
    ensures !Relocation.IsVexByte(s[|i.prefixes|])
  {
    hide FormOf, KindOk;
    if |i.rex| == 0 && s[|i.prefixes| + |i.rex|] != 0x0F { OneApart(i.kind); }
  }

  lemma Copied(s: Bytes, q: nat, i: Insn)
    requires Parts(s, q, i) && OpcodePos(s) == q && Length(s).len > 0
    ensures q < |s| && (s[q] == 0x0F || (FormOf(i.kind).page.One? && s[q] == FormOf(i.kind).op))
    ensures GoesOn(i) && RegistersOnly(i) <==>
      OpcodePasses(s, q) && !Classify(s, 0).term && Classify(s, 0).tgt < 0 && !IsJmpIndirect(s)
  {
    hide FormOf, Length, Classify, OpcodePos, OpcodePasses, IsJmpIndirect, RegistersOnly, GoesOn, KindOk, V.At,
         Opcode, Operand;
    match FormOf(i.kind).page
    case One => OneCopied(s, q, i);
    case Two => TwoCopied(s, q, i);
    case Three38 => ThreeCopied(s, q, i);
    case Three3A => ThreeCopied(s, q, i);
  }

  /**
   * An ordinary instruction is copied exactly if it uses registers only, has an opcode of one or two
   * bytes, and is no call, return or indirect jump.
   */
  lemma CopiedExactly(i: Insn, rest: Bytes)
    requires InsnOk(i)
    ensures Length(Code(i) + rest).len > 0
    ensures Relocation.SafeCopyable(Code(i) + rest) <==> GoesOn(i) && RegistersOnly(i)
  {
    hide V.Modrm, FormOf, KindOk, B.AllLegacy, B.RexOk, OpcodePos, AfterPrefixes, ScanPrefixes, Opcode, Operand,
         Length, Classify, IsJmpIndirect, OpcodePasses, RegistersOnly, Relocation.SafeCopyable, Relocation.IsVexByte;
    LengthExact(i, rest);
    CodeLonger(i);
    var s := CodeLaid(i, rest);
    B.Layout(s, i.prefixes, i.rex, Opcode(i.kind) + Operand(i) + i.imm);
    var q := |i.prefixes| + |i.rex|;
    PartsFound(s, q, i);
    Copied(s, q, i);
    NoVexByte(s, i);
    TestSplit(s, q);
  }
}
