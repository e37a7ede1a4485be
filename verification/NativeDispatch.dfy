/**
 * From bytes to the native block: what the decoder hands over for the nine vector operations
 * is what the block emitter supports and its correctness asks for.
 */
module NativeDispatch {
  import opened ByteStrings
  import opened Decoded
  import opened VexDecode
  import VecExec
  import NativeBlock

  lemma ModrmOperands(s: Bytes, i: nat, x: bool, b: bool)
    requires ParseModrm(s, i, x, b).Modrm?
    ensures var m := ParseModrm(s, i, x, b);
      && (m.rmReg == -1 || 0 <= m.rmReg <= 15) && (m.hasMem <==> m.rmReg == -1)
      && (m.base == OPND_NONE || 0 <= m.base <= 15) && (m.index == OPND_NONE || 0 <= m.index <= 15)
      && (m.scale == 1 || m.scale == 2 || m.scale == 4 || m.scale == 8)
  {
    hide Signed32, Signed8;
  }

  ghost predicate RowOk(f: Form, wide: bool) {
    f.Form? && VecExec.Modelled(f.op) ==>
      && f.wiring == (if VecExec.BinaryOp(f.op) then Vvv else RmB)
      && f.imm == 0
      && (if f.memBytes > 0 then f.memBytes == VecExec.MemSize(f.op, wide) else VecExec.BinaryOp(f.op))
  }

  lemma RowsOf0F(v: Vex, opcode: Byte, ext: int)
    ensures RowOk(Form0F(v, opcode, ext), v.l)
  {}

  lemma RowsOf0F38(v: Vex, opcode: Byte)
    ensures RowOk(Form0F38(v, opcode), v.l)
  {}

  lemma RowsOfBmi(v: Vex, opcode: Byte, ext: int)
    ensures RowOk(FormBmi(v, opcode, ext), v.l)
  {}

  lemma RowsOf0F3A(v: Vex, opcode: Byte)
    ensures RowOk(Form0F3A(v, opcode), v.l)
  {}

  /** The table rows of the nine operations. */
  lemma RowsOk(v: Vex, opcode: Byte, ext: int)
    ensures RowOk(FormOf(v, opcode, ext), v.l)
  {
    hide Form0F, Form0F38, FormBmi, Form0F3A;
    RowsOf0F(v, opcode, ext);
    RowsOf0F38(v, opcode);
    RowsOfBmi(v, opcode, ext);
    RowsOf0F3A(v, opcode);
  }

  lemma WiredSupported(d: Insn, f: Form, m: Modrm, reg: int, vvvv: int)
    requires f.Form? && RowOk(f, d.wide) && VecExec.Modelled(f.op) && d.op == f.op && d.seg == 0 && d.dstKind.DstYmm?
    requires m.Modrm? && 0 <= reg <= 15 && 0 <= vvvv <= 15
    requires (m.rmReg == -1 || 0 <= m.rmReg <= 15) && (m.hasMem <==> m.rmReg == -1)
    requires VecExec.OperandOk(d) && (d.scale == 1 || d.scale == 2 || d.scale == 4 || d.scale == 8)
    requires m.hasMem ==> d.memBytes == VecExec.MemSize(d.op, d.wide)
    ensures var w := Wire(d, f.wiring, reg, vvvv, m);
      && NativeBlock.Supported(w) && NativeBlock.FromDecoder(w)
      && w.seg == 0
  {}

  lemma LengthIrrelevant(d: Insn, len: nat)
    requires NativeBlock.Supported(d) && NativeBlock.FromDecoder(d)
    ensures NativeBlock.Supported(d.(len := len, seg := 0)) && NativeBlock.FromDecoder(d.(len := len, seg := 0))
  {}

  /** The descriptor before its operands are wired. */
  function Described(v: Vex, m: Modrm, f: Form): Insn
    requires m.Modrm? && f.Form?
  {
    WithMem(BLANK, m).(op := f.op, wide := v.l, opsize := if v.w then 64 else 32, isBmi := IsBmiWiring(f.wiring),
                       len := v.at + 1 + m.n + f.imm,
                       memBytes := if f.memBytes > 0 then f.memBytes
                                   else if !m.hasMem then 0 else if v.l then 32 else 16)
  }

  lemma VexShape(s: Bytes, v: Vex)
    requires DecodeVex(s, v).Ok?
    ensures v.at + 1 < |s|
    ensures var ext, m := (s[v.at + 1] / 8) % 8, ParseModrm(s, v.at + 1, v.x, v.b);
      && m.Modrm? && FormOf(v, s[v.at], ext).Form?
      && DecodeVex(s, v).insn ==
         Wire(Described(v, m, FormOf(v, s[v.at], ext)), FormOf(v, s[v.at], ext).wiring, Extend(ext, v.r), v.vvvv, m)
  {
    hide ParseModrm, FormOf, Wire;
  }

  lemma DescribedOk(v: Vex, m: Modrm, f: Form)
    requires m.Modrm? && f.Form? && RowOk(f, v.l) && VecExec.Modelled(f.op)
    requires (m.base == OPND_NONE || 0 <= m.base <= 15) && (m.index == OPND_NONE || 0 <= m.index <= 15)
    ensures var d := Described(v, m, f);
      && d.op == f.op && d.wide == v.l && d.seg == 0 && d.dstKind.DstYmm? && d.scale == m.scale
      && VecExec.OperandOk(d) && (m.hasMem ==> d.memBytes == VecExec.MemSize(d.op, d.wide))
  {
    hide RowOk, VecExec.Modelled;
    if m.hasMem { MemBytesOk(f, v.l, m.hasMem); }
  }

  lemma VexSupported(s: Bytes, v: Vex, seg: nat, len: nat)
    requires 0 <= v.vvvv <= 15 && seg == 0
    requires DecodeVex(s, v).Ok? && VecExec.Modelled(DecodeVex(s, v).insn.op)
    ensures var d := DecodeVex(s, v).insn.(len := len, seg := seg);
      NativeBlock.Supported(d) && NativeBlock.FromDecoder(d)
  {
    hide ParseModrm, FormOf, NativeBlock.Supported, NativeBlock.FromDecoder, RowOk, VecExec.Modelled, Wire, Described,
         DecodeVex, VecExec.OperandOk, VecExec.MemSize;
    VexShape(s, v);
    var opcode, ext := s[v.at], (s[v.at + 1] / 8) % 8;
    var m, f, reg := ParseModrm(s, v.at + 1, v.x, v.b), FormOf(v, opcode, ext), Extend(ext, v.r);
    ModrmOperands(s, v.at + 1, v.x, v.b);
    RowsOk(v, opcode, ext);
    var d := Described(v, m, f);
    WireKeepsOp(d, f.wiring, reg, v.vvvv, m);
    DescribedOp(v, m, f);
    DescribedOk(v, m, f);
    WiredSupported(d, f, m, reg, v.vvvv);
    LengthIrrelevant(Wire(d, f.wiring, reg, v.vvvv, m), len);
  }

  lemma DescribedOp(v: Vex, m: Modrm, f: Form)
    requires m.Modrm? && f.Form?
    ensures Described(v, m, f).op == f.op
  {}

  lemma WireKeepsOp(d: Insn, w: Wiring, reg: int, vvvv: int, m: Modrm)
    requires m.Modrm?
    ensures Wire(d, w, reg, vvvv, m).op == d.op
  {}

  lemma MemBytesOk(f: Form, wide: bool, hasMem: bool)
    requires f.Form? && RowOk(f, wide) && VecExec.Modelled(f.op) && hasMem
    ensures (if f.memBytes > 0 then f.memBytes else if wide then 32 else 16) == VecExec.MemSize(f.op, wide)
  {}

  lemma LegacyNotModelled(s: Bytes, l: Legacy)
    requires l.q + 1 < |s| && DecodeLegacy(s, l).Ok?
    ensures !VecExec.Modelled(DecodeLegacy(s, l).insn.op)
  {
    hide ParseModrm;
  }

  /** Whatever decodes to one of the nine operations, without fs or gs, can be compiled. */
  lemma DecodedIsSupported(s: Bytes)
    requires Decode(s).Ok? && VecExec.Modelled(Decode(s).insn.op) && Decode(s).insn.seg == 0
    ensures NativeBlock.Supported(Decode(s).insn) && NativeBlock.FromDecoder(Decode(s).insn)
  {
    hide DecodeVex, DecodeLegacy, ScanPadding, LegacyScan, NativeBlock.Supported, NativeBlock.FromDecoder,
         VecExec.Modelled, LegacyKindAt;
    var pad := ScanPadding(s, 0, 0);
    var p := pad.n;
    var l := LegacyScan(s, Legacy(p, 0, false, false, false), 0);
    var len := Decode(s).insn.len;
    if LegacyKindAt(s, l) != NotLegacy {
      LegacyNotModelled(s, l);
    } else if s[p] == 0xC5 {
      var b1 := s[p + 1];
      var v := Vex(1, b1 % 4, false, (b1 / 4) % 2 == 1, 15 - (b1 / 8) % 16, b1 < 128, false, false, p + 2);
      VexSupported(s, v, pad.seg, len);
    } else {
      var b1, b2 := s[p + 1], s[p + 2];
      var v := Vex(b1 % 32, b2 % 4, b2 >= 128, (b2 / 4) % 2 == 1, 15 - (b2 / 8) % 16,
                   b1 < 128, (b1 / 64) % 2 == 0, (b1 / 32) % 2 == 0, p + 3);
      VexSupported(s, v, pad.seg, len);
    }
  }
}
