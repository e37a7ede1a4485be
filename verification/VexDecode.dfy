/**
 * decode: the emulator's own decoder, from bytes to the descriptor the emitters read.
 * Overrun means that the decoder needs a byte past the end of the sequence, about which
 * the model says nothing.
 */
module VexDecode {
  import opened Decoded
  import opened ByteStrings
  import opened X86Len

  datatype Outcome = Refused | Overrun | Ok(insn: Insn)

  // ------------------------------------------------------------------- ModRM

  const NoBase := OPND_NONE

  datatype Modrm = NoModrm | Modrm(
    rmReg: int, hasMem: bool, base: int, index: int, scale: nat, disp: int, ripRel: bool, n: nat)

  function Extend(low: int, rex: bool): int { low + if rex then 8 else 0 }

  function Signed8(b: Byte): int { if b < 128 then b else b - 256 }

  /** A little-endian signed 32-bit value. */
  function Signed32(s: Bytes, i: nat): int
    requires i + 4 <= |s|
  {
    var b0: int, b1: int, b2: int, b3: int := s[i], s[i + 1], s[i + 2], s[i + 3];
    var v := b0 + 256 * (b1 + 256 * (b2 + 256 * b3));
    if v < 0x8000_0000 then v else v - 0x1_0000_0000
  }

  /** parse_modrm at i. */
  function ParseModrm(s: Bytes, i: nat, rexX: bool, rexB: bool): (r: Modrm)
    ensures r.Modrm? ==> i < |s|
  {
    if i >= |s| then NoModrm
    else
      var mod, rm := s[i] / 64, s[i] % 8;
      if mod == 3 then Modrm(Extend(rm, rexB), false, OPND_NONE, OPND_NONE, 1, 0, false, 1)
      else if rm == 4 then
        if i + 1 >= |s| then NoModrm
        else
          var sib := s[i + 1];
          var idx := (sib / 8) % 8;
          var index := if idx == 4 && !rexX then OPND_NONE else Extend(idx, rexX);
          var noBase := sib % 8 == 5 && mod == 0;
          WithDisp(s, i, mod, noBase, 2, if noBase then OPND_NONE else Extend(sib % 8, rexB),
                   index, Scale(sib / 64), false)
      else if mod == 0 && rm == 5 then
        WithDisp(s, i, mod, true, 1, OPND_NONE, OPND_NONE, 1, true)
      else
        WithDisp(s, i, mod, false, 1, Extend(rm, rexB), OPND_NONE, 1, false)
  }

  function Scale(ss: int): nat {
    if ss == 0 then 1 else if ss == 1 then 2 else if ss == 2 then 4 else 8
  }

  /** The displacement after n bytes of ModRM and SIB. */
  function WithDisp(s: Bytes, i: nat, mod: int, disp32: bool, n: nat, base: int, index: int, scale: nat, rip: bool)
    : Modrm
  {
    var size := if disp32 then 4 else DispSize(mod);
    if i + n + size > |s| then NoModrm
    else
      var disp := if size == 4 then Signed32(s, i + n) else if size == 1 then Signed8(s[i + n]) else 0;
      Modrm(-1, true, base, index, scale, disp, rip, n + size)
  }

  // --------------------------------------------------------- legacy encodings

  /** rex is the last REX byte met, or 0. */
  datatype Legacy = Legacy(q: nat, rex: Byte, has66: bool, hasF3: bool, hasLock: bool)

  predicate RexW(c: Byte) { (c / 8) % 2 == 1 }

  predicate RexR(c: Byte) { (c / 4) % 2 == 1 }

  predicate RexX(c: Byte) { (c / 2) % 2 == 1 }

  predicate RexB(c: Byte) { c % 2 == 1 }

  function AfterLegacyPrefix(l: Legacy, c: Byte): Legacy {
    l.(q := l.q + 1, has66 := l.has66 || c == 0x66, hasF3 := l.hasF3 || c == 0xF3,
       hasLock := l.hasLock || c == 0xF0)
  }

  function AfterRex(l: Legacy, c: Byte): Legacy {
    l.(q := l.q + 1, rex := c)
  }

  /** The prefix loop of decode_inner: any REX counts, the last one wins. */
  function LegacyScan(s: Bytes, l: Legacy, prefixes: nat): (r: Legacy)
    requires l.q <= |s|
    ensures l.q <= r.q <= |s|
    decreases |s| - l.q
  {
    if l.q == |s| then l
    else
      var c := s[l.q];
      if c == 0x66 || c == 0xF3 || c == 0xF2 || c == 0xF0 then
        var l1 := AfterLegacyPrefix(l, c);
        if prefixes + 1 > 8 then l1 else LegacyScan(s, l1, prefixes + 1)
      else if IsRex(c) then LegacyScan(s, AfterRex(l, c), prefixes)
      else l
  }

  const BLANK := Insn(OtherOp(0), 0, OPND_NONE, OPND_NONE, OPND_NONE, DstYmm, false,
                      OPND_NONE, OPND_NONE, 1, 0, false, 0, 0, false, 0, OPND_NONE, false)

  /** The memory operand fields. */
  function WithMem(d: Insn, m: Modrm): Insn
    requires m.Modrm?
  {
    d.(base := m.base, index := m.index, scale := m.scale, disp := m.disp, ripRel := m.ripRel)
  }

  function RmOperand(m: Modrm): int
    requires m.Modrm?
  {
    if m.rmReg < 0 then OPND_MEM else m.rmReg
  }

  const MOVBE: VexOp := OtherOp(1)

  /** tzcnt, lzcnt (F3, or the F0 form that patching leaves) and movbe; l.q is at the 0F byte. */
  function DecodeLegacy(s: Bytes, l: Legacy): Outcome
    requires l.q + 1 < |s|
  {
    var opsize := if RexW(l.rex) then 64 else if l.has66 then 16 else 32;
    var movbe := s[l.q + 1] == 0x38;
    var at := l.q + if movbe then 3 else 2;
    var m := ParseModrm(s, at, RexX(l.rex), RexB(l.rex));
    if m.NoModrm? then Overrun
    else
      var reg := Extend((s[at] / 8) % 8, RexR(l.rex));
      var d := WithMem(BLANK, m).(isBmi := true, opsize := opsize, memBytes := opsize / 8, len := at + m.n);
      if !movbe then
        Ok(d.(op := if s[l.q + 1] == 0xBC then BMI_TZCNT else BMI_LZCNT,
              dst := reg, dstKind := DstGpr, aSrc := RmOperand(m)))
      else if s[l.q + 2] == 0xF0 then
        Ok(d.(op := MOVBE, dst := reg, dstKind := DstGpr, aSrc := RmOperand(m)))
      else
        Ok(d.(op := MOVBE, dst := OPND_MEM, dstKind := DstMem, aSrc := reg))
  }

  datatype LegacyKind = NotLegacy | Count | Movbe

  function LegacyKindAt(s: Bytes, l: Legacy): LegacyKind {
    if l.q + 1 >= |s| || s[l.q] != 0x0F then NotLegacy
    else if (l.hasF3 || l.hasLock) && (s[l.q + 1] == 0xBC || s[l.q + 1] == 0xBD) then Count
    else if s[l.q + 1] == 0x38 && l.q + 2 < |s| && (s[l.q + 2] == 0xF0 || s[l.q + 2] == 0xF1) then Movbe
    else NotLegacy
  }

  // --------------------------------------------------------------------- VEX

  datatype Vex = Vex(opMap: int, pp: int, w: bool, l: bool, vvvv: int, r: bool, x: bool, b: bool, at: nat)

  /** How a table entry wires its operands. */
  datatype Wiring =
    | Vvv          // dst = reg, a = vvvv, b = rm
    | RmB          // dst = reg, b = rm
    | RmA          // dst = reg, a = rm
    | MoveMask     // general dst = reg, b = rm register
    | ShiftImm     // dst = vvvv, a = rm
    | MaskStore    // memory dst, a = vvvv, b = reg
    | Extract      // dst = rm, b = reg
    | Gpr3         // general dst = reg, a = vvvv, b = rm
    | GprRm        // general dst = reg, a = rm, b = vvvv
    | GprBls       // general dst = vvvv, a = rm
    | Mulx         // general dst = vvvv and reg, b = rm, a implicit
    | Rorx         // general dst = reg, a = rm

  datatype Form = NoForm | Form(op: VexOp, wiring: Wiring, imm: nat, memBytes: nat)

  function Other(v: Vex, opcode: Byte, ext: int): VexOp {
    var code := ((v.opMap * 4 + v.pp) * 256 + opcode) * 16 + ext * 2 + if v.w then 1 else 0;
    OtherOp(if code > 1 then code else 2)
  }

  /** 66 0F. */
  function Form0F(v: Vex, opcode: Byte, ext: int): Form {
    if opcode == 0xF8 then Form(VPSUBB, Vvv, 0, 0)
    else if opcode == 0xDB then Form(VPAND, Vvv, 0, 0)
    else if opcode == 0xEB then Form(VPOR, Vvv, 0, 0)
    else if opcode == 0xEF then Form(VPXOR, Vvv, 0, 0)
    else if opcode == 0x74 then Form(VPCMPEQB, Vvv, 0, 0)
    else if opcode == 0x64 then Form(VPCMPGTB, Vvv, 0, 0)
    else if 0x60 <= opcode <= 0x6D || opcode == 0x75 || opcode == 0x76
      || 0xD1 <= opcode <= 0xD5 || 0xD8 <= opcode <= 0xDF || 0xE0 <= opcode <= 0xE5
      || 0xE8 <= opcode <= 0xEE || 0xF1 <= opcode <= 0xF6 || 0xF9 <= opcode <= 0xFE then
      Form(Other(v, opcode, 0), Vvv, 0, 0)
    else if opcode == 0x70 then Form(Other(v, opcode, 0), RmB, 1, 0)
    else if opcode == 0xD7 then Form(Other(v, opcode, 0), MoveMask, 0, 0)
    else if (opcode == 0x71 || opcode == 0x72) && (ext == 6 || ext == 2 || ext == 4) then
      Form(Other(v, opcode, ext), ShiftImm, 1, 0)
    else if opcode == 0x73 && (ext == 6 || ext == 2 || ext == 7 || ext == 3) then
      Form(Other(v, opcode, ext), ShiftImm, 1, 0)
    else NoForm
  }

  predicate IsFma(opcode: Byte) {
    opcode % 16 >= 8 && (opcode / 16 == 9 || opcode / 16 == 0xA || opcode / 16 == 0xB)
  }

  /** 66 0F38. */
  function Form0F38(v: Vex, opcode: Byte): Form {
    if opcode == 0x58 then Form(VPBROADCASTD, RmB, 0, 4)
    else if opcode == 0x79 then Form(VPBROADCASTW, RmB, 0, 2)
    else if opcode == 0x30 then Form(VPMOVZXBW, RmB, 0, 16)
    else if opcode == 0x78 then Form(Other(v, opcode, 0), RmB, 0, 1)
    else if opcode == 0x59 then Form(Other(v, opcode, 0), RmB, 0, 8)
    else if opcode == 0x5A || opcode == 0x13 || opcode == 0x20 || opcode == 0x23 || opcode == 0x25
      || opcode == 0x33 || opcode == 0x35 then Form(Other(v, opcode, 0), RmB, 0, 16)
    else if opcode == 0x21 || opcode == 0x24 || opcode == 0x31 || opcode == 0x34 then
      Form(Other(v, opcode, 0), RmB, 0, 8)
    else if opcode == 0x22 || opcode == 0x32 then Form(Other(v, opcode, 0), RmB, 0, 4)
    else if 0x1C <= opcode <= 0x1E then Form(Other(v, opcode, 0), RmA, 0, 0)
    else if opcode == 0x00 || opcode == 0x02 || opcode == 0x04 || 0x08 <= opcode <= 0x0B
      || opcode == 0x16 || opcode == 0x28 || opcode == 0x29 || opcode == 0x2B
      || 0x36 <= opcode <= 0x40 || 0x45 <= opcode <= 0x47 then Form(Other(v, opcode, 0), Vvv, 0, 0)
    else if opcode == 0x8C then Form(Other(v, opcode, 0), Vvv, 0, if v.l then 32 else 16)
    else if opcode == 0x8E then Form(Other(v, opcode, 0), MaskStore, 0, if v.l then 32 else 16)
    else if IsFma(opcode) then
      Form(Other(v, opcode, 0), Vvv, 0,
           if opcode % 2 == 1 then (if v.w then 8 else 4) else if v.l then 32 else 16)
    else NoForm
  }

  /** BMI in 0F38, any pp. */
  function FormBmi(v: Vex, opcode: Byte, ext: int): Form {
    var bytes := if v.w then 8 else 4;
    if opcode == 0xF2 && v.pp == 0 then Form(BMI_ANDN, Gpr3, 0, bytes)
    else if opcode == 0xF3 && v.pp == 0 && 1 <= ext <= 3 then Form(Other(v, opcode, ext), GprBls, 0, bytes)
    else if opcode == 0xF5 && v.pp == 0 then Form(Other(v, opcode, 0), GprRm, 0, bytes)
    else if opcode == 0xF5 && (v.pp == 2 || v.pp == 3) then Form(Other(v, opcode, 0), Gpr3, 0, bytes)
    else if opcode == 0xF6 && v.pp == 3 then Form(Other(v, opcode, 0), Mulx, 0, bytes)
    else if opcode == 0xF7 && v.pp == 1 then Form(BMI_SHLX, GprRm, 0, bytes)
    else if opcode == 0xF7 then Form(Other(v, opcode, 0), GprRm, 0, bytes)
    else NoForm
  }

  /** 66 0F3A, and rorx. */
  function Form0F3A(v: Vex, opcode: Byte): Form {
    if v.pp == 1 then
      if opcode == 0x0F || opcode == 0x0E || opcode == 0x02 || opcode == 0x46 || opcode == 0x4C then
        Form(Other(v, opcode, 0), Vvv, 1, 0)
      else if opcode == 0x38 then Form(Other(v, opcode, 0), Vvv, 1, 16)
      else if opcode == 0x00 || opcode == 0x01 then Form(Other(v, opcode, 0), RmB, 1, 0)
      else if opcode == 0x39 then Form(Other(v, opcode, 0), Extract, 1, 16)
      else NoForm
    else if v.pp == 3 && opcode == 0xF0 then Form(Other(v, opcode, 0), Rorx, 1, if v.w then 8 else 4)
    else NoForm
  }

  function FormOf(v: Vex, opcode: Byte, ext: int): Form {
    if v.opMap == 1 && v.pp == 1 then Form0F(v, opcode, ext)
    else if v.opMap == 1 && (v.pp == 2 || v.pp == 3) && opcode == 0x70 then Form(Other(v, opcode, 0), RmB, 1, 0)
    else if v.opMap == 2 && v.pp == 1 && Form0F38(v, opcode).Form? then Form0F38(v, opcode)
    else if v.opMap == 2 then FormBmi(v, opcode, ext)
    else if v.opMap == 3 then Form0F3A(v, opcode)
    else NoForm
  }

  predicate IsBmiWiring(w: Wiring) { w.Gpr3? || w.GprRm? || w.GprBls? || w.Mulx? || w.Rorx? }

  function Wire(d: Insn, w: Wiring, reg: int, vvvv: int, m: Modrm): Insn
    requires m.Modrm?
  {
    var rm := RmOperand(m);
    match w
    case Vvv => d.(dst := reg, aSrc := vvvv, bSrc := rm)
    case RmB => d.(dst := reg, bSrc := rm)
    case RmA => d.(dst := reg, aSrc := rm)
    case MoveMask => d.(dst := reg, dstKind := DstGpr, bSrc := m.rmReg, opsize := 32)
    case ShiftImm => d.(dst := vvvv, aSrc := rm)
    case MaskStore => d.(dst := OPND_MEM, dstKind := DstMem, aSrc := vvvv, bSrc := reg)
    case Extract =>
      if m.rmReg < 0 then d.(dst := OPND_MEM, dstKind := DstMem, bSrc := reg)
      else d.(dst := m.rmReg, wide := false, bSrc := reg)
    case Gpr3 => d.(dst := reg, dstKind := DstGpr, aSrc := vvvv, bSrc := rm)
    case GprRm => d.(dst := reg, dstKind := DstGpr, aSrc := rm, bSrc := vvvv)
    case GprBls => d.(dst := vvvv, dstKind := DstGpr, aSrc := rm)
    case Mulx => d.(dst := vvvv, dstKind := DstGpr, bmiDst2 := reg, bmiS1Rdx := true, bSrc := rm)
    case Rorx => d.(dst := reg, dstKind := DstGpr, aSrc := rm)
  }

  /** The opcode is at v.at. */
  function DecodeVex(s: Bytes, v: Vex): Outcome {
    if v.at + 1 >= |s| then Overrun
    else
      var opcode := s[v.at];
      var m := ParseModrm(s, v.at + 1, v.x, v.b);
      if m.NoModrm? then Overrun
      else
        var ext := (s[v.at + 1] / 8) % 8;
        var f := FormOf(v, opcode, ext);
        if f.NoForm? then Refused
        else if v.at + 1 + m.n + f.imm > |s| then Overrun
        else
          var d := WithMem(BLANK, m).(op := f.op, wide := v.l, opsize := if v.w then 64 else 32,
                                      isBmi := IsBmiWiring(f.wiring), len := v.at + 1 + m.n + f.imm,
                                      memBytes := if f.memBytes > 0 then f.memBytes
                                                  else if !m.hasMem then 0 else if v.l then 32 else 16);
          Ok(Wire(d, f.wiring, Extend(ext, v.r), v.vvvv, m))
  }

  /** decode_inner at p, with len counted from the start of s. */
  function DecodeInner(s: Bytes, p: nat): Outcome
    requires p <= |s|
  {
    var l := LegacyScan(s, Legacy(p, 0, false, false, false), 0);
    if l.q + 2 >= |s| then Overrun
    else if LegacyKindAt(s, l) != NotLegacy then DecodeLegacy(s, l)
    else if s[p] == 0xC5 then
      var b1 := s[p + 1];
      DecodeVex(s, Vex(1, b1 % 4, false, (b1 / 4) % 2 == 1, 15 - (b1 / 8) % 16, b1 < 128, false, false, p + 2))
    else if s[p] == 0xC4 then
      var b1, b2 := s[p + 1], s[p + 2];
      DecodeVex(s, Vex(b1 % 32, b2 % 4, b2 >= 128, (b2 / 4) % 2 == 1, 15 - (b2 / 8) % 16,
                       b1 < 128, (b1 / 64) % 2 == 0, (b1 / 32) % 2 == 0, p + 3))
    else Refused
  }

  datatype Padding = Padding(n: nat, seg: nat)

  /** At most eight address-size and segment prefixes; fs and gs are remembered. */
  function ScanPadding(s: Bytes, n: nat, seg: nat): (r: Padding)
    requires n <= 8 && n <= |s|
    ensures n <= r.n <= 8 && r.n <= |s|
    ensures forall k :: n <= k < r.n ==> s[k] == 0x67 || IsSegment(s[k])
    decreases 8 - n
  {
    if n == 8 || n == |s| || !(s[n] == 0x67 || IsSegment(s[n])) then Padding(n, seg)
    else ScanPadding(s, n + 1, if s[n] == 0x65 then 1 else if s[n] == 0x64 then 2 else seg)
  }

  /** Lengths are a byte in the descriptor. */
  function Decode(s: Bytes): Outcome {
    var pad := ScanPadding(s, 0, 0);
    match DecodeInner(s, pad.n)
    case Refused => Refused
    case Overrun => Overrun
    case Ok(d) => Ok(d.(len := d.len % 256, seg := pad.seg))
  }

  // ------------------------------------------------- the two decoders agree

  /** At most one REX, and it stands directly before the opcode. */
  ghost predicate PlainRex(s: Bytes) {
    var n := ScanPrefixes(s, 0, false, -1).n;
    n < |s| &&
    var i := n + if IsRex(s[n]) then 1 else 0;
    i < |s| && !IsPrefix(s[i]) && !IsRex(s[i])
  }

  /** The length decoder's view of where the opcode is. */
  function OpcodeAt(s: Bytes): nat {
    var n := ScanPrefixes(s, 0, false, -1).n;
    n + if n < |s| && IsRex(s[n]) then 1 else 0
  }

  lemma ModrmAgrees(s: Bytes, i: nat, x: bool, b: bool)
    requires ParseModrm(s, i, x, b).Modrm?
    ensures AfterModrm(s, i) == i + ParseModrm(s, i, x, b).n
    ensures AfterModrm(s, i) <= |s|
  {
    hide Signed32, Signed8, Extend, Scale;
  }

  lemma {:induction false} PrefixesEndAt(s: Bytes, i: nat, k: nat, opsz: bool, f3: int)
    requires i <= k < |s| && !IsPrefix(s[k])
    requires forall j :: i <= j < k ==> IsPrefix(s[j])
    ensures ScanPrefixes(s, i, opsz, f3).n == k
    decreases k - i
  {
    if i < k {
      PrefixesEndAt(s, i + 1, k, opsz || s[i] == 0x66, if s[i] == 0xF3 then i else f3);
    }
  }

  /** What the legacy scan steps over are prefixes, except for REX bytes. */
  lemma {:induction false} LegacyShape(s: Bytes, l: Legacy, prefixes: nat)
    requires l.q <= |s|
    ensures forall k :: l.q <= k < LegacyScan(s, l, prefixes).q ==> IsPrefix(s[k]) || IsRex(s[k])
    decreases |s| - l.q
  {
    if l.q < |s| {
      var c := s[l.q];
      if c == 0x66 || c == 0xF3 || c == 0xF2 || c == 0xF0 {
        if prefixes + 1 <= 8 {
          LegacyShape(s, AfterLegacyPrefix(l, c), prefixes + 1);
        }
      } else if IsRex(c) {
        LegacyShape(s, AfterRex(l, c), prefixes);
      }
    }
  }

  /** Prefixes, at most one REX after them, then a byte that is neither: the opcode is there. */
  lemma OpcodeFound(s: Bytes, q: nat)
    requires PlainRex(s) && q < |s| && !IsPrefix(s[q]) && !IsRex(s[q])
    requires forall k :: 0 <= k < q ==> IsPrefix(s[k]) || IsRex(s[k])
    ensures OpcodeAt(s) == q
  {
    var n := ScanPrefixes(s, 0, false, -1).n;
    assert n <= q;
  }

  lemma LegacyLength(s: Bytes, l: Legacy, opsz: bool, rexw: bool)
    requires LegacyKindAt(s, l) != NotLegacy && DecodeLegacy(s, l).Ok?
    ensures AfterOpcode(s, l.q, opsz, rexw) == DecodeLegacy(s, l).insn.len
    ensures DecodeLegacy(s, l).insn.len <= |s|
  {
    hide ParseModrm, AfterModrm;
    var at := l.q + if s[l.q + 1] == 0x38 then 3 else 2;
    ModrmAgrees(s, at, RexX(l.rex), RexB(l.rex));
  }

  lemma FormImm(v: Vex, opcode: Byte, ext: int)
    requires FormOf(v, opcode, ext).Form?
    ensures FormOf(v, opcode, ext).imm == if v.opMap == 3 || (v.opMap == 1 && Imm0F(opcode) == Imm8) then 1 else 0
    ensures !(v.opMap == 1 && opcode == 0x77)
  {
    hide Other;
  }

  lemma VexLength(s: Bytes, v: Vex)
    requires DecodeVex(s, v).Ok?
    ensures AfterVex(s, v.at + 1, v.opMap, s[v.at], !(v.opMap == 1 && s[v.at] == 0x77)) == DecodeVex(s, v).insn.len
    ensures DecodeVex(s, v).insn.len <= |s|
  {
    hide ParseModrm, AfterModrm, FormOf, Imm0F, Wire, WithMem;
    ModrmAgrees(s, v.at + 1, v.x, v.b);
    var ext := (s[v.at + 1] / 8) % 8;
    FormImm(v, s[v.at], ext);
    WireKeepsLength(s, v);
  }

  lemma WireKeepsLength(s: Bytes, v: Vex)
    requires DecodeVex(s, v).Ok?
    ensures var m := ParseModrm(s, v.at + 1, v.x, v.b);
      DecodeVex(s, v).insn.len == v.at + 1 + m.n + FormOf(v, s[v.at], (s[v.at + 1] / 8) % 8).imm
  {
    hide ParseModrm, FormOf;
  }

  /** At most nine counted prefixes and, here, one REX: the legacy scan is short. */
  lemma {:induction false} LegacyShort(s: Bytes, l: Legacy, prefixes: nat)
    requires l.q <= |s| && prefixes <= 8
    requires forall k :: l.q <= k < LegacyScan(s, l, prefixes).q - 1 ==> !IsRex(s[k])
    ensures LegacyScan(s, l, prefixes).q <= l.q + 10 - prefixes
    decreases |s| - l.q
  {
    if l.q < |s| {
      var c := s[l.q];
      if c == 0x66 || c == 0xF3 || c == 0xF2 || c == 0xF0 {
        if prefixes + 1 <= 8 {
          LegacyShort(s, AfterLegacyPrefix(l, c), prefixes + 1);
        }
      } else if IsRex(c) {
        assert LegacyScan(s, l, prefixes) == LegacyScan(s, AfterRex(l, c), prefixes);
      }
    }
  }

  lemma ModrmShort(s: Bytes, i: nat, x: bool, b: bool)
    ensures ParseModrm(s, i, x, b).Modrm? ==> ParseModrm(s, i, x, b).n <= 6
  {
    hide Signed32, Signed8, Extend, Scale;
  }

  /** What Length says once the opcode is located. */
  lemma LengthFromOpcode(s: Bytes)
    requires Length(s).len > 0
    ensures var i := OpcodeAt(s);
      i < |s| && exists opsz, rexw :: Length(s).len == AfterOpcode(s, i, opsz, rexw)
  {
    hide AfterOpcode, ScanPrefixes;
    var p := ScanPrefixes(s, 0, false, -1);
    assert Length(s).len == AfterOpcode(s, OpcodeAt(s), p.opsz, IsRex(s[p.n]) && (s[p.n] / 8) % 2 == 1);
  }

  lemma LegacyAgrees(s: Bytes, l: Legacy)
    requires Length(s).len > 0 && OpcodeAt(s) == l.q
    requires LegacyKindAt(s, l) != NotLegacy && DecodeLegacy(s, l).Ok?
    ensures Length(s).len == DecodeLegacy(s, l).insn.len
  {
    hide Length, OpcodeAt, AfterOpcode, DecodeLegacy, LegacyKindAt;
    LengthFromOpcode(s);
    var opsz, rexw :| Length(s).len == AfterOpcode(s, l.q, opsz, rexw);
    LegacyLength(s, l, opsz, rexw);
  }

  lemma VexAgrees(s: Bytes, p: nat, v: Vex)
    requires Length(s).len > 0 && OpcodeAt(s) == p
    requires p < |s| && DecodeVex(s, v).Ok?
    requires (s[p] == 0xC5 && v.opMap == 1 && v.at == p + 2)
          || (s[p] == 0xC4 && p + 1 < |s| && v.opMap == s[p + 1] % 32 && v.at == p + 3)
    ensures Length(s).len == DecodeVex(s, v).insn.len
  {
    hide Length, OpcodeAt, AfterVex, DecodeVex;
    LengthFromOpcode(s);
    VexLength(s, v);
    VexInText(s, v);
  }

  lemma VexInText(s: Bytes, v: Vex)
    requires DecodeVex(s, v).Ok?
    ensures v.at + 1 < |s|
  {}

  lemma LegacyCase(s: Bytes, pad: nat, l: Legacy)
    requires PlainRex(s) && Length(s).len > 0 && pad <= 8 && pad <= |s|
    requires forall k :: 0 <= k < pad ==> IsPrefix(s[k])
    requires l == LegacyScan(s, Legacy(pad, 0, false, false, false), 0)
    requires LegacyKindAt(s, l) != NotLegacy && DecodeLegacy(s, l).Ok?
    ensures DecodeLegacy(s, l).insn.len == Length(s).len < 256
  {
    hide DecodeLegacy, LegacyScan, Length, PlainRex, OpcodeAt, AfterOpcode;
    LegacyAtOF(s, l);
    LegacyShape(s, Legacy(pad, 0, false, false, false), 0);
    OpcodeFound(s, l.q);
    LegacyAgrees(s, l);
    RexOnlyLast(s, l.q);
    LegacyShort(s, Legacy(pad, 0, false, false, false), 0);
    LegacyLen(s, l);
  }

  lemma LegacyLen(s: Bytes, l: Legacy)
    requires l.q + 1 < |s| && DecodeLegacy(s, l).Ok?
    ensures DecodeLegacy(s, l).insn.len <= l.q + 9
  {
    hide ParseModrm;
    ModrmShort(s, l.q + if s[l.q + 1] == 0x38 then 3 else 2, RexX(l.rex), RexB(l.rex));
  }

  lemma RexOnlyLast(s: Bytes, q: nat)
    requires PlainRex(s) && OpcodeAt(s) == q
    ensures forall k :: 0 <= k < q - 1 ==> !IsRex(s[k])
  {
    assert forall k :: 0 <= k < |s| && IsPrefix(s[k]) ==> !IsRex(s[k]);
  }

  lemma VexLen(s: Bytes, v: Vex)
    requires DecodeVex(s, v).Ok?
    ensures DecodeVex(s, v).insn.len <= v.at + 8
  {
    hide ParseModrm, FormOf;
    ModrmShort(s, v.at + 1, v.x, v.b);
    FormImm(v, s[v.at], (s[v.at + 1] / 8) % 8);
    WireKeepsLength(s, v);
  }

  lemma VexCase(s: Bytes, p: nat, v: Vex)
    requires PlainRex(s) && Length(s).len > 0 && p <= 8 && p < |s|
    requires forall k :: 0 <= k < p ==> IsPrefix(s[k])
    requires DecodeVex(s, v).Ok?
    requires (s[p] == 0xC5 && v.opMap == 1 && v.at == p + 2)
          || (s[p] == 0xC4 && p + 1 < |s| && v.opMap == s[p + 1] % 32 && v.at == p + 3)
    ensures DecodeVex(s, v).insn.len == Length(s).len < 256
  {
    hide DecodeVex, Length, PlainRex, OpcodeAt;
    OpcodeFound(s, p);
    VexAgrees(s, p, v);
    VexLen(s, v);
  }

  /** Where both decoders accept, they accept the same number of bytes. */
  lemma DecodersAgree(s: Bytes)
    requires PlainRex(s)
    requires Decode(s).Ok? && Length(s).len > 0
    ensures Decode(s).insn.len == Length(s).len
  {
    hide LegacyScan, ScanPadding, DecodeVex, DecodeLegacy, PlainRex, Length, LegacyKindAt;
    var p := ScanPadding(s, 0, 0).n;
    var l := LegacyScan(s, Legacy(p, 0, false, false, false), 0);
    PaddingIsPrefix(s);
    if LegacyKindAt(s, l) != NotLegacy {
      LegacyCase(s, p, l);
    } else if s[p] == 0xC5 {
      var b1 := s[p + 1];
      VexCase(s, p, Vex(1, b1 % 4, false, (b1 / 4) % 2 == 1, 15 - (b1 / 8) % 16, b1 < 128, false, false, p + 2));
    } else {
      var b1, b2 := s[p + 1], s[p + 2];
      VexCase(s, p, Vex(b1 % 32, b2 % 4, b2 >= 128, (b2 / 4) % 2 == 1, 15 - (b2 / 8) % 16,
                        b1 < 128, (b1 / 64) % 2 == 0, (b1 / 32) % 2 == 0, p + 3));
    }
  }

  /** An instruction that the emulator handles has a prefix or an escape before its ModRM. */
  lemma AtLeastFour(s: Bytes)
    requires PlainRex(s)
    requires Decode(s).Ok? && Length(s).len > 0
    ensures Length(s).len >= 4
  {
    hide LegacyScan, ScanPadding, DecodeVex, DecodeLegacy, PlainRex, Length, LegacyKindAt;
    var p := ScanPadding(s, 0, 0).n;
    var l := LegacyScan(s, Legacy(p, 0, false, false, false), 0);
    PaddingIsPrefix(s);
    if LegacyKindAt(s, l) != NotLegacy {
      LegacyCase(s, p, l);
      CountHasPrefix(s, Legacy(p, 0, false, false, false), 0);
      LegacyAtLeast(s, l);
    } else if s[p] == 0xC5 {
      var b1 := s[p + 1];
      var v := Vex(1, b1 % 4, false, (b1 / 4) % 2 == 1, 15 - (b1 / 8) % 16, b1 < 128, false, false, p + 2);
      VexCase(s, p, v);
      VexAtLeast(s, v);
    } else {
      var b1, b2 := s[p + 1], s[p + 2];
      var v := Vex(b1 % 32, b2 % 4, b2 >= 128, (b2 / 4) % 2 == 1, 15 - (b2 / 8) % 16,
                   b1 < 128, (b1 / 64) % 2 == 0, (b1 / 32) % 2 == 0, p + 3);
      VexCase(s, p, v);
      VexAtLeast(s, v);
    }
  }

  lemma {:induction false} CountHasPrefix(s: Bytes, l: Legacy, prefixes: nat)
    requires l.q <= |s|
    ensures var r := LegacyScan(s, l, prefixes);
      (r.hasF3 || r.hasLock) && !(l.hasF3 || l.hasLock) ==> r.q > l.q
  {}

  lemma LegacyAtLeast(s: Bytes, l: Legacy)
    requires LegacyKindAt(s, l) != NotLegacy && DecodeLegacy(s, l).Ok?
    requires (l.hasF3 || l.hasLock) ==> l.q > 0
    ensures DecodeLegacy(s, l).insn.len >= 4
  {
    hide ParseModrm;
    ModrmPositive(s, l.q + if s[l.q + 1] == 0x38 then 3 else 2, RexX(l.rex), RexB(l.rex));
  }

  lemma VexAtLeast(s: Bytes, v: Vex)
    requires DecodeVex(s, v).Ok? && v.at >= 2
    ensures DecodeVex(s, v).insn.len >= 4
  {
    hide ParseModrm, FormOf;
    WireKeepsLength(s, v);
    ModrmPositive(s, v.at + 1, v.x, v.b);
  }

  lemma ModrmPositive(s: Bytes, i: nat, x: bool, b: bool)
    ensures ParseModrm(s, i, x, b).Modrm? ==> ParseModrm(s, i, x, b).n >= 1
  {
    hide Extend, Scale, Signed8, Signed32;
  }

  /** An accepted instruction does not start with a zero, an int3 or a nop. */
  lemma FirstByte(s: Bytes)
    requires Decode(s).Ok?
    ensures |s| > 0 && s[0] != 0 && s[0] != 0xCC && s[0] != 0x90
  {
    hide DecodeVex, DecodeLegacy;
  }

  /** Nor with the opcode of a near jump. */
  lemma NotNearJump(s: Bytes)
    requires Decode(s).Ok?
    ensures |s| > 0 && s[0] != 0xE9
  {
    hide DecodeVex, DecodeLegacy;
  }

  lemma PaddingIsPrefix(s: Bytes)
    ensures forall k :: 0 <= k < ScanPadding(s, 0, 0).n ==> IsPrefix(s[k])
  {}

  lemma LegacyAtOF(s: Bytes, l: Legacy)
    requires LegacyKindAt(s, l) != NotLegacy
    ensures l.q < |s| && s[l.q] == 0x0F
  {}
}
