/**
 * Switch dispatches as compilers write them, instruction by instruction: each one is resolved,
 * to the table its bytes name and the number of entries its bound allows.
 */
module JumpWindows {
  import opened ByteStrings
  import opened JumpTable
  import X86Len
  import VexDecode
  import V = VexEncode
  import opened Branches

  ghost predicate Holds(text: Text, p: int, c: Bytes) { forall k :: 0 <= k < |c| ==> text(p + k) == c[k] }

  lemma HoldsBytes(text: Text, p: int, c: Bytes)
    requires Holds(text, p, c)
    ensures |c| > 0 ==> text(p) == c[0]
    ensures |c| > 1 ==> text(p + 1) == c[1]
    ensures |c| > 2 ==> text(p + 2) == c[2]
    ensures |c| > 3 ==> text(p + 3) == c[3]
  {
    if |c| > 0 { assert text(p + 0) == c[0]; }
  }

  lemma HoldsTail(text: Text, p: int, a: Bytes, b: Bytes)
    requires Holds(text, p, a + b)
    ensures Holds(text, p, a) && Holds(text, p + |a|, b)
  {
    forall k | 0 <= k < |b|
      ensures text(p + |a| + k) == b[k]
    {
      assert text(p + (|a| + k)) == (a + b)[|a| + k];
    }
    forall k | 0 <= k < |a|
      ensures text(p + k) == a[k]
    {
      assert (a + b)[k] == a[k];
    }
  }

  /** Width, register, index and base extension. */
  function Rex(w: bool, r: bool, x: bool, b: bool): Byte {
    0x40 + V.Bit(w, 8) + V.Bit(r, 4) + V.Bit(x, 2) + V.Bit(b, 1)
  }

  lemma RexBits(w: bool, r: bool, x: bool, b: bool)
    ensures var c := Rex(w, r, x, b);
      && X86Len.IsRex(c) && VexDecode.RexW(c) == w && VexDecode.RexR(c) == r
      && VexDecode.RexX(c) == x && VexDecode.RexB(c) == b
  {}

  /** An instruction with its REX byte, or without one where none is needed. */
  lemma RexAt(text: Text, p: int, w: bool, r: bool, x: bool, b: bool, code: Bytes)
    requires Holds(text, p, [Rex(w, r, x, b)] + code)
    ensures RexByte(text, p) == Rex(w, r, x, b) && RexSize(text, p) == 1 && Holds(text, p + 1, code)
  {
    hide Rex;
    HoldsTail(text, p, [Rex(w, r, x, b)], code);
    HoldsBytes(text, p, [Rex(w, r, x, b)] + code);
    RexBits(w, r, x, b);
  }

  lemma NoRexAt(text: Text, p: int, code: Bytes)
    requires |code| > 0 && Holds(text, p, code) && !X86Len.IsRex(code[0])
    ensures RexByte(text, p) == 0 && RexSize(text, p) == 0
  {
    HoldsBytes(text, p, code);
  }

  lemma Displaced(text: Text, p: int, d: int)
    requires -0x8000_0000 <= d <= 0x7FFF_FFFF && Holds(text, p, Disp32(d))
    ensures Int32At(text, p) == d
  {
    var u := if d < 0 then d + 0x1_0000_0000 else d;
    var g: seq<int> := Disp32(d);
    HoldsBytes(text, p, Disp32(d));
    Digits(u);
    assert g[0] + 0x100 * (g[1] + 0x100 * (g[2] + 0x100 * g[3])) == u;
    hide Disp32;
  }

  lemma Extended(n: nat, low: nat)
    requires n < 16 && low == n % 8
    ensures low + (if n >= 8 then 8 else 0) == n
  {}

  // ------------------------------------------------- the instructions

  /** How the bound is compared: with a byte, with four, or in eax. */
  datatype Compare = ByByte | ByWord | InEax

  /** w: a 64-bit compare; a REX byte is there if it is, or if the register needs one. */
  function CmpCode(k: Compare, w: bool, rI: nat, imm: int): Bytes
    requires rI < 16 && 0 <= imm <= 0x7FFF_FFFF && (k.ByByte? ==> imm < 0x80)
  {
    (if w || rI >= 8 then [Rex(w, false, false, rI >= 8)] else []) + CmpBody(k, rI, imm)
  }

  function CmpBody(k: Compare, rI: nat, imm: int): Bytes
    requires rI < 16 && 0 <= imm <= 0x7FFF_FFFF && (k.ByByte? ==> imm < 0x80)
  {
    match k
    case ByByte => [0x83, V.Fields(3, 7, rI % 8), imm]
    case ByWord => [0x81, V.Fields(3, 7, rI % 8)] + Disp32(imm)
    case InEax => [0x3D] + Disp32(imm)
  }

  lemma CmpRead(text: Text, p: int, k: Compare, w: bool, rI: nat, imm: int)
    requires rI < 16 && 0 <= imm <= 0x7FFF_FFFF && (k.ByByte? ==> imm < 0x80) && (k.InEax? ==> rI == 0)
    requires Holds(text, p, CmpCode(k, w, rI, imm))
    ensures CmpBound(text, p, rI) == imm && !IsJa(text, p)
  {
    hide Disp32, Int32At, V.Fields, Holds, RexByte, RexSize, CmpCode;
    var body := CmpBody(k, rI, imm);
    CmpHead(text, p, k, w, rI, imm);
    V.FieldsRead(3, 7, rI % 8);
    Extended(rI, rI % 8);
    var q := p + RexSize(text, p);
    HoldsBytes(text, q, body);
    match k
    case ByByte =>
    case ByWord =>
      HoldsTail(text, q, [0x81, V.Fields(3, 7, rI % 8)], Disp32(imm));
      Displaced(text, q + 2, imm);
    case InEax =>
      HoldsTail(text, q, [0x3D], Disp32(imm));
      Displaced(text, q + 1, imm);
  }

  lemma CmpHead(text: Text, p: int, k: Compare, w: bool, rI: nat, imm: int)
    requires rI < 16 && 0 <= imm <= 0x7FFF_FFFF && (k.ByByte? ==> imm < 0x80)
    requires Holds(text, p, CmpCode(k, w, rI, imm))
    ensures Holds(text, p + RexSize(text, p), CmpBody(k, rI, imm))
    ensures VexDecode.RexB(RexByte(text, p)) == (rI >= 8) && !IsJa(text, p)
  {
    hide Disp32, V.Fields, Rex, Holds;
    var body := CmpBody(k, rI, imm);
    RexBits(w, false, false, rI >= 8);
    HoldsBytes(text, p, CmpCode(k, w, rI, imm));
    if w || rI >= 8 {
      RexAt(text, p, w, false, false, rI >= 8, body);
    } else {
      assert [] + body == body;
      NoRexAt(text, p, body);
    }
  }

  datatype Guard = Short(d: int) | Far(d: int)

  predicate GuardOk(g: Guard) {
    match g
    case Short(d) => -0x80 <= d <= 0x7F
    case Far(d) => -0x8000_0000 <= d <= 0x7FFF_FFFF
  }

  function JaCode(g: Guard): Bytes
    requires GuardOk(g)
  {
    match g
    case Short(d) => [0x77] + Disp8(d)
    case Far(d) => [0x0F, 0x87] + Disp32(d)
  }

  lemma JaRead(text: Text, p: int, g: Guard)
    requires GuardOk(g) && Holds(text, p, JaCode(g))
    ensures IsJa(text, p) && JaTarget(text, p) == p + |JaCode(g)| + g.d
  {
    hide Disp32, Int32At;
    HoldsBytes(text, p, JaCode(g));
    match g
    case Short(d) =>
      Disp8Read(d);
    case Far(d) =>
      HoldsTail(text, p, [0x0F, 0x87], Disp32(d));
      Displaced(text, p + 2, d);
  }

  function LeaCode(rB: nat, d: int): Bytes
    requires rB < 16 && -0x8000_0000 <= d <= 0x7FFF_FFFF
  {
    [Rex(true, rB >= 8, false, false)] + ([0x8D, V.Fields(0, rB % 8, 5)] + Disp32(d))
  }

  lemma LeaReads(text: Text, p: int, rB: nat, d: int)
    requires rB < 16 && -0x8000_0000 <= d <= 0x7FFF_FFFF && Holds(text, p, LeaCode(rB, d))
    ensures LeaLoads(text, p, rB) && LeaTarget(text, p) == p + |LeaCode(rB, d)| + d
    ensures VexDecode.RexW(RexByte(text, p))
  {
    hide Disp32, Int32At, V.Fields, Rex;
    RexBits(true, rB >= 8, false, false);
    V.FieldsRead(0, rB % 8, 5);
    var head := [0x8D, V.Fields(0, rB % 8, 5)];
    RexAt(text, p, true, rB >= 8, false, false, head + Disp32(d));
    HoldsTail(text, p + 1, head, Disp32(d));
    HoldsBytes(text, p + 1, head);
    Displaced(text, p + 3, d);
    Extended(rB, rB % 8);
  }

  function LoadCode(rD: nat, rB: nat, rI: nat): Bytes
    requires rD < 16 && rB < 16 && rI < 16
  {
    [Rex(true, rD >= 8, rI >= 8, rB >= 8)] + [0x63, V.Fields(0, rD % 8, 4), V.Fields(2, rI % 8, rB % 8)]
  }

  lemma LoadReads(text: Text, p: int, rD: nat, rB: nat, rI: nat)
    requires rD < 16 && rB < 16 && rI < 16 && rB % 8 != 5 && Holds(text, p, LoadCode(rD, rB, rI))
    ensures IndexOf(text, p, rD, rB) == rI && VexDecode.RexW(RexByte(text, p))
  {
    hide V.Fields, Rex;
    RexBits(true, rD >= 8, rI >= 8, rB >= 8);
    V.FieldsRead(0, rD % 8, 4);
    V.FieldsRead(2, rI % 8, rB % 8);
    var code := [0x63, V.Fields(0, rD % 8, 4), V.Fields(2, rI % 8, rB % 8)];
    RexAt(text, p, true, rD >= 8, rI >= 8, rB >= 8, code);
    HoldsBytes(text, p + 1, code);
  }

  /** add of rB to rD, with the operands either way round. */
  function AddCode(store: bool, rD: nat, rB: nat): Bytes
    requires rD < 16 && rB < 16
  {
    if store then [Rex(true, rB >= 8, false, rD >= 8)] + [0x01, V.Fields(3, rB % 8, rD % 8)]
    else [Rex(true, rD >= 8, false, rB >= 8)] + [0x03, V.Fields(3, rD % 8, rB % 8)]
  }

  lemma AddReads(text: Text, p: int, store: bool, rD: nat, rB: nat)
    requires rD < 16 && rB < 16 && Holds(text, p, AddCode(store, rD, rB))
    ensures AddendOf(text, p, rD) == rB && VexDecode.RexW(RexByte(text, p))
  {
    hide V.Fields, Rex;
    var a, b := if store then rB else rD, if store then rD else rB;
    RexBits(true, a >= 8, false, b >= 8);
    V.FieldsRead(3, a % 8, b % 8);
    var code := [if store then 0x01 else 0x03, V.Fields(3, a % 8, b % 8)];
    RexAt(text, p, true, a >= 8, false, b >= 8, code);
    HoldsBytes(text, p + 1, code);
  }

  function JmpCode(rD: nat): Bytes
    requires rD < 16
  {
    (if rD >= 8 then [Rex(false, false, false, true)] else []) + [0xFF, V.Fields(3, 4, rD % 8)]
  }

  lemma JmpReads(text: Text, p: int, rD: nat)
    requires rD < 16 && Holds(text, p, JmpCode(rD))
    ensures JumpOf(text, p, |JmpCode(rD)|) == rD
  {
    hide V.Fields, Rex;
    RexBits(false, false, false, true);
    V.FieldsRead(3, 4, rD % 8);
    var code := [0xFF, V.Fields(3, 4, rD % 8)];
    if rD >= 8 {
      RexAt(text, p, false, false, false, true, code);
    } else {
      assert [] + code == code;
      NoRexAt(text, p, code);
    }
    HoldsBytes(text, p + RexSize(text, p), code);
  }

  // --------------------------------------------------------- the window

  /** cmp rI, imm; ja; lea rB; movsxd rD, [rB+4*rI]; add rD, rB; jmp rD. */
  datatype Window = Window(k: Compare, w: bool, rI: nat, imm: int, guard: Guard, rB: nat, d: int, rD: nat, store: bool)

  predicate WindowOk(s: Window) {
    && s.rI < 16 && s.rB < 16 && s.rD < 16 && s.rB % 8 != 5 && s.rB != s.rI && s.rB != s.rD
    && 0 <= s.imm <= 0x7FFF_FFFF && (s.k.ByByte? ==> s.imm < 0x80) && (s.k.InEax? ==> s.rI == 0)
    && GuardOk(s.guard) && -0x8000_0000 <= s.d <= 0x7FFF_FFFF
  }

  /** The window's instructions stand at the last five places of the ring and at jq. */
  ghost predicate WindowHeld(text: Text, ring: seq<int>, jq: int, s: Window)
    requires WindowOk(s) && |ring| >= 5
  {
    var n := |ring|;
    && Holds(text, ring[n - 5], CmpCode(s.k, s.w, s.rI, s.imm)) && Holds(text, ring[n - 4], JaCode(s.guard))
    && Holds(text, ring[n - 3], LeaCode(s.rB, s.d)) && Holds(text, ring[n - 2], LoadCode(s.rD, s.rB, s.rI))
    && Holds(text, ring[n - 1], AddCode(s.store, s.rD, s.rB)) && Holds(text, jq, JmpCode(s.rD))
  }

  /**
   * Such a window is resolved whenever its guard jumps past it and its table is inside the
   * function and not too large, to that table, one entry for each index up to the bound.
   */
  lemma WindowResolves(text: Text, fstart: int, fend: int, ring: seq<int>, jq: int, s: Window)
    requires WindowOk(s) && |ring| >= 5 && WindowHeld(text, ring, jq, s)
    requires ring[|ring| - 4] + |JaCode(s.guard)| + s.guard.d > jq
    requires var tbl := ring[|ring| - 3] + |LeaCode(s.rB, s.d)| + s.d;
      fstart <= tbl < fend && s.imm < MAX_ENTRIES && tbl + 4 * (s.imm + 1) <= fend
    ensures Match(text, fstart, fend, ring, jq, |JmpCode(s.rD)|) ==
      Table(ring[|ring| - 3] + |LeaCode(s.rB, s.d)| + s.d, s.imm + 1, |ring| - 5)
  {
    hide CmpCode, JaCode, LeaCode, LoadCode, AddCode, JmpCode, Holds, JumpOf, AddendOf, IndexOf, LeaLoads, LeaTarget,
         IsJa, JaTarget, CmpBound, IsMovzx;
    var n := |ring|;
    JmpReads(text, jq, s.rD);
    AddReads(text, ring[n - 1], s.store, s.rD, s.rB);
    LoadReads(text, ring[n - 2], s.rD, s.rB, s.rI);
    LeaReads(text, ring[n - 3], s.rB, s.d);
    JaRead(text, ring[n - 4], s.guard);
    CmpRead(text, ring[n - 5], s.k, s.w, s.rI, s.imm);
    assert SearchBound(text, ring, jq, s.rI, n - 5, true) == Bounded(s.imm + 1, n - 5);
  }
}
