/**
 * Direct branches as a processor executes them, put together byte by byte: prefixes, REX, opcode,
 * displacement. Nothing here asks the scanner's own reading, which is proved to agree.
 */
module Branches {
  import opened ByteStrings
  import opened X86Len
  import opened ControlFlow
  import VexDecode

  datatype Kind = Jcc8(cc: nat) | Jmp8 | Jcc32(cc: nat) | Jmp32 | Loop(op: nat)

  /** rex: none, or one byte. */
  datatype Branch = Branch(prefixes: Bytes, rex: Bytes, kind: Kind, disp: int)

  predicate Legacy(c: Byte) {
    || c == 0x26 || c == 0x2E || c == 0x36 || c == 0x3E || c == 0x64 || c == 0x65
    || c == 0x66 || c == 0x67 || c == 0xF0 || c == 0xF2 || c == 0xF3
  }

  predicate AllLegacy(p: Bytes) { forall i :: 0 <= i < |p| ==> Legacy(p[i]) }

  predicate RexOk(rex: Bytes) { |rex| == 0 || (|rex| == 1 && 0x40 <= rex[0] <= 0x4F) }

  predicate Short(k: Kind) { k.Jcc8? || k.Jmp8? || k.Loop? }

  predicate KindOk(k: Kind) {
    match k
    case Jcc8(cc) => cc < 16
    case Jmp8 => true
    case Jcc32(cc) => cc < 16
    case Jmp32 => true
    case Loop(op) => op < 4
  }

  /** A near branch has no operand-size prefix. */
  predicate BranchOk(b: Branch) {
    && AllLegacy(b.prefixes) && RexOk(b.rex) && KindOk(b.kind)
    && if Short(b.kind) then -0x80 <= b.disp <= 0x7F
       else -0x8000_0000 <= b.disp <= 0x7FFF_FFFF && 0x66 !in b.prefixes
  }

  function Opcode(k: Kind): Bytes
    requires KindOk(k)
  {
    match k
    case Jcc8(cc) => [0x70 + cc]
    case Jmp8 => [0xEB]
    case Jcc32(cc) => [0x0F, 0x80 + cc]
    case Jmp32 => [0xE9]
    case Loop(op) => [0xE0 + op]
  }

  function Disp8(d: int): (s: Bytes)
    requires -0x80 <= d <= 0x7F
    ensures |s| == 1
  {
    [if d < 0 then d + 0x100 else d]
  }

  function Disp32(d: int): (s: Bytes)
    requires -0x8000_0000 <= d <= 0x7FFF_FFFF
    ensures |s| == 4
  {
    var u := if d < 0 then d + 0x1_0000_0000 else d;
    [u % 0x100, u / 0x100 % 0x100, u / 0x1_0000 % 0x100, u / 0x100_0000]
  }

  function Displacement(b: Branch): Bytes
    requires BranchOk(b)
  {
    if Short(b.kind) then Disp8(b.disp) else Disp32(b.disp)
  }

  function Assembled(b: Branch): (s: Bytes)
    requires BranchOk(b)
  {
    b.prefixes + b.rex + Opcode(b.kind) + Displacement(b)
  }

  predicate Starts(s: Bytes, c: Bytes) { |c| <= |s| && s[..|c|] == c }

  /** The instruction at the start of s, at offset off, is b, and takes control to y. */
  ghost predicate TakenBy(s: Bytes, off: int, y: int, b: Branch) {
    BranchOk(b) && Starts(s, Assembled(b)) && y == off + |Assembled(b)| + b.disp
  }

  ghost predicate Takes(s: Bytes, off: int, y: int) { exists b :: TakenBy(s, off, y, b) }

  /** Instructions that never go on to the next one. */
  datatype End = Ret | RetImm(a: Byte, b: Byte) | Lret | LretImm(a: Byte, b: Byte) | Hlt | Ud2

  function EndCode(e: End): Bytes {
    match e
    case Ret => [0xC3]
    case RetImm(a, b) => [0xC2, a, b]
    case Lret => [0xCB]
    case LretImm(a, b) => [0xCA, a, b]
    case Hlt => [0xF4]
    case Ud2 => [0x0F, 0x0B]
  }

  ghost predicate EndsBy(s: Bytes, prefixes: Bytes, rex: Bytes, e: End) {
    AllLegacy(prefixes) && RexOk(rex) && Starts(s, prefixes + rex + EndCode(e))
  }

  /** The instruction at the start of s does not fall through. */
  ghost predicate Ends(s: Bytes) {
    || (exists b :: BranchOk(b) && (b.kind.Jmp8? || b.kind.Jmp32?) && Starts(s, Assembled(b)))
    || exists prefixes, rex, e :: EndsBy(s, prefixes, rex, e)
  }

  // ------------------------------------------------- finding the opcode

  lemma SamePrefixes(c: Byte)
    ensures Legacy(c) == IsPrefix(c)
  {}

  lemma {:induction false} ScanOver(s: Bytes, p: nat, i: nat, opsz: bool, f3: int)
    requires i <= p < |s| && (forall k :: 0 <= k < p ==> IsPrefix(s[k])) && !IsPrefix(s[p])
    ensures ScanPrefixes(s, i, opsz, f3).n == p
    ensures ScanPrefixes(s, i, opsz, f3).opsz == (opsz || 0x66 in s[i..p])
    decreases p - i
  {
    hide IsPrefix;
    if i < p {
      ScanOver(s, p, i + 1, opsz || s[i] == 0x66, if s[i] == 0xF3 then i else f3);
      assert s[i..p] == [s[i]] + s[i + 1..p];
    }
  }

  /** Prefixes, then at most one REX, then an opcode that is neither. */
  ghost predicate Laid(s: Bytes, prefixes: Bytes, rex: Bytes, code: Bytes) {
    && AllLegacy(prefixes) && RexOk(rex) && |code| > 0 && !IsPrefix(code[0]) && !IsRex(code[0])
    && Starts(s, prefixes + rex + code)
  }

  lemma Layout(s: Bytes, prefixes: Bytes, rex: Bytes, code: Bytes)
    requires Laid(s, prefixes, rex, code)
    ensures var q := |prefixes| + |rex|;
      && AfterPrefixes(s) == |prefixes| && OpcodePos(s) == q
      && ScanPrefixes(s, 0, false, -1).opsz == (0x66 in prefixes)
      && q + |code| <= |s| && (forall k :: 0 <= k < |code| ==> s[q + k] == code[k])
      && (|rex| == 1 ==> s[|prefixes|] == rex[0] && IsRex(rex[0])) && !IsRex(s[q])
  {
    var c, p := prefixes + rex + code, |prefixes|;
    assert forall k :: 0 <= k < |c| ==> s[k] == s[..|c|][k] == c[k];
    forall k | 0 <= k < p
      ensures IsPrefix(s[k])
    {
      assert s[k] == prefixes[k];
      SamePrefixes(prefixes[k]);
    }
    assert s[p] == if |rex| == 1 then rex[0] else code[0];
    ScanOver(s, p, 0, false, -1);
    assert s[0..p] == prefixes;
  }

  // ---------------------------------------------------- what is read there

  lemma Disp8Read(d: int)
    requires -0x80 <= d <= 0x7F
    ensures VexDecode.Signed8(Disp8(d)[0]) == d
  {}

  lemma Disp32Read(s: Bytes, i: nat, d: int)
    requires -0x8000_0000 <= d <= 0x7FFF_FFFF && i + 4 <= |s|
    requires forall k :: 0 <= k < 4 ==> s[i + k] == Disp32(d)[k]
    ensures VexDecode.Signed32(s, i) == d
  {
    var u := if d < 0 then d + 0x1_0000_0000 else d;
    var g: seq<int> := Disp32(d);
    Digits(u);
    assert s[i + 0] == g[0] && s[i + 1] == g[1] && s[i + 2] == g[2] && s[i + 3] == g[3];
    assert g[0] + 0x100 * (g[1] + 0x100 * (g[2] + 0x100 * g[3])) == u;
    hide Disp32;
  }

  lemma Digits(u: nat)
    requires u < 0x1_0000_0000
    ensures u / 0x100_0000 < 0x100
    ensures u % 0x100 + 0x100 * (u / 0x100 % 0x100 + 0x100 * (u / 0x1_0000 % 0x100 + 0x100 * (u / 0x100_0000))) == u
  {
    var a := u / 0x100;
    var b := a / 0x100;
    assert b == u / 0x1_0000 && b / 0x100 == u / 0x100_0000;
  }

  /** The opcode and displacement of a branch, as one piece. */
  function Body(b: Branch): Bytes
    requires BranchOk(b)
  {
    Opcode(b.kind) + Displacement(b)
  }

  lemma BodyLaid(s: Bytes, b: Branch)
    requires BranchOk(b) && Starts(s, Assembled(b))
    ensures Laid(s, b.prefixes, b.rex, Body(b))
    ensures |Assembled(b)| == |b.prefixes| + |b.rex| + |Body(b)|
  {
    hide AllLegacy, RexOk;
    assert Assembled(b) == b.prefixes + b.rex + Body(b);
  }

  /** The length decoder finds the length of the construction. */
  lemma BranchLength(s: Bytes, b: Branch)
    requires BranchOk(b) && Starts(s, Assembled(b))
    ensures Length(s).len == |Assembled(b)|
  {
    hide Length, ScanPrefixes, AllLegacy;
    BodyLaid(s, b);
    Layout(s, b.prefixes, b.rex, Body(b));
    var q := |b.prefixes| + |b.rex|;
    assert s[q + 0] == Body(b)[0];
    if Short(b.kind) {
      ShortLength(s);
    } else {
      if b.kind.Jcc32? { assert s[q + 1] == Body(b)[1]; }
      NearLength(s);
    }
  }

  predicate ShortOpcode(c: Byte) { 0x70 <= c <= 0x7F || c == 0xEB || 0xE0 <= c <= 0xE3 }

  /** A short branch is its opcode and one byte. */
  lemma ShortLength(s: Bytes)
    requires var q := OpcodePos(s); q < |s| && ShortOpcode(s[q])
    ensures var q := OpcodePos(s); Length(s).len == if q + 2 <= |s| then q + 2 else 0
  {
    hide ScanPrefixes, AfterModrm, After0F, AfterVex;
  }

  predicate OperandSize(s: Bytes) { ScanPrefixes(s, 0, false, -1).opsz }

  /** A near one has four bytes of displacement, or two with the operand-size prefix. */
  lemma NearLength(s: Bytes)
    requires var q := OpcodePos(s); q < |s| && Near(s, q)
    ensures var q := OpcodePos(s);
      var e := q + (if s[q] == 0xE9 then 1 else 2) + if OperandSize(s) then 2 else 4;
      Length(s).len == if e <= |s| then e else 0
  {
    hide ScanPrefixes, AfterModrm, AfterVex;
  }

  lemma NearDisplacement(s: Bytes, b: Branch, q: nat)
    requires BranchOk(b) && !Short(b.kind) && q + |Body(b)| <= |s|
    requires forall k :: 0 <= k < |Body(b)| ==> s[q + k] == Body(b)[k]
    ensures q + |Opcode(b.kind)| + 4 <= |s| && VexDecode.Signed32(s, q + |Opcode(b.kind)|) == b.disp
  {
    hide AllLegacy, Opcode, Disp32, VexDecode.Signed32;
    var n, body := |Opcode(b.kind)|, Body(b);
    forall k | 0 <= k < 4
      ensures s[q + n + k] == Disp32(b.disp)[k]
    {
      assert s[q + (n + k)] == body[n + k];
    }
    Disp32Read(s, q + n, b.disp);
  }

  /** cflow reports where the branch goes, and whether it always does. */
  lemma BranchFlow(s: Bytes, off: int, b: Branch)
    requires BranchOk(b) && Starts(s, Assembled(b))
    ensures Length(s).len == |Assembled(b)| > 0
    ensures !b.kind.Loop? ==>
      Classify(s, off) == Flow(b.kind.Jmp8? || b.kind.Jmp32?, off + |Assembled(b)| + b.disp)
    ensures b.kind.Loop? ==> IsLoop(s) && LoopTarget(s, off) == off + |Assembled(b)| + b.disp
  {
    hide Length, ScanPrefixes, AllLegacy, RexOk, Disp32, VexDecode.Signed32, Starts;
    BranchLength(s, b);
    BodyLaid(s, b);
    Layout(s, b.prefixes, b.rex, Body(b));
    var q, body := |b.prefixes| + |b.rex|, Body(b);
    assert s[q + 0] == body[0];
    if Short(b.kind) {
      assert s[q + 1] == body[1] == Disp8(b.disp)[0];
      Disp8Read(b.disp);
    } else {
      NearDisplacement(s, b, q);
      if b.kind.Jcc32? { assert s[q + 1] == body[1]; }
    }
  }

  // ------------------------------------------------------- the converse

  lemma PrefixBytes(s: Bytes)
    ensures AllLegacy(s[..AfterPrefixes(s)]) && AfterPrefixes(s) <= OpcodePos(s)
    ensures RexOk(s[AfterPrefixes(s)..OpcodePos(s)])
    ensures !OperandSize(s) ==> 0x66 !in s[..AfterPrefixes(s)]
  {
    var p := AfterPrefixes(s);
    forall i | 0 <= i < p
      ensures Legacy(s[..p][i])
    {
      SamePrefixes(s[i]);
    }
    if p < |s| {
      ScanOver(s, p, 0, false, -1);
      assert s[0..p] == s[..p];
    } else {
      ScanAll(s, 0, false, -1);
      assert s[0..] == s[..p];
    }
  }

  lemma {:induction false} ScanAll(s: Bytes, i: nat, opsz: bool, f3: int)
    requires i <= |s| && ScanPrefixes(s, i, opsz, f3).n == |s|
    ensures ScanPrefixes(s, i, opsz, f3).opsz == (opsz || 0x66 in s[i..])
    decreases |s| - i
  {
    if i < |s| {
      ScanAll(s, i + 1, opsz || s[i] == 0x66, if s[i] == 0xF3 then i else f3);
      assert s[i..] == [s[i]] + s[i + 1..];
    }
  }

  lemma Reassembled(s: Bytes, b: Branch, n: nat)
    requires BranchOk(b) && AfterPrefixes(s) <= OpcodePos(s) <= n <= |s|
    requires b.prefixes == s[..AfterPrefixes(s)] && b.rex == s[AfterPrefixes(s)..OpcodePos(s)]
    requires Body(b) == s[OpcodePos(s)..n]
    ensures Starts(s, Assembled(b)) && |Assembled(b)| == n
  {
    assert s[..n] == s[..AfterPrefixes(s)] + s[AfterPrefixes(s)..OpcodePos(s)] + s[OpcodePos(s)..n];
    assert Assembled(b) == b.prefixes + b.rex + Body(b);
  }

  function ShortKind(c: Byte): Kind
    requires ShortOpcode(c)
  {
    if c == 0xEB then Jmp8 else if c < 0x80 then Jcc8(c - 0x70) else Loop(c - 0xE0)
  }

  /** Whatever the decoder takes for a short branch is one. */
  lemma ShortFound(s: Bytes) returns (b: Branch)
    requires var q := OpcodePos(s); Length(s).len > 0 && q < |s| && ShortOpcode(s[q])
    ensures BranchOk(b) && Starts(s, Assembled(b)) && b.kind == ShortKind(s[OpcodePos(s)])
  {
    hide Length, AfterPrefixes, OpcodePos;
    PrefixBytes(s);
    ShortLength(s);
    var p, q := AfterPrefixes(s), OpcodePos(s);
    b := Branch(s[..p], s[p..q], ShortKind(s[q]), VexDecode.Signed8(s[q + 1]));
    assert Body(b) == s[q..q + 2];
    Reassembled(s, b, q + 2);
  }

  lemma NearFound(s: Bytes) returns (b: Branch)
    requires var q := OpcodePos(s); Length(s).len > 0 && q < |s| && Near(s, q) && !OperandSize(s)
    ensures BranchOk(b) && Starts(s, Assembled(b))
    ensures b.kind == if s[OpcodePos(s)] == 0xE9 then Jmp32 else Jcc32(s[OpcodePos(s) + 1] - 0x80)
  {
    hide Length, AfterPrefixes, OpcodePos, AllLegacy, RexOk, VexDecode.Signed32, Disp32;
    PrefixBytes(s);
    NearLength(s);
    var p, q := AfterPrefixes(s), OpcodePos(s);
    var n := q + if s[q] == 0xE9 then 1 else 2;
    var d := VexDecode.Signed32(s, n);
    b := Branch(s[..p], s[p..q], if s[q] == 0xE9 then Jmp32 else Jcc32(s[q + 1] - 0x80), d);
    Disp32Back(s, n);
    assert Opcode(b.kind) == s[q..n];
    hide Near, OperandSize, Opcode, Disp32;
    assert s[q..n + 4] == s[q..n] + s[n..n + 4];
    Reassembled(s, b, n + 4);
  }

  lemma Disp32Back(s: Bytes, i: nat)
    requires i + 4 <= |s|
    ensures -0x8000_0000 <= VexDecode.Signed32(s, i) <= 0x7FFF_FFFF
    ensures Disp32(VexDecode.Signed32(s, i)) == s[i..i + 4]
  {
    var a: int, b: int, c: int, d: int := s[i], s[i + 1], s[i + 2], s[i + 3];
    FromDigits(a, b, c, d);
  }

  lemma FromDigits(a: nat, b: nat, c: nat, d: nat)
    requires a < 0x100 && b < 0x100 && c < 0x100 && d < 0x100
    ensures var u := a + 256 * (b + 256 * (c + 256 * d));
      u % 0x100 == a && u / 0x100 % 0x100 == b && u / 0x1_0000 % 0x100 == c && u / 0x100_0000 == d
  {
    var u := a + 256 * (b + 256 * (c + 256 * d));
    assert u / 0x100 == b + 256 * (c + 256 * d);
    assert u / 0x1_0000 == c + 256 * d;
  }

  // ------------------------------------------------- what cflow amounts to

  /** A near branch with the operand-size prefix, which cflow reads past its displacement. */
  predicate PrefixedNear(s: Bytes) {
    var q := OpcodePos(s);
    q < |s| && Near(s, q) && OperandSize(s)
  }

  /**
   * A branch that the processor takes is reported with the target it is taken to, or is one of
   * the loop branches.
   */
  lemma TakenReported(s: Bytes, off: int, y: int)
    requires Takes(s, off, y)
    ensures Length(s).len > 0
    ensures Classify(s, off).tgt == y || (IsLoop(s) && LoopTarget(s, off) == y)
  {
    hide Classify, Length, LoopTarget, IsLoop, Assembled, BranchOk;
    var b :| TakenBy(s, off, y, b);
    BranchFlow(s, off, b);
  }

  /** Every loop branch is one the processor can take. */
  lemma LoopTaken(s: Bytes, off: int)
    requires Length(s).len > 0 && IsLoop(s)
    ensures Takes(s, off, LoopTarget(s, off))
  {
    hide Length, LoopTarget, Classify;
    var b := ShortFound(s);
    BranchFlow(s, off, b);
    assert TakenBy(s, off, LoopTarget(s, off), b);
  }

  /** What is reported is taken: every target but -1, near branches with the operand-size prefix apart. */
  lemma ReportedTaken(s: Bytes, off: int)
    requires Length(s).len > 0 && !PrefixedNear(s)
    ensures Classify(s, off).tgt != -1 ==> Takes(s, off, Classify(s, off).tgt)
  {
    hide Length, AfterPrefixes, Assembled;
    var q := OpcodePos(s);
    if q < |s| && ShortOpcode(s[q]) && !(0xE0 <= s[q] <= 0xE3) {
      var b := ShortFound(s);
      BranchFlow(s, off, b);
      hide Classify;
      assert TakenBy(s, off, Classify(s, off).tgt, b);
    } else if q < |s| && Near(s, q) {
      var b := NearFound(s);
      BranchFlow(s, off, b);
      hide Classify;
      assert TakenBy(s, off, Classify(s, off).tgt, b);
    }
  }

  function EndStart(e: End): Byte { EndCode(e)[0] }

  /** Control is reported not to fall through exactly where it does not. */
  lemma EndsReported(s: Bytes, off: int)
    requires Ends(s)
    ensures Length(s).len > 0 ==> Classify(s, off).term
  {
    hide Length, Assembled, Starts, AllLegacy;
    if b :| BranchOk(b) && (b.kind.Jmp8? || b.kind.Jmp32?) && Starts(s, Assembled(b)) {
      BranchFlow(s, off, b);
    } else {
      var prefixes, rex, e :| EndsBy(s, prefixes, rex, e);
      EndLaid(s, prefixes, rex, e);
    }
  }

  lemma EndLaid(s: Bytes, prefixes: Bytes, rex: Bytes, e: End)
    requires EndsBy(s, prefixes, rex, e)
    ensures var q := OpcodePos(s); q + |EndCode(e)| <= |s| && s[q] == EndCode(e)[0] && (e.Ud2? ==> s[q + 1] == 0x0B)
  {
    hide AllLegacy, RexOk;
    var c := EndCode(e);
    Layout(s, prefixes, rex, c);
    var q := |prefixes| + |rex|;
    assert s[q + 0] == c[0];
    if e.Ud2? { assert s[q + 1] == c[1]; }
  }

  lemma ReportedEnds(s: Bytes, off: int)
    requires Length(s).len > 0 && !PrefixedNear(s) && Classify(s, off).term
    ensures Ends(s)
  {
    hide Length, AfterPrefixes, Assembled;
    var q := OpcodePos(s);
    if s[q] == 0xEB {
      var b := ShortFound(s);
    } else if s[q] == 0xE9 {
      var b := NearFound(s);
    } else {
      EndFound(s);
    }
  }

  lemma EndFound(s: Bytes)
    requires Length(s).len > 0 && OpcodePos(s) < |s|
    requires var q := OpcodePos(s);
      s[q] == 0xC3 || s[q] == 0xC2 || s[q] == 0xCB || s[q] == 0xCA || s[q] == 0xF4
      || (s[q] == 0x0F && q + 1 < |s| && s[q + 1] == 0x0B)
    ensures exists prefixes, rex, e :: EndsBy(s, prefixes, rex, e)
  {
    hide Length, AfterPrefixes, OpcodePos, AllLegacy, RexOk, EndCode, OperandSize;
    if s[OpcodePos(s)] == 0xC2 || s[OpcodePos(s)] == 0xCA { RetLength(s); }
    PrefixBytes(s);
    var p, q := AfterPrefixes(s), OpcodePos(s);
    EndThere(s, q);
    var e := EndAt(s, q);
    Cut(s, p, q, q + |EndCode(e)|);
    assert EndsBy(s, s[..p], s[p..q], e);
  }

  function EndAt(s: Bytes, q: nat): End
    requires q < |s| && (s[q] == 0xC2 || s[q] == 0xCA ==> q + 3 <= |s|)
  {
    if s[q] == 0xC3 then Ret
    else if s[q] == 0xCB then Lret
    else if s[q] == 0xF4 then Hlt
    else if s[q] == 0xC2 then RetImm(s[q + 1], s[q + 2])
    else if s[q] == 0xCA then LretImm(s[q + 1], s[q + 2])
    else Ud2
  }

  lemma EndThere(s: Bytes, q: nat)
    requires q < |s| && (s[q] == 0xC2 || s[q] == 0xCA ==> q + 3 <= |s|)
    requires s[q] == 0xC3 || s[q] == 0xC2 || s[q] == 0xCB || s[q] == 0xCA || s[q] == 0xF4
      || (s[q] == 0x0F && q + 1 < |s| && s[q + 1] == 0x0B)
    ensures var c := EndCode(EndAt(s, q)); q + |c| <= |s| && s[q..q + |c|] == c
  {}

  lemma Cut(s: Bytes, p: nat, q: nat, n: nat)
    requires p <= q <= n <= |s|
    ensures s[..n] == s[..p] + s[p..q] + s[q..n] && |s[..p] + s[p..q] + s[q..n]| == n
  {}

  lemma RetLength(s: Bytes)
    requires Length(s).len > 0 && OpcodePos(s) < |s| && (s[OpcodePos(s)] == 0xC2 || s[OpcodePos(s)] == 0xCA)
    ensures OpcodePos(s) + 3 <= |s|
  {
    hide ScanPrefixes, AfterModrm, After0F, AfterVex;
  }

  /** jmp with the operand-size prefix: the prefix and the opcode are read as part of the displacement. */
  lemma PrefixedMisread(off: int)
    ensures var s: Bytes := [0x66, 0xE9, 0x10, 0x00]; PrefixedNear(s) && Classify(s, off).tgt == off + 4 + 0x10_E966
  {
    var s: Bytes := [0x66, 0xE9, 0x10, 0x00];
    assert ScanPrefixes(s, 0, false, -1) == ScanPrefixes(s, 1, true, -1) == Prefixes(1, true, -1);
  }

  // ------------------------------------------------ dispatches and leas

  /** jmp through a register or memory, opcode FF /4, is recognized. */
  lemma IndirectRead(s: Bytes, prefixes: Bytes, rex: Bytes, modrm: Byte)
    requires AllLegacy(prefixes) && RexOk(rex) && modrm / 8 % 8 == 4
    requires Starts(s, prefixes + rex + [0xFF, modrm])
    ensures IsJmpIndirect(s)
  {
    hide AllLegacy, RexOk;
    var c: Bytes := [0xFF, modrm];
    Layout(s, prefixes, rex, c);
    var q := |prefixes| + |rex|;
    assert s[q + 0] == c[0] && s[q + 1] == c[1];
  }

  /** lea of a register from the instruction pointer: where it points is its end plus the displacement. */
  lemma LeaRead(s: Bytes, prefixes: Bytes, rex: Byte, reg: nat, d: int)
    requires AllLegacy(prefixes) && 0x48 <= rex <= 0x4F && reg < 8 && -0x8000_0000 <= d <= 0x7FFF_FFFF
    requires Starts(s, prefixes + [rex] + ([0x8D, 8 * reg + 5] + Disp32(d)))
    ensures Length(s).len == |prefixes| + 7 && IsLeaRip(s) && LeaDisp(s) == d
  {
    hide AllLegacy, Disp32, VexDecode.Signed32, Length;
    var c := [0x8D, 8 * reg + 5] + Disp32(d);
    Layout(s, prefixes, [rex], c);
    var q := |prefixes| + 1;
    assert s[q + 0] == c[0] && s[q + 1] == c[1];
    LeaLength(s);
    forall k | 0 <= k < 4
      ensures s[q + 2 + k] == Disp32(d)[k]
    {
      assert s[q + (2 + k)] == c[2 + k];
    }
    Disp32Read(s, q + 2, d);
  }

  lemma LeaLength(s: Bytes)
    requires var q := OpcodePos(s); q + 6 <= |s| && s[q] == 0x8D && s[q + 1] / 64 == 0 && s[q + 1] % 8 == 5
    ensures Length(s).len == OpcodePos(s) + 6
  {
    hide ScanPrefixes, After0F, AfterVex;
  }
}
