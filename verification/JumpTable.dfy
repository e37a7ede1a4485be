/**
 * resolve_jump_table: bounding a switch dispatch. The text is a total map from offsets to
 * bytes; the processor's reading of the window is kept apart from the matcher's.
 */
module JumpTable {
  import opened ByteStrings
  import opened X86Len
  import opened VexDecode

  type Text = int -> Byte

  const TWO32 := 0x1_0000_0000
  const TWO64 := 0x1_0000_0000_0000_0000
  const MAX_ENTRIES := 16384
  const MAX_TABLES := 16

  /** The signed 32-bit value at p. */
  function Int32At(text: Text, p: int): (v: int)
    ensures -0x8000_0000 <= v <= 0x7FFF_FFFF
  {
    var u: int := text(p) + 0x100 * (text(p + 1) + 0x100 * (text(p + 2) + 0x100 * text(p + 3)));
    if u < 0x8000_0000 then u else u - TWO32
  }

  // ------------------------------------------------- what the processor does

  datatype Instr =
    | CmpImm(reg: nat, wide: bool, imm: int)
    | Ja
    | MovzxByte(reg: nat)
    | LeaRip(reg: nat, wide: bool, size: nat, disp: int)
    | MovsxdIndexed(reg: nat, wide: bool, base: nat, index: int)
    | AddReg(dst: nat, src: nat, wide: bool)
    | JmpReg(reg: nat)
    | Unknown

  function RexByte(text: Text, p: int): Byte { if IsRex(text(p)) then text(p) else 0 }

  function RexSize(text: Text, p: int): nat { if IsRex(text(p)) then 1 else 0 }

  function RegField(modrm: Byte, rex: Byte): (r: nat)
    ensures r < 16
  {
    (modrm / 8) % 8 + if RexR(rex) then 8 else 0
  }

  function RmField(modrm: Byte, rex: Byte): (r: nat)
    ensures r < 16
  {
    modrm % 8 + if RexB(rex) then 8 else 0
  }

  /** SIB index: 100 without REX.X means no index register. */
  function IndexField(sib: Byte, rex: Byte): (r: int)
    ensures -1 <= r < 16
  {
    var x := (sib / 8) % 8 + if RexX(rex) then 8 else 0;
    if x == 4 then -1 else x
  }

  /** The instruction at p, as far as dispatch windows go; anything else is Unknown. */
  function At(text: Text, p: int): Instr {
    var rex, k := RexByte(text, p), p + RexSize(text, p);
    var op, m := text(k), text(k + 1);
    if op == 0x77 || (op == 0x0F && m == 0x87) then Ja
    else if op == 0x83 && m / 64 == 3 && (m / 8) % 8 == 7 then CmpImm(RmField(m, rex), RexW(rex), Signed8(text(k + 2)))
    else if op == 0x81 && m / 64 == 3 && (m / 8) % 8 == 7 then CmpImm(RmField(m, rex), RexW(rex), Int32At(text, k + 2))
    else if op == 0x3D then CmpImm(0, RexW(rex), Int32At(text, k + 1))
    else if op == 0x0F && m == 0xB6 then MovzxByte(RegField(text(k + 2), rex))
    else if op == 0x8D && m / 64 == 0 && m % 8 == 5 then
      LeaRip(RegField(m, rex), RexW(rex), k - p + 6, Int32At(text, k + 2))
    else if op == 0x63 && m / 64 == 0 && m % 8 == 4 && text(k + 2) / 64 == 2 && text(k + 2) % 8 != 5 then
      MovsxdIndexed(RegField(m, rex), RexW(rex), RmField(text(k + 2), rex), IndexField(text(k + 2), rex))
    else if op == 0x01 && m / 64 == 3 then AddReg(RmField(m, rex), RegField(m, rex), RexW(rex))
    else if op == 0x03 && m / 64 == 3 then AddReg(RegField(m, rex), RmField(m, rex), RexW(rex))
    else if op == 0xFF && m / 64 == 3 && (m / 8) % 8 == 4 then JmpReg(RmField(m, rex))
    else Unknown
  }

  type Regs = r: seq<int> | |r| == 16 && forall i :: 0 <= i < 16 ==> 0 <= r[i] < TWO64
    witness [0, 0, 0, 0, 0, 0, 0, 0, 0, 0, 0, 0, 0, 0, 0, 0]

  /** below, equal: CF and ZF. */
  datatype Cpu = Cpu(regs: Regs, below: bool, equal: bool)

  function Width(wide: bool): (w: int)
    ensures w > 0
  {
    if wide then TWO64 else TWO32
  }

  function EntryAddress(regs: Regs, base: nat, index: int): int
    requires base < 16 && index < 16
  {
    (regs[base] + 4 * if index < 0 then 0 else regs[index]) % TWO64
  }

  /** One instruction falling through to the next; origin is the address of offset 0. */
  ghost predicate Step(text: Text, origin: int, p: int, a: Cpu, b: Cpu) {
    match At(text, p)
    case CmpImm(r, wide, imm) =>
      r < 16 &&
      var x, y := a.regs[r] % Width(wide), imm % Width(wide);
      b == Cpu(a.regs, x < y, x == y)
    case Ja => b == a && (a.below || a.equal)
    case MovzxByte(r) =>
      r < 16 && b.below == a.below && b.equal == a.equal && b.regs == a.regs[r := b.regs[r]] && b.regs[r] < 256
    case LeaRip(r, wide, size, disp) =>
      r < 16 && b == a.(regs := a.regs[r := (origin + p + size + disp) % Width(wide)])
    case MovsxdIndexed(r, wide, base, index) =>
      r < 16 && base < 16 && index < 16 &&
      b == a.(regs := a.regs[r := Int32At(text, EntryAddress(a.regs, base, index) - origin) % Width(wide)])
    case AddReg(d, s, wide) =>
      d < 16 && s < 16 && b.regs == a.regs[d := (a.regs[d] + a.regs[s]) % Width(wide)]
    case JmpReg(_) => false
    case Unknown => true
  }

  // ------------------------------------------------------------ the matcher

  datatype Bound = Unbounded | Bounded(n: int, at: nat)

  /** The immediate of a compare of rI, or -1. */
  function CmpBound(text: Text, p: int, rI: nat): int {
    var rex, k := RexByte(text, p), p + RexSize(text, p);
    var m := text(k + 1);
    if text(k) == 0x83 && m / 64 == 3 && (m / 8) % 8 == 7 && RmField(m, rex) == rI then Signed8(text(k + 2))
    else if text(k) == 0x81 && m / 64 == 3 && (m / 8) % 8 == 7 && RmField(m, rex) == rI then Int32At(text, k + 2)
    else if text(k) == 0x3D && rI == 0 then Int32At(text, k + 1)
    else -1
  }

  predicate IsMovzx(text: Text, p: int, rI: nat) {
    var k := p + RexSize(text, p);
    text(k) == 0x0F && text(k + 1) == 0xB6 && RegField(text(k + 2), RexByte(text, p)) == rI
  }

  predicate IsJa(text: Text, p: int) { text(p) == 0x77 || (text(p) == 0x0F && text(p + 1) == 0x87) }

  function JaTarget(text: Text, p: int): int {
    if text(p) == 0x77 then p + 2 + Signed8(text(p + 1)) else p + 6 + Int32At(text, p + 2)
  }

  /** The backward search for the instruction bounding rI, from ring[h] down. */
  function SearchBound(text: Text, ring: seq<int>, jq: int, rI: nat, h: int, jaSeen: bool): (b: Bound)
    requires h < |ring|
    ensures b.Bounded? ==> b.at <= h
    decreases h + 1
  {
    if h < 0 then Unbounded
    else if IsJa(text, ring[h]) then SearchBound(text, ring, jq, rI, h - 1, jaSeen || JaTarget(text, ring[h]) > jq)
    else if CmpBound(text, ring[h], rI) >= 0 then
      if jaSeen then Bounded(CmpBound(text, ring[h], rI) + 1, h) else Unbounded
    else if IsMovzx(text, ring[h], rI) then Bounded(256, h)
    else Unbounded
  }

  /** rD: the target register; rB: the table's address; rI: the index. */
  datatype Dispatch = NoDispatch | Dispatch(rD: nat, rB: nat, rI: nat, tbl: int)

  function JumpOf(text: Text, jq: int, jlen: int): (r: int)
    ensures -1 <= r < 16
  {
    var rex, n := RexByte(text, jq), RexSize(text, jq);
    var m := text(jq + n + 1);
    if text(jq + n) == 0xFF && (m / 8) % 8 == 4 && m / 64 == 3 && n + 2 == jlen then RmField(m, rex) else -1
  }

  /** The register added to rD, or -1. */
  function AddendOf(text: Text, p: int, rD: int): (r: int)
    ensures -1 <= r < 16
  {
    var rex, k := RexByte(text, p), p + RexSize(text, p);
    var m := text(k + 1);
    if text(k) == 0x01 && m / 64 == 3 then
      if RmField(m, rex) == rD then RegField(m, rex) else -1
    else if text(k) == 0x03 && m / 64 == 3 then
      if RegField(m, rex) == rD then RmField(m, rex) else -1
    else -1
  }

  /** The index field of movsxd rD, [rB+rI*4], or -1; no special meaning is given to 100. */
  function IndexOf(text: Text, p: int, rD: int, rB: int): (r: int)
    ensures -1 <= r < 16
  {
    var rex, k := RexByte(text, p), p + RexSize(text, p);
    var m, sib := text(k + 1), text(k + 2);
    if text(k) == 0x63 && m / 64 == 0 && m % 8 == 4 && RegField(m, rex) == rD && sib / 64 == 2
       && RmField(sib, rex) == rB && sib % 8 != 5
    then (sib / 8) % 8 + if RexX(rex) then 8 else 0
    else -1
  }

  predicate LeaLoads(text: Text, p: int, rB: int) {
    var rex, k := RexByte(text, p), p + RexSize(text, p);
    text(k) == 0x8D && text(k + 1) / 64 == 0 && text(k + 1) % 8 == 5 && RegField(text(k + 1), rex) == rB
  }

  function LeaTarget(text: Text, p: int): int {
    var k := p + RexSize(text, p);
    k + 6 + Int32At(text, k + 2)
  }

  function MatchWindow(text: Text, fstart: int, fend: int, ring: seq<int>, jq: int, jlen: int): (d: Dispatch)
    ensures d.Dispatch? ==> |ring| >= 3 && d.rD < 16 && d.rB < 16 && d.rI < 16
  {
    var n := |ring|;
    if n < 3 then NoDispatch
    else
      var rD := JumpOf(text, jq, jlen);
      var rB := if rD < 0 then -1 else AddendOf(text, ring[n - 1], rD);
      var rI := if rB < 0 then -1 else IndexOf(text, ring[n - 2], rD, rB);
      if rI < 0 || !LeaLoads(text, ring[n - 3], rB) || rB == rI || rB == rD then NoDispatch
      else
        var tbl := LeaTarget(text, ring[n - 3]);
        if fstart <= tbl < fend then Dispatch(rD, rB, rI, tbl) else NoDispatch
  }

  datatype Table = NoTable | Table(tbl: int, n: nat, at: nat)

  function Match(text: Text, fstart: int, fend: int, ring: seq<int>, jq: int, jlen: int): (t: Table)
    ensures t.Table? ==> t.at + 4 <= |ring|
  {
    var d := MatchWindow(text, fstart, fend, ring, jq, jlen);
    if d.NoDispatch? then NoTable
    else
      var b := SearchBound(text, ring, jq, d.rI, |ring| - 4, false);
      if b.Bounded? && 0 < b.n <= MAX_ENTRIES && d.tbl + 4 * b.n <= fend then Table(d.tbl, b.n, b.at) else NoTable
  }

  // ----------------------------------------------------- straight-line runs

  /** Execution of ring[at] up to ring[to], one instruction after the other. */
  ghost predicate RunsTo(text: Text, origin: int, ring: seq<int>, at: nat, to: int, s: seq<Cpu>) {
    && at <= to < |ring| && |s| == to - at + 2
    && forall k :: 0 <= k < |s| - 1 ==> Step(text, origin, ring[at + k], s[k], s[k + 1])
  }

  ghost predicate WideWindow(text: Text, ring: seq<int>)
    requires |ring| >= 3
  {
    var n := |ring|;
    RexW(RexByte(text, ring[n - 3])) && RexW(RexByte(text, ring[n - 2])) && RexW(RexByte(text, ring[n - 1]))
  }

  /** A 32-bit compare says nothing about the upper half of the register. */
  ghost predicate ZeroExtended(text: Text, p: int, regs: Regs) {
    var i := At(text, p);
    i.CmpImm? && !i.wide && i.reg < 16 ==> regs[i.reg] < TWO32
  }

  /** Instructions between the bound and the lea keep registers, and pass only if not above. */
  lemma {:induction false} SearchRuns(text: Text, origin: int, ring: seq<int>, jq: int, rI: nat, h: int, jaSeen: bool,
                                      s: seq<Cpu>)
    requires 0 <= h < |ring| && rI < 16 && SearchBound(text, ring, jq, rI, h, jaSeen).Bounded?
    requires var b := SearchBound(text, ring, jq, rI, h, jaSeen);
      && |s| == h + 2 - b.at
      && RunsTo(text, origin, ring, b.at, h, s)
      && ZeroExtended(text, ring[b.at], s[0].regs)
    requires jaSeen ==> s[|s| - 1].below || s[|s| - 1].equal
    ensures 0 <= s[|s| - 1].regs[rI] < SearchBound(text, ring, jq, rI, h, jaSeen).n
    decreases h
  {
    hide Step, IsJa, JaTarget, CmpBound, IsMovzx, ZeroExtended;
    var b := SearchBound(text, ring, jq, rI, h, jaSeen);
    if IsJa(text, ring[h]) {
      JaStep(text, origin, ring[h], s[h - b.at], s[h - b.at + 1]);
      SearchRuns(text, origin, ring, jq, rI, h - 1, jaSeen || JaTarget(text, ring[h]) > jq, s[..|s| - 1]);
    } else if CmpBound(text, ring[h], rI) >= 0 {
      CmpStep(text, origin, ring[h], rI, s[0], s[1]);
    } else {
      MovzxStep(text, origin, ring[h], rI, s[0], s[1]);
    }
  }

  lemma JaStep(text: Text, origin: int, p: int, a: Cpu, b: Cpu)
    requires IsJa(text, p) && Step(text, origin, p, a, b)
    ensures b == a && (a.below || a.equal)
  {}

  lemma CmpStep(text: Text, origin: int, p: int, rI: nat, a: Cpu, b: Cpu)
    requires rI < 16 && CmpBound(text, p, rI) >= 0 && Step(text, origin, p, a, b)
    requires ZeroExtended(text, p, a.regs) && (b.below || b.equal)
    ensures b.regs[rI] <= CmpBound(text, p, rI)
  {
    hide RmField, RegField, IndexField, Int32At, RexByte, EntryAddress;
  }

  lemma MovzxStep(text: Text, origin: int, p: int, rI: nat, a: Cpu, b: Cpu)
    requires rI < 16 && IsMovzx(text, p, rI) && Step(text, origin, p, a, b)
    ensures b.regs[rI] < 256
  {
    hide RmField, RegField, IndexField, Int32At, RexByte, EntryAddress;
  }

  lemma LeaStep(text: Text, origin: int, p: int, rB: nat, a: Cpu, b: Cpu)
    requires LeaLoads(text, p, rB) && rB < 16 && RexW(RexByte(text, p)) && Step(text, origin, p, a, b)
    requires 0 <= origin + LeaTarget(text, p) < TWO64
    ensures b.regs == a.regs[rB := origin + LeaTarget(text, p)]
  {
    hide RmField, RegField, IndexField, Int32At, RexByte, EntryAddress;
  }

  lemma LoadStep(text: Text, origin: int, p: int, rD: nat, rB: nat, rI: nat, a: Cpu, b: Cpu) returns (i: nat)
    requires rD < 16 && rB < 16 && IndexOf(text, p, rD, rB) == rI && RexW(RexByte(text, p))
        && Step(text, origin, p, a, b)
    requires 0 <= a.regs[rB] + 4 * a.regs[rI] < TWO64
    ensures rI < 16 && i <= a.regs[rI]
    ensures b.regs == a.regs[rD := Int32At(text, a.regs[rB] + 4 * i - origin) % TWO64]
  {
    hide RmField, RegField, Int32At, RexByte;
    i := if rI == 4 then 0 else a.regs[rI];
  }

  lemma AddStep(text: Text, origin: int, p: int, rD: nat, rB: nat, a: Cpu, b: Cpu)
    requires rD < 16 && rB < 16 && AddendOf(text, p, rD) == rB && RexW(RexByte(text, p)) && Step(text, origin, p, a, b)
    ensures b.regs[rD] == (a.regs[rD] + a.regs[rB]) % TWO64
  {
    hide RmField, RegField, IndexField, Int32At, RexByte, EntryAddress;
  }

  lemma JumpReads(text: Text, jq: int, jlen: int)
    requires JumpOf(text, jq, jlen) >= 0
    ensures At(text, jq) == JmpReg(JumpOf(text, jq, jlen))
  {
    hide RmField, RegField, IndexField, Int32At, RexByte;
  }

  function Entry(text: Text, tbl: int, i: int): int { Int32At(text, tbl + 4 * i) }

  lemma ModSum(e: int, a: int)
    ensures (e % TWO64 + a) % TWO64 == (a + e) % TWO64
  {}

  /** The three instructions before the jump compute the address one table entry names. */
  lemma WindowComputes(text: Text, origin: nat, fstart: int, fend: int, ring: seq<int>, jq: int, jlen: int,
                       n: int, s0: Cpu, s1: Cpu, s2: Cpu, s3: Cpu) returns (i: nat)
    requires var d := MatchWindow(text, fstart, fend, ring, jq, jlen);
      d.Dispatch? && s0.regs[d.rI] < n && d.tbl + 4 * n <= fend
    requires 0 <= fstart && origin + fend <= TWO64 && |ring| >= 3 && WideWindow(text, ring)
    requires Step(text, origin, ring[|ring| - 3], s0, s1)
    requires Step(text, origin, ring[|ring| - 2], s1, s2)
    requires Step(text, origin, ring[|ring| - 1], s2, s3)
    ensures i < n && var d := MatchWindow(text, fstart, fend, ring, jq, jlen);
      s3.regs[d.rD] == (origin + d.tbl + Entry(text, d.tbl, i)) % TWO64
  {
    hide Step, RexByte, RmField, RegField, IndexField, Int32At, EntryAddress, LeaLoads, LeaTarget, IndexOf,
        AddendOf, JumpOf;
    var d := MatchWindow(text, fstart, fend, ring, jq, jlen);
    LeaStep(text, origin, ring[|ring| - 3], d.rB, s0, s1);
    i := LoadStep(text, origin, ring[|ring| - 2], d.rD, d.rB, d.rI, s1, s2);
    AddStep(text, origin, ring[|ring| - 1], d.rD, d.rB, s2, s3);
    ModSum(Entry(text, d.tbl, i), origin + d.tbl);
  }

  /**
   * Every straight-line execution from the bounding instruction to a resolved jump arrives
   * where one of the counted table entries points.
   */
  lemma DispatchTakesEntry(text: Text, origin: nat, fstart: int, fend: int, ring: seq<int>, jq: int, jlen: int,
                           s: seq<Cpu>) returns (i: nat)
    requires 0 <= fstart && origin + fend <= TWO64
    requires var t := Match(text, fstart, fend, ring, jq, jlen);
      && t.Table? && RunsTo(text, origin, ring, t.at, |ring| - 1, s)
      && WideWindow(text, ring) && ZeroExtended(text, ring[t.at], s[0].regs)
    ensures var t := Match(text, fstart, fend, ring, jq, jlen);
      && i < t.n && At(text, jq).JmpReg? && At(text, jq).reg < 16
      && s[|s| - 1].regs[At(text, jq).reg] == (origin + t.tbl + Entry(text, t.tbl, i)) % TWO64
  {
    hide Step, At, WideWindow, ZeroExtended, SearchBound, MatchWindow;
    var t, d := Match(text, fstart, fend, ring, jq, jlen), MatchWindow(text, fstart, fend, ring, jq, jlen);
    var n := |ring|;
    var k := n - 3 - t.at;
    MatchParts(text, fstart, fend, ring, jq, jlen);
    RunParts(text, origin, ring, t.at, n - 1, s, n - 4);
    SearchRuns(text, origin, ring, jq, d.rI, n - 4, false, s[..k + 1]);
    i := WindowComputes(text, origin, fstart, fend, ring, jq, jlen, t.n, s[k], s[k + 1], s[k + 2], s[k + 3]);
    JumpReads(text, jq, jlen);
  }

  lemma RunParts(text: Text, origin: int, ring: seq<int>, at: nat, to: int, s: seq<Cpu>, h: int)
    requires RunsTo(text, origin, ring, at, to, s) && at <= h <= to
    ensures RunsTo(text, origin, ring, at, h, s[..h - at + 2])
    ensures forall j :: h < j <= to ==> Step(text, origin, ring[j], s[j - at], s[j - at + 1])
  {
    hide Step;
    forall j | h < j <= to
      ensures Step(text, origin, ring[j], s[j - at], s[j - at + 1])
    {
      assert ring[at + (j - at)] == ring[j];
    }
  }

  lemma MatchParts(text: Text, fstart: int, fend: int, ring: seq<int>, jq: int, jlen: int)
    requires Match(text, fstart, fend, ring, jq, jlen).Table?
    ensures var t, d := Match(text, fstart, fend, ring, jq, jlen), MatchWindow(text, fstart, fend, ring, jq, jlen);
      && d.Dispatch? && t.tbl == d.tbl && d.tbl + 4 * t.n <= fend && fstart <= t.tbl < fend
      && d.rD == JumpOf(text, jq, jlen)
      && SearchBound(text, ring, jq, d.rI, |ring| - 4, false) == Bounded(t.n, t.at)
  {
    hide SearchBound, JumpOf, AddendOf, IndexOf, LeaLoads;
  }

  // --------------------------------------------------------------- marking

  predicate NamedBy(text: Text, tbl: int, n: int, y: int) {
    exists i :: 0 <= i < n && tbl + Entry(text, tbl, i) == y
  }

  datatype Range = Range(lo: int, hi: int)

  /** resolve_jump_table. */
  method ResolveJumpTable(text: Text, fstart: nat, fend: nat, ring: seq<int>, jq: int, jlen: int,
                          tgt: array<bool>, tab: seq<Range>) returns (ok: bool, more: seq<Range>)
    requires fstart <= fend && tgt.Length == fend - fstart
    modifies tgt
    ensures var t := Match(text, fstart, fend, ring, jq, jlen);
      && ok == (t.Table? && |tab| < MAX_TABLES)
      && more == (if ok then tab + [Range(t.tbl, t.tbl + 4 * t.n)] else tab)
      && forall k :: 0 <= k < tgt.Length ==>
           tgt[k] == (old(tgt[k]) || (ok && NamedBy(text, t.tbl, t.n, k + fstart)))
  {
    hide SearchBound, MatchWindow, Entry;
    ok, more := false, tab;
    var d := MatchWindow(text, fstart, fend, ring, jq, jlen);
    if d.NoDispatch? { return; }
    var n := BoundIndex(text, ring, jq, d.rI);
    if n <= 0 || n > MAX_ENTRIES || d.tbl + 4 * n > fend || |tab| >= MAX_TABLES { return; }
    var i := 0;
    while i < n
      invariant 0 <= i <= n
      invariant forall k :: 0 <= k < tgt.Length ==> tgt[k] == (old(tgt[k]) || NamedBy(text, d.tbl, i, k + fstart))
    {
      var t := d.tbl + Entry(text, d.tbl, i);
      NamedGrows(text, d.tbl, i);
      if fstart <= t < fend { tgt[t - fstart] := true; }
      i := i + 1;
    }
    ok, more := true, tab + [Range(d.tbl, d.tbl + 4 * n)];
  }

  lemma NamedGrows(text: Text, tbl: int, i: nat)
    ensures forall y :: NamedBy(text, tbl, i + 1, y) <==> NamedBy(text, tbl, i, y) || tbl + Entry(text, tbl, i) == y
  {
    hide Entry;
  }

  /** The backward loop: the number of entries, or -1. */
  method BoundIndex(text: Text, ring: seq<int>, jq: int, rI: nat) returns (n: int)
    requires |ring| >= 3
    ensures var b := SearchBound(text, ring, jq, rI, |ring| - 4, false);
      n == if b.Bounded? then b.n else -1
  {
    hide IsJa, JaTarget, CmpBound, IsMovzx;
    n := -1;
    var jaSeen := false;
    var h := |ring| - 4;
    while h >= 0
      invariant -1 <= h <= |ring| - 4
      invariant n == -1
      invariant SearchBound(text, ring, jq, rI, |ring| - 4, false) == SearchBound(text, ring, jq, rI, h, jaSeen)
    {
      if IsJa(text, ring[h]) {
        if JaTarget(text, ring[h]) > jq { jaSeen := true; }
      } else {
        var imm := CmpBound(text, ring[h], rI);
        if imm < 0 && IsMovzx(text, ring[h], rI) { return 256; }
        if imm < 0 || !jaSeen { return -1; }
        return imm + 1;
      }
      h := h - 1;
    }
  }

  /**
   * The jump lands on a marked target or leaves the function: with marks covering the table,
   * no in-function landing is unmarked.
   */
  lemma DispatchLandsOnMark(text: Text, origin: nat, fstart: nat, fend: nat, ring: seq<int>, jq: int, jlen: int,
                            s: seq<Cpu>, marks: seq<bool>)
    requires fstart <= fend < 0x4000_0000_0000_0000 && origin + fend <= TWO64
    requires var t := Match(text, fstart, fend, ring, jq, jlen);
      && t.Table? && RunsTo(text, origin, ring, t.at, |ring| - 1, s)
      && WideWindow(text, ring) && ZeroExtended(text, ring[t.at], s[0].regs)
      && |marks| == fend - fstart
      && forall k :: 0 <= k < |marks| && NamedBy(text, t.tbl, t.n, k + fstart) ==> marks[k]
    ensures At(text, jq).JmpReg? && At(text, jq).reg < 16
    ensures var y := s[|s| - 1].regs[At(text, jq).reg] - origin;
      fstart <= y < fend ==> marks[y - fstart]
  {
    hide Step, At, WideWindow, ZeroExtended, MatchWindow, SearchBound;
    var t := Match(text, fstart, fend, ring, jq, jlen);
    var i := DispatchTakesEntry(text, origin, fstart, fend, ring, jq, jlen, s);
    MatchParts(text, fstart, fend, ring, jq, jlen);
    var y := s[|s| - 1].regs[At(text, jq).reg] - origin;
    if fstart <= y < fend {
      assert y == t.tbl + Entry(text, t.tbl, i);
      assert NamedBy(text, t.tbl, t.n, y - fstart + fstart);
    }
  }
}
