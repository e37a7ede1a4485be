/** The scalar reference: bmi_exec and set_flags on 64-bit register values. */
module BmiExec {
  import opened Decoded

  const FLAG_CF: bv64 := 0x1
  const FLAG_ZF: bv64 := 0x40
  const FLAG_SF: bv64 := 0x80
  const FLAG_OF: bv64 := 0x800
  const OWNED: bv64 := 0x8c1

  /** A 64-bit machine word. */
  datatype Word = W(v: bv64)

  /** The operand sizes the native lowerings accept. */
  datatype Width = W32 | W64 {
    function Bits(): nat { if W32? then 32 else 64 }
  }

  function MaskZ(v: Word, w: Width): Word {
    if w.W32? then W(v.v & 0xffff_ffff) else v
  }

  /** A small count as a register value. */
  function Count(k: nat): (r: Word)
    requires k <= 64
    ensures r.v as int == k && r.v <= 64
  {
    if k == 0 then W(0) else W(Count(k - 1).v + 1)
  }

  /** v shifted right by i. */
  function Rest(v: Word, i: nat): Word
    requires i <= 64
  {
    W(v.v >> Count(i).v)
  }

  predicate Bit(v: Word, i: nat)
    requires i < 64
  {
    Rest(v, i).v & 1 == 1
  }

  predicate SignBit(v: Word, w: Width) {
    if w.W32? then v.v & 0x8000_0000 != 0 else v.v & 0x8000_0000_0000_0000 != 0
  }

  function SetFlags(flags: Word, cf: bool, zf: bool, sf: bool, of: bool): Word {
    W((flags.v & !OWNED)
      | (if cf then FLAG_CF else 0) | (if zf then FLAG_ZF else 0)
      | (if sf then FLAG_SF else 0) | (if of then FLAG_OF else 0))
  }

  /** The two counting loops; a counter that runs off the word yields the word size. */
  function TrailingFrom(s: Word, n: nat, c: nat): (r: nat)
    requires c <= n <= 64
    ensures c <= r <= n
    ensures r < n ==> Bit(s, r)
    ensures forall i :: c <= i < r ==> !Bit(s, i)
    decreases n - c
  {
    if c == n || Bit(s, c) then c else TrailingFrom(s, n, c + 1)
  }

  function LeadingFrom(s: Word, n: nat, c: nat): (r: nat)
    requires c <= n <= 64
    ensures c <= r <= n
    ensures r < n ==> Bit(s, n - 1 - r)
    ensures forall i :: n - r <= i < n - c ==> !Bit(s, i)
    decreases n - c
  {
    if c == n || Bit(s, n - 1 - c) then c else LeadingFrom(s, n, c + 1)
  }

  /** Shifting once more, a quarter of the counts at a time. */
  lemma SplitShift(v: bv64, k: bv64)
    requires k < 64
    ensures v >> (k + 1) == (v >> k) >> 1
  {
    if k < 32 { if k < 16 { SplitShift0(v, k); } else { SplitShift1(v, k); } }
    else { if k < 48 { SplitShift2(v, k); } else { SplitShift3(v, k); } }
  }

  lemma SplitShift0(v: bv64, k: bv64)
    requires k < 16
    ensures v >> (k + 1) == (v >> k) >> 1
  {}

  lemma SplitShift1(v: bv64, k: bv64)
    requires 16 <= k < 32
    ensures v >> (k + 1) == (v >> k) >> 1
  {}

  lemma SplitShift2(v: bv64, k: bv64)
    requires 32 <= k < 48
    ensures v >> (k + 1) == (v >> k) >> 1
  {}

  lemma SplitShift3(v: bv64, k: bv64)
    requires 48 <= k < 64
    ensures v >> (k + 1) == (v >> k) >> 1
  {}

  lemma LastBit(x: bv64)
    requires x >> 1 == 0 && x & 1 != 1
    ensures x == 0
  {}

  lemma ClearBelow(x: bv64, k: bv64)
    requires k < 64
    requires x >> (k + 1) == 0 && (x >> k) & 1 != 1
    ensures x >> k == 0
  {
    SplitShift(x, k);
    LastBit(x >> k);
  }

  lemma RestStep(v: Word, k: nat)
    requires k < 64
    requires Rest(v, k + 1) == W(0) && !Bit(v, k)
    ensures Rest(v, k) == W(0)
  {
    assert Count(k + 1).v == Count(k).v + 1;
    ClearBelow(v.v, Count(k).v);
  }

  lemma {:induction false} NoBitsAbove(v: Word, n: nat, k: nat)
    requires k <= n <= 64
    requires Rest(v, n) == W(0)
    requires forall i :: k <= i < n ==> !Bit(v, i)
    ensures Rest(v, k) == W(0)
    decreases n - k
  {
    hide Rest, Bit;
    if k < n {
      NoBitsAbove(v, n, k + 1);
      RestStep(v, k);
    }
  }

  lemma ShiftOut(v: Word, w: Width)
    ensures Rest(MaskZ(v, w), w.Bits()) == W(0)
    ensures Rest(MaskZ(v, w), 0) == MaskZ(v, w)
  {
    hide Rest, Count;
    RestWidths(MaskZ(v, w));
    if w.W32? { HalfGone(v.v); }
  }

  lemma RestWidths(x: Word)
    ensures Rest(x, 0) == x && Rest(x, 32) == W(x.v >> 32) && Rest(x, 64) == W(0)
  {
    CountWidths();
  }

  lemma HalfGone(v: bv64)
    ensures (v & 0xffff_ffff) >> 32 == 0
  {}

  lemma CountWidths()
    ensures Count(0).v == 0 && Count(32).v == 32 && Count(64).v == 64
  {
    assert Count(32).v as int == 32 && Count(64).v as int == 64;
  }

  /** A nonzero word has a set bit, so neither loop runs off the word. */
  lemma NonzeroHasBit(v: Word, w: Width)
    requires MaskZ(v, w).v != 0
    ensures TrailingFrom(MaskZ(v, w), w.Bits(), 0) < w.Bits()
    ensures LeadingFrom(MaskZ(v, w), w.Bits(), 0) < w.Bits()
  {
    hide Rest, Bit;
    var x, n := MaskZ(v, w), w.Bits();
    ShiftOut(v, w);
    if forall i :: 0 <= i < n ==> !Bit(x, i) {
      NoBitsAbove(x, n, 0);
    }
  }

  datatype Outcome = Outcome(dst: Word, flags: Word)

  predicate Modelled(op: VexOp) {
    op.BMI_ANDN? || op.BMI_SHLX? || op.BMI_TZCNT? || op.BMI_LZCNT?
  }

  function Exec(op: VexOp, w: Width, a: Word, b: Word, flags: Word): Outcome
    requires Modelled(op)
  {
    var s1, s2 := MaskZ(a, w), MaskZ(b, w);
    match op
    case BMI_ANDN =>
      var r := MaskZ(W(!s1.v & s2.v), w);
      Outcome(r, SetFlags(flags, false, r.v == 0, SignBit(r, w), false))
    case BMI_SHLX =>
      Outcome(MaskZ(ShiftLeft(s1, ShiftCount(s2, w)), w), flags)
    case BMI_TZCNT =>
      if s1.v == 0 then Outcome(Count(w.Bits()), SetFlags(flags, true, false, false, false))
      else
        var c := TrailingFrom(s1, w.Bits(), 0);
        Outcome(Count(c), SetFlags(flags, false, c == 0, false, false))
    case BMI_LZCNT =>
      if s1.v == 0 then Outcome(Count(w.Bits()), SetFlags(flags, true, false, false, false))
      else
        var c := LeadingFrom(s1, w.Bits(), 0);
        Outcome(Count(c), SetFlags(flags, false, c == 0, false, false))
  }

  function WidthOf(d: Insn): Width { if d.opsize == 64 then W64 else W32 }

  datatype Scalars = Scalars(gpr: seq<Word>, flags: Word)

  /** Register-operand BMI emulation: avxemu_emulate with a general register destination. */
  function Emulate(d: Insn, s: Scalars): (r: Scalars)
    requires |s.gpr| == 16 && Modelled(d.op) && (d.opsize == 32 || d.opsize == 64)
    requires 0 <= d.dst < 16 && 0 <= d.aSrc < 16
    ensures |r.gpr| == 16
  {
    var w := WidthOf(d);
    var s1 := s.gpr[d.aSrc];
    var s2 := if 0 <= d.bSrc < 16 then s.gpr[d.bSrc] else W(0);
    var x := Exec(d.op, w, s1, s2, s.flags);
    Scalars(s.gpr[d.dst := x.dst], x.flags)
  }

  function ShiftCount(c: Word, w: Width): (k: bv64)
    ensures k < 64
  {
    if w.W32? then c.v & 31 else c.v & 63
  }

  function ShiftLeft(v: Word, k: bv64): Word
    requires k < 64
  {
    W(v.v << k)
  }
}
