/**
 * What the scalar reference computes, bit by bit over the machine's own words and with the
 * manual's flag numbers, so that the reference the lowerings are measured by is itself measured.
 */
module BmiMeaning {
  import opened Decoded
  import opened BmiExec

  type Index = k: bv64 | k < 64

  predicate IsSet(v: Word, k: Index) { (v.v >> k) & 1 == 1 }

  function Size(w: Width): (n: bv64)
    ensures 0 < n <= 64
  {
    if w.W32? then 32 else 64
  }

  function Top(w: Width): Index { if w.W32? then 31 else 63 }

  function Less(k: Index, n: Index): Index
    requires n <= k
  {
    k - n
  }

  function Modulo(v: Word, w: Width): Index { if w.W32? then v.v % 32 else v.v % 64 }

  predicate Below(k: Index, w: Width) { w.W64? || k < 32 }

  /** Carry, zero, sign and overflow are bits 0, 6, 7 and 11; every other bit is as before. */
  ghost predicate FlagsAre(f: Word, was: Word, cf: bool, zf: bool, sf: bool, of: bool) {
    && IsSet(f, 0) == cf && IsSet(f, 6) == zf && IsSet(f, 7) == sf && IsSet(f, 11) == of
    && forall k: Index :: k != 0 && k != 6 && k != 7 && k != 11 ==> IsSet(f, k) == IsSet(was, k)
  }

  lemma FlagsSet(f: Word, cf: bool, zf: bool, sf: bool, of: bool)
    ensures var r := SetFlags(f, cf, zf, sf, of);
      IsSet(r, 0) == cf && IsSet(r, 6) == zf && IsSet(r, 7) == sf && IsSet(r, 11) == of
  {}

  lemma FlagsKept(f: Word, cf: bool, zf: bool, sf: bool, of: bool, k: Index)
    requires k != 0 && k != 6 && k != 7 && k != 11
    ensures IsSet(SetFlags(f, cf, zf, sf, of), k) == IsSet(f, k)
  {}

  lemma FlagsMeaning(f: Word, cf: bool, zf: bool, sf: bool, of: bool)
    ensures FlagsAre(SetFlags(f, cf, zf, sf, of), f, cf, zf, sf, of)
  {
    hide SetFlags, IsSet;
    FlagsSet(f, cf, zf, sf, of);
    forall k: Index | k != 0 && k != 6 && k != 7 && k != 11
      ensures IsSet(SetFlags(f, cf, zf, sf, of), k) == IsSet(f, k)
    {
      FlagsKept(f, cf, zf, sf, of, k);
    }
  }

  lemma MaskMeaning(v: Word, w: Width, k: Index)
    ensures IsSet(MaskZ(v, w), k) == (Below(k, w) && IsSet(v, k))
  {}

  lemma SignMeaning(v: Word, w: Width)
    ensures SignBit(v, w) == IsSet(v, Top(w))
  {}

  function AndNot(a: Word, b: Word): Word { W(!a.v & b.v) }

  lemma AndNotMeaning(a: Word, b: Word, k: Index)
    ensures IsSet(AndNot(a, b), k) == (!IsSet(a, k) && IsSet(b, k))
  {}

  predicate IsZero(v: Word) { v.v == 0 }

  lemma AndnShape(w: Width, a: Word, b: Word, flags: Word)
    ensures var r := MaskZ(AndNot(MaskZ(a, w), MaskZ(b, w)), w);
      Exec(BMI_ANDN, w, a, b, flags) == Outcome(r, SetFlags(flags, false, IsZero(r), SignBit(r, w), false))
  {
    hide MaskZ, SetFlags, SignBit, TrailingFrom, LeadingFrom, ShiftLeft, ShiftCount, Count;
  }

  /** andn: bit by bit, not the first and the second; the sign is the top bit of the width. */
  lemma AndnMeaning(w: Width, a: Word, b: Word, flags: Word)
    ensures var x := Exec(BMI_ANDN, w, a, b, flags);
      && (forall k: Index :: IsSet(x.dst, k) == (Below(k, w) && !IsSet(a, k) && IsSet(b, k)))
      && FlagsAre(x.flags, flags, false, IsZero(x.dst), IsSet(x.dst, Top(w)), false)
  {
    hide IsSet, MaskZ, SignBit, SetFlags, FlagsAre, AndNot, IsZero, Exec, Below, Top;
    var s1, s2 := MaskZ(a, w), MaskZ(b, w);
    AndnShape(w, a, b, flags);
    var x := Exec(BMI_ANDN, w, a, b, flags);
    forall k: Index
      ensures IsSet(x.dst, k) == (Below(k, w) && !IsSet(a, k) && IsSet(b, k))
    {
      MaskMeaning(AndNot(s1, s2), w, k);
      AndNotMeaning(s1, s2, k);
      MaskMeaning(a, w, k);
      MaskMeaning(b, w, k);
    }
    SignMeaning(x.dst, w);
    FlagsMeaning(flags, false, IsZero(x.dst), SignBit(x.dst, w), false);
  }

  lemma CountMeaning(n: Word, w: Width)
    ensures ShiftCount(MaskZ(n, w), w) == Modulo(n, w)
  {
    hide Modulo, ShiftCount;
    if w.W32? { LowFive(n); } else { LowSix(n); }
  }

  lemma LowFive(n: Word)
    ensures ShiftCount(MaskZ(n, W32), W32) == Modulo(n, W32)
  {}

  lemma LowSix(n: Word)
    ensures ShiftCount(MaskZ(n, W64), W64) == Modulo(n, W64)
  {}

  lemma LeftOnce(v: Word, k: Index)
    ensures IsSet(ShiftLeft(v, 1), k) == (1 <= k && IsSet(v, Less(k, 1)))
  {}

  /** Shifting once more, a range of the counts at a time. */
  lemma LeftStep(v: Word, n: Index)
    requires n > 0
    ensures ShiftLeft(v, n) == ShiftLeft(ShiftLeft(v, n - 1), 1)
  {
    if n < 32 { if n < 8 { LeftStep0(v, n); } else if n < 16 { LeftStep4(v, n); } else { LeftStep1(v, n); } }
    else { if n < 48 { LeftStep2(v, n); } else { LeftStep3(v, n); } }
  }

  lemma LeftStep0(v: Word, n: Index)
    requires 0 < n < 8
    ensures ShiftLeft(v, n) == ShiftLeft(ShiftLeft(v, n - 1), 1)
  {}

  lemma LeftStep4(v: Word, n: Index)
    requires 8 <= n < 16
    ensures ShiftLeft(v, n) == ShiftLeft(ShiftLeft(v, n - 1), 1)
  {}

  lemma LeftStep1(v: Word, n: Index)
    requires 16 <= n < 32
    ensures ShiftLeft(v, n) == ShiftLeft(ShiftLeft(v, n - 1), 1)
  {}

  lemma LeftStep2(v: Word, n: Index)
    requires 32 <= n < 48
    ensures ShiftLeft(v, n) == ShiftLeft(ShiftLeft(v, n - 1), 1)
  {}

  lemma LeftStep3(v: Word, n: Index)
    requires 48 <= n
    ensures ShiftLeft(v, n) == ShiftLeft(ShiftLeft(v, n - 1), 1)
  {}

  lemma {:induction false} LeftMeaning(v: Word, n: Index, k: Index)
    ensures IsSet(ShiftLeft(v, n), k) == (n <= k && IsSet(v, Less(k, n)))
  {
    hide IsSet, ShiftLeft, Less;
    if n == 0 {
      LeftZero(v);
      LessZero(k);
    } else {
      LeftStep(v, n);
      LeftOnce(ShiftLeft(v, n - 1), k);
      if 1 <= k {
        LessFirst(k);
        LeftMeaning(v, n - 1, k - 1);
        LessOnce(n, k);
      }
    }
  }

  lemma LessFirst(k: Index)
    requires 1 <= k
    ensures Less(k, 1) == k - 1
  {}

  lemma LessOnce(n: Index, k: Index)
    requires 0 < n && 0 < k
    ensures (n <= k) == (n - 1 <= k - 1)
    ensures n <= k ==> Less(k, n) == Less(k - 1, n - 1)
  {}

  lemma LeftZero(v: Word)
    ensures ShiftLeft(v, 0) == v
  {}

  lemma LessZero(k: Index)
    ensures Less(k, 0) == k
  {}

  lemma ShlxShape(w: Width, a: Word, b: Word, flags: Word)
    ensures Exec(BMI_SHLX, w, a, b, flags) == Outcome(MaskZ(ShiftLeft(MaskZ(a, w), Modulo(b, w)), w), flags)
  {
    hide MaskZ, ShiftLeft, ShiftCount, Modulo;
    CountMeaning(b, w);
  }

  lemma StillBelow(k: Index, n: Index, w: Width)
    requires n <= k && Below(k, w)
    ensures Below(Less(k, n), w)
  {}

  /** shlx: every bit moves up by the count modulo the width, and no flag changes. */
  lemma ShlxMeaning(w: Width, a: Word, b: Word, flags: Word)
    ensures var (x, n) := (Exec(BMI_SHLX, w, a, b, flags), Modulo(b, w));
      && (forall k: Index :: IsSet(x.dst, k) == (n <= k && Below(k, w) && IsSet(a, Less(k, n))))
      && x.flags == flags
  {
    hide IsSet, MaskZ, ShiftLeft, Exec, Modulo, Below, Less;
    ShlxShape(w, a, b, flags);
    var x, n, s := Exec(BMI_SHLX, w, a, b, flags), Modulo(b, w), MaskZ(a, w);
    forall k: Index
      ensures IsSet(x.dst, k) == (n <= k && Below(k, w) && IsSet(a, Less(k, n)))
    {
      MaskMeaning(ShiftLeft(s, n), w, k);
      LeftMeaning(s, n, k);
      if n <= k && Below(k, w) {
        StillBelow(k, n, w);
        MaskMeaning(a, w, Less(k, n));
      }
    }
  }

  // ----------------------------------------------------------------- counts

  function At(i: nat): (k: Index)
    requires i < 64
    ensures k as int == i
  {
    Count(i).v
  }

  lemma BitIsSet(v: Word, i: nat)
    requires i < 64
    ensures Bit(v, i) == IsSet(v, At(i))
  {}

  /** r zeros from the bottom, then a one unless they fill the width. */
  ghost predicate Trailing(v: Word, n: nat, r: nat)
    requires n <= 64
  {
    r <= n && (r < n ==> IsSet(v, At(r))) && forall i: nat :: i < r ==> !IsSet(v, At(i))
  }

  /** r zeros from the top of the width. */
  ghost predicate Leading(v: Word, n: nat, r: nat)
    requires n <= 64
  {
    r <= n && (r < n ==> IsSet(v, At(n - 1 - r))) && forall i: nat :: n - r <= i < n ==> !IsSet(v, At(i))
  }

  lemma MaskedBit(v: Word, w: Width, i: nat)
    requires i < w.Bits()
    ensures Bit(MaskZ(v, w), i) == IsSet(v, At(i))
  {
    hide IsSet, MaskZ, Bit;
    BitIsSet(MaskZ(v, w), i);
    MaskMeaning(v, w, At(i));
    BelowBits(w, i);
  }

  lemma BelowBits(w: Width, i: nat)
    requires i < w.Bits()
    ensures Below(At(i), w)
  {}

  lemma ZeroHasNone(v: Word, i: nat)
    requires i < 64 && v.v == 0
    ensures !Bit(v, i)
  {
    BitIsSet(v, i);
  }

  ghost predicate BitsAre(s: Word, a: Word, n: nat)
    requires n <= 64
  {
    forall i: nat :: i < n ==> Bit(s, i) == IsSet(a, At(i)) && (IsZero(s) ==> !Bit(s, i))
  }

  lemma SameBits(a: Word, w: Width)
    ensures BitsAre(MaskZ(a, w), a, w.Bits())
  {
    hide IsSet, MaskZ, Bit;
    var s := MaskZ(a, w);
    forall i: nat | i < w.Bits()
      ensures Bit(s, i) == IsSet(a, At(i)) && (IsZero(s) ==> !Bit(s, i))
    {
      MaskedBit(a, w, i);
      if IsZero(s) { ZeroHasNone(s, i); }
    }
  }

  lemma Trails(s: Word, a: Word, n: nat, r: nat)
    requires n <= 64 && BitsAre(s, a, n)
    requires r == if IsZero(s) then n else TrailingFrom(s, n, 0)
    ensures Trailing(a, n, r)
  {
    hide IsSet, Bit, At, TrailingFrom;
  }

  lemma Leads(s: Word, a: Word, n: nat, r: nat)
    requires n <= 64 && BitsAre(s, a, n)
    requires r == if IsZero(s) then n else LeadingFrom(s, n, 0)
    ensures Leading(a, n, r)
  {
    hide IsSet, Bit, At, LeadingFrom;
  }

  lemma TzcntShape(w: Width, a: Word, b: Word, flags: Word) returns (r: nat)
    ensures Trailing(a, w.Bits(), r)
    ensures Exec(BMI_TZCNT, w, a, b, flags)
      == Outcome(Count(r), SetFlags(flags, r == w.Bits(), r == 0, false, false))
  {
    hide IsSet, MaskZ, Bit, SetFlags, BitsAre, At, Trailing, Leading;
    var s, n := MaskZ(a, w), w.Bits();
    SameBits(a, w);
    if !IsZero(s) { NonzeroHasBit(a, w); }
    r := if IsZero(s) then n else TrailingFrom(s, n, 0);
    Trails(s, a, n, r);
  }

  lemma LzcntShape(w: Width, a: Word, b: Word, flags: Word) returns (r: nat)
    ensures Leading(a, w.Bits(), r)
    ensures Exec(BMI_LZCNT, w, a, b, flags)
      == Outcome(Count(r), SetFlags(flags, r == w.Bits(), r == 0, false, false))
  {
    hide IsSet, MaskZ, Bit, SetFlags, BitsAre, At, Trailing, Leading;
    var s, n := MaskZ(a, w), w.Bits();
    SameBits(a, w);
    if !IsZero(s) { NonzeroHasBit(a, w); }
    r := if IsZero(s) then n else LeadingFrom(s, n, 0);
    Leads(s, a, n, r);
  }

  /** tzcnt and lzcnt: the count, carry for an empty source, zero for a count of none. */
  lemma CountsMeaning(w: Width, a: Word, b: Word, flags: Word) returns (t: nat, l: nat)
    ensures Trailing(a, w.Bits(), t) && Leading(a, w.Bits(), l)
    ensures var x := Exec(BMI_TZCNT, w, a, b, flags);
      x.dst.v as int == t && FlagsAre(x.flags, flags, t == w.Bits(), t == 0, false, false)
    ensures var x := Exec(BMI_LZCNT, w, a, b, flags);
      x.dst.v as int == l && FlagsAre(x.flags, flags, l == w.Bits(), l == 0, false, false)
  {
    hide SetFlags, FlagsAre, Trailing, Leading, Exec;
    t := TzcntShape(w, a, b, flags);
    l := LzcntShape(w, a, b, flags);
    FlagsMeaning(flags, t == w.Bits(), t == 0, false, false);
    FlagsMeaning(flags, l == w.Bits(), l == 0, false, false);
  }
}
