/** Mach time to nanoseconds: the fixed-point multiplier, the multiply and the split. */
module MachTime {

  const S := 0x1_0000_0000
  const TWO64 := 0x1_0000_0000_0000_0000
  const EXTRA := 4
  const NULL_SCALE := 0x4_0000_0000
  const TWO35 := 0x8_0000_0000
  const NUMER_LIMIT := 0x4000_0000
  const BILLION := 1_000_000_000

  type Uint32 = x: int | 0 <= x < S

  type Uint64 = x: int | 0 <= x < TWO64

  // ------------------------------------------------------------ the multiply

  lemma MulBound(x: int, y: int, m: int, n: int)
    requires 0 <= x <= m && 0 <= y <= n
    ensures 0 <= x * y <= m * n
  {
    assert x * y <= m * y;
    assert m * y <= m * n;
  }

  lemma CrossProducts(ah: int, al: int, bh: int, bl: int)
    ensures (ah * S + al) * (bh * S + bl) == S * (S * (ah * bh) + ah * bl + al * bh) + al * bl
  {
    assert (ah * S + al) * (bh * S + bl) == (ah * S) * (bh * S) + (ah * S) * bl + al * (bh * S) + al * bl;
    assert (ah * S) * (bh * S) == S * (S * (ah * bh));
    assert (ah * S) * bl == S * (ah * bl);
    assert al * (bh * S) == S * (al * bh);
  }

  lemma FloorSum(q: int, low: int)
    requires low >= 0
    ensures (S * q + low) / S == q + low / S
  {}

  /** The four products folded: the carries in the source's order. */
  lemma FoldedProducts(low: int, mid1: int, mid2: int, high: int)
    requires low >= 0 && mid2 >= 0
    ensures var m := mid1 + mid2 % S + low / S;
      var h := high + m / S + mid2 / S;
      h * S + m % S == S * high + mid2 + mid1 + low / S
  {}

  lemma HighPart(h: int, m: int)
    requires h >= 0 && 0 <= m < S
    ensures (h * S) % TWO64 + m == (h * S + m) % TWO64
    ensures (h * S) % TWO64 + m < TWO64
  {
    var k := h / S;
    assert h * S == k * TWO64 + (h % S) * S;
    ModOf(k, (h % S) * S);
    ModOf(k, (h % S) * S + m);
  }

  lemma ModOf(k: int, r: int)
    requires 0 <= r < TWO64
    ensures (k * TWO64 + r) % TWO64 == r
  {}

  /** The middle 64 bits of the 128-bit product; every intermediate fits its type. */
  method MiddleProduct(a: Uint64, b: Uint64) returns (r: Uint64)
    ensures r == (a * b / S) % TWO64
  {
    var aHi: Uint32, aLo: Uint32 := a / S, a % S;
    var bHi: Uint32, bLo: Uint32 := b / S, b % S;
    MulBound(aLo, bLo, S - 1, S - 1);
    MulBound(aLo, bHi, S - 1, S - 1);
    MulBound(aHi, bLo, S - 1, S - 1);
    MulBound(aHi, bHi, S - 1, S - 1);
    var low: Uint64 := aLo * bLo;
    var mid1: Uint64 := aLo * bHi;
    var mid2: Uint64 := aHi * bLo;
    var high: Uint64 := aHi * bHi;
    ghost var p, q := mid1, high;
    mid1 := mid1 + (mid2 % S + low / S);
    high := high + (mid1 / S + mid2 / S);
    Recombine(a, b, low, p, mid2, q);
    HighPart(high, mid1 % S);
    r := (high * S) % TWO64 + mid1 % S;
  }

  lemma Recombine(a: Uint64, b: Uint64, low: int, mid1: int, mid2: int, high: int)
    requires low == (a % S) * (b % S) && mid1 == (a % S) * (b / S) && mid2 == (a / S) * (b % S)
        && high == (a / S) * (b / S)
    requires low >= 0 && mid2 >= 0
    ensures var m := mid1 + (mid2 % S + low / S);
      (high + (m / S + mid2 / S)) * S + m % S == a * b / S
  {
    CrossProducts(a / S, a % S, b / S, b % S);
    assert a == (a / S) * S + a % S && b == (b / S) * S + b % S;
    FloorSum(S * high + mid2 + mid1, low);
    FoldedProducts(low, mid1, mid2, high);
  }

  // ---------------------------------------------------------- the multiplier

  /** numer/denom in units of 2^-34, rounded to nearest; wide numerators keep two bits fewer. */
  function Multiplier(numer: Uint32, denom: Uint32): Uint64
    requires denom > 0
  {
    if numer < NUMER_LIMIT then MultiplierFits(numer, denom); (numer * NULL_SCALE + denom / 2) / denom
    else ((numer * S + denom / 2) / denom * EXTRA) % TWO64
  }

  lemma MultiplierFits(numer: Uint32, denom: Uint32)
    requires denom > 0 && numer < NUMER_LIMIT
    ensures 0 <= (numer * NULL_SCALE + denom / 2) / denom < TWO64
  {
    var x := numer * NULL_SCALE + denom / 2;
    assert x < TWO64;
    QuotientBound(x, denom);
  }

  lemma QuotientBound(x: int, d: int)
    requires x >= 0 && d > 0
    ensures 0 <= x / d <= x
  {
    assert d * (x / d) + x % d == x;
    if x / d > x { MulBound(x + 1, 1, x / d, d); }
  }

  /** The rounding error of the multiplier is at most half a unit. */
  lemma MultiplierError(numer: Uint32, denom: Uint32)
    requires denom > 0 && numer < NUMER_LIMIT
    ensures var e: int := 2 * (denom * Multiplier(numer, denom) - numer * NULL_SCALE); e + denom >= 0 && e <= denom
  {
    var x, m := numer * NULL_SCALE + denom / 2, Multiplier(numer, denom);
    assert denom * m + x % denom == x;
  }

  class Clock {
    var numer: Uint32
    var denom: Uint32
    var mult: Uint64
    var resolution: int

    constructor ()
      ensures numer == 0 && denom == 0 && mult == 0
    {
      numer, denom, mult, resolution := 0, 0, 0, 0;
    }

    /** get_mach_scale: asked once; a failure leaves a scale of zero. */
    method GetScale(answer: (bool, Uint32, Uint32)) returns (ok: bool)
      requires answer.0 ==> answer.2 > 0
      requires numer != 0 ==> denom > 0
      modifies this`numer, this`denom
      ensures denom > 0
      ensures if old(numer) != 0 then ok && numer == old(numer) && denom == old(denom)
              else if answer.0 then ok && numer == answer.1 && denom == answer.2
              else !ok && numer == 0 && denom == 1
    {
      if numer != 0 { return true; }
      if !answer.0 {
        numer, denom := 0, 1;
        return false;
      }
      numer, denom := answer.1, answer.2;
      ok := true;
    }

    /** setup_mach_mult: the multiplier, and the resolution rounded up. */
    method Setup(answer: (bool, Uint32, Uint32)) returns (ok: bool)
      requires answer.0 ==> answer.2 > 0
      requires numer != 0 ==> denom > 0
      modifies this
      ensures denom > 0 && mult == Multiplier(numer, denom)
      ensures !ok ==> mult == 0
      ensures resolution == (mult + NULL_SCALE - 1) % TWO64 / NULL_SCALE
    {
      ok := GetScale(answer);
      mult := Multiplier(numer, denom);
      resolution := (mult + NULL_SCALE - 1) % TWO64 / NULL_SCALE;
    }

    /** mach2nanos. */
    method ToNanos(t: Uint64) returns (n: Uint64)
      ensures n == Nanos(t, mult)
    {
      if mult == NULL_SCALE { return t; }
      var p := MiddleProduct(t, mult);
      n := p / EXTRA;
    }
  }

  function Nanos(t: Uint64, mult: Uint64): Uint64 {
    if mult == NULL_SCALE then t else Scaled(t, mult)
  }

  /** The multiply without the shortcut. */
  function Scaled(t: Uint64, mult: Uint64): Uint64 { (t * mult / S) % TWO64 / EXTRA }

  /** The one-to-one shortcut is the multiply exactly while the product fits. */
  lemma ShortcutAgreesIff(t: Uint64)
    ensures Scaled(t, NULL_SCALE) == t <==> t < 0x4000_0000_0000_0000
  {
    assert t * NULL_SCALE / S == EXTRA * t;
    if t >= 0x4000_0000_0000_0000 { assert Scaled(t, NULL_SCALE) <= (TWO64 - 1) / EXTRA; }
  }

  /** t ticks do not overflow the 64-bit middle of the product. */
  predicate Fits(t: Uint64, mult: Uint64) { t * mult / S < TWO64 }

  lemma DivideTwice(x: int)
    requires x >= 0
    ensures x / S / EXTRA == x / NULL_SCALE
  {}

  lemma NanosIsFloor(t: Uint64, mult: Uint64)
    requires Fits(t, mult)
    ensures Nanos(t, mult) == t * mult / NULL_SCALE
  {
    MulBound(t, mult, TWO64, TWO64);
    DivideTwice(t * mult);
    Undone(t);
  }

  lemma Undone(t: int)
    ensures t * NULL_SCALE / NULL_SCALE == t
  {}

  lemma FloorMonotone(x: int, y: int)
    requires 0 <= x <= y
    ensures x / NULL_SCALE <= y / NULL_SCALE
  {}

  /** Time does not run backwards. */
  lemma NanosMonotone(t: Uint64, u: Uint64, mult: Uint64)
    requires t <= u && Fits(u, mult)
    ensures Fits(t, mult) && Nanos(t, mult) <= Nanos(u, mult)
  {
    MulBound(t, mult, u, mult);
    assert t * mult / S <= u * mult / S;
    NanosIsFloor(t, mult);
    NanosIsFloor(u, mult);
    FloorMonotone(t * mult, u * mult);
  }

  /**
   * Within 1 + t/2^35 of the exact t*numer/denom, cross-multiplied by denom * 2^35: too low by
   * at most one and the multiplier's error, too high by at most the latter.
   */
  lemma NanosAccurate(t: Uint64, numer: Uint32, denom: Uint32)
    requires denom > 0 && numer < NUMER_LIMIT && Fits(t, Multiplier(numer, denom))
    ensures var n := Nanos(t, Multiplier(numer, denom));
      && TWO35 * (denom * n) <= TWO35 * (t * numer) + denom * t
      && TWO35 * (t * numer) - denom * t - TWO35 * denom < TWO35 * (denom * n)
  {
    var m := Multiplier(numer, denom);
    MultiplierError(numer, denom);
    NanosIsFloor(t, m);
    hide Multiplier, Nanos, Fits;
    ErrorScaled(t, numer, denom, m, t * m / NULL_SCALE);
  }

  lemma ErrorScaled(t: int, numer: int, denom: int, m: int, n: int)
    requires t >= 0 && denom > 0 && n == t * m / NULL_SCALE
    requires -denom <= 2 * (denom * m - numer * NULL_SCALE) <= denom
    ensures TWO35 * (denom * n) <= TWO35 * (t * numer) + denom * t
    ensures TWO35 * (t * numer) - denom * t - TWO35 * denom < TWO35 * (denom * n)
  {
    var e := 2 * (denom * m - numer * NULL_SCALE);
    var r := t * m - NULL_SCALE * n;
    assert 0 <= r < NULL_SCALE;
    ScaleBounds(t, e, denom);
    ScaleRemainder(r, denom);
    // denom * NULL_SCALE * n == denom * (t * m) - denom * r, and 2 * denom * m == e + TWO35 * numer
    Distribute(t, numer, denom, m, n, e, r);
  }

  lemma ScaleBounds(t: int, e: int, denom: int)
    requires t >= 0 && -denom <= e <= denom
    ensures -(denom * t) <= t * e <= denom * t
  {
    assert t * e <= t * denom;
    assert t * e >= t * -denom;
    assert t * -denom == -(t * denom);
  }

  lemma ScaleRemainder(r: int, denom: int)
    requires 0 <= r < NULL_SCALE && denom > 0
    ensures 0 <= 2 * (denom * r) < TWO35 * denom
  {
    assert denom * r < denom * NULL_SCALE;
  }

  lemma Distribute(t: int, numer: int, denom: int, m: int, n: int, e: int, r: int)
    requires e == 2 * (denom * m - numer * NULL_SCALE) && r == t * m - NULL_SCALE * n
    ensures TWO35 * (denom * n) == TWO35 * (t * numer) + t * e - 2 * (denom * r)
  {
    assert denom * r == denom * (t * m) - denom * (NULL_SCALE * n);
    assert denom * (NULL_SCALE * n) == NULL_SCALE * (denom * n);
    assert t * e == 2 * (t * (denom * m)) - t * (2 * (numer * NULL_SCALE));
    assert t * (2 * (numer * NULL_SCALE)) == TWO35 * (t * numer);
    assert t * (denom * m) == denom * (t * m);
  }

  // ---------------------------------------------------------------- the split

  lemma WrappedDifference(x: int, y: int)
    ensures (x % S - ((y % S) * BILLION) % S) % S == (x - y * BILLION) % S
  {
    var a, b := x / S, y / S;
    var c := ((y % S) * BILLION) / S;
    assert x % S == x - a * S && y % S == y - b * S;
    assert ((y % S) * BILLION) % S == (y % S) * BILLION - c * S;
    assert x % S - ((y % S) * BILLION) % S == (x - y * BILLION) + (b * BILLION + c - a) * S;
    AddMultiple(x - y * BILLION, b * BILLION + c - a);
  }

  lemma AddMultiple(x: int, k: int)
    ensures (x + k * S) % S == x % S
  {}

  /** nanos2timespec: the remainder is computed in 32 bits, with wrap-around. */
  method Split(nanos: Uint64) returns (sec: Uint64, nsec: Uint32)
    ensures sec * BILLION + nsec == nanos && nsec < BILLION
  {
    sec := nanos / BILLION;
    var lowNanos: Uint32, lowSecs: Uint32 := nanos % S, sec % S;
    nsec := (lowNanos - (lowSecs * BILLION) % S) % S;
    WrappedDifference(nanos, sec);
  }
}
