/** PDEP and PEXT as bmi_exec computes them, bit by bit, on words as numbers. */
module BitDeposit {

  function Power2(n: nat): (p: nat)
    ensures p >= 1
  {
    if n == 0 then 1 else 2 * Power2(n - 1)
  }

  predicate Bit(v: nat, i: nat) {
    if i == 0 then v % 2 == 1 else Bit(v / 2, i - 1)
  }

  /** How many of the low n bits of m are set. */
  function Pop(m: nat, n: nat): (k: nat)
    ensures k <= n
  {
    if n == 0 then 0 else m % 2 + Pop(m / 2, n - 1)
  }

  /** The low k bits of v. */
  function Low(v: nat, k: nat): nat {
    if k == 0 then 0 else v % 2 + 2 * Low(v / 2, k - 1)
  }

  function And(v: nat, m: nat, n: nat): nat {
    if n == 0 then 0 else (if m % 2 == 1 then v % 2 else 0) + 2 * And(v / 2, m / 2, n - 1)
  }

  /** The low bits of v spread over the set bits of m. */
  function Deposit(v: nat, m: nat, n: nat): nat {
    if n == 0 then 0
    else if m % 2 == 1 then v % 2 + 2 * Deposit(v / 2, m / 2, n - 1)
    else 2 * Deposit(v, m / 2, n - 1)
  }

  /** The bits of v under the set bits of m, packed. */
  function Extract(v: nat, m: nat, n: nat): nat {
    if n == 0 then 0
    else if m % 2 == 1 then v % 2 + 2 * Extract(v / 2, m / 2, n - 1)
    else Extract(v / 2, m / 2, n - 1)
  }

  // -------------------------------------------------- what the words hold

  lemma {:induction false} LowIsMod(v: nat, k: nat)
    ensures Low(v, k) == v % Power2(k)
  {
    if k > 0 {
      LowIsMod(v / 2, k - 1);
      HalfMod(v, Power2(k - 1));
    }
  }

  lemma HalfMod(v: nat, p: nat)
    requires p >= 1
    ensures v % 2 + 2 * ((v / 2) % p) == v % (2 * p)
  {
    var q, r := v / 2 / p, (v / 2) % p;
    assert v / 2 == p * q + r;
    assert v == (2 * p) * q + (v % 2 + 2 * r);
    Remainder(v, 2 * p, q, v % 2 + 2 * r);
  }

  lemma Remainder(v: nat, d: nat, q: nat, r: nat)
    requires d >= 1 && v == d * q + r && r < d
    ensures v % d == r
  {
    var q', r' := v / d, v % d;
    assert v == d * q' + r';
    NoMultiple(d, q - q', r' - r);
  }

  lemma NoMultiple(d: int, k: int, x: int)
    requires d >= 1 && d * k == x && -d < x < d
    ensures x == 0
  {
    AtLeast(d, k);
  }

  lemma AtLeast(d: int, k: int)
    requires d >= 1
    ensures k >= 1 ==> d * k >= d
    ensures k <= -1 ==> d * k <= -d
  {}

  /** Splitting off the lowest bit. */
  lemma Halves(b: nat, x: nat)
    requires b <= 1
    ensures (b + 2 * x) / 2 == x && (b + 2 * x) % 2 == b
  {}

  /** Bit i of a deposit is the source bit its place among the mask bits selects. */
  lemma {:induction false} DepositBit(v: nat, m: nat, n: nat, i: nat)
    requires i < n
    ensures Bit(Deposit(v, m, n), i) == (Bit(m, i) && Bit(v, Pop(m, i)))
  {
    var d := Deposit(v, m, n);
    var rest := if m % 2 == 1 then v / 2 else v;
    DepositHalves(v, m, n);
    if i > 0 {
      DepositBit(rest, m / 2, n - 1, i - 1);
      hide Deposit;
      assert Bit(d, i) == Bit(d / 2, i - 1) && Bit(m, i) == Bit(m / 2, i - 1);
      assert Pop(m, i) == m % 2 + Pop(m / 2, i - 1);
    }
  }

  lemma DepositHalves(v: nat, m: nat, n: nat)
    requires n > 0
    ensures var d := Deposit(v, m, n);
      && d % 2 == (if m % 2 == 1 then v % 2 else 0)
      && d / 2 == Deposit(if m % 2 == 1 then v / 2 else v, m / 2, n - 1)
  {
    var b, x := if m % 2 == 1 then v % 2 else 0, Deposit(if m % 2 == 1 then v / 2 else v, m / 2, n - 1);
    assert Deposit(v, m, n) == b + 2 * x;
    hide Deposit;
    Halves(b, x);
  }

  /** A selected bit of the source lands where its place among the mask bits says. */
  lemma {:induction false} ExtractBit(v: nat, m: nat, n: nat, i: nat)
    requires i < n && Bit(m, i)
    ensures Pop(m, i) < Pop(m, n) && Bit(Extract(v, m, n), Pop(m, i)) == Bit(v, i)
  {
    var e := Extract(v, m, n);
    if i > 0 {
      ExtractBit(v / 2, m / 2, n - 1, i - 1);
      if m % 2 == 1 { assert e / 2 == Extract(v / 2, m / 2, n - 1); }
    } else {
      assert e % 2 == v % 2;
    }
  }

  lemma {:induction false} ExtractBound(v: nat, m: nat, n: nat)
    ensures Extract(v, m, n) < Power2(Pop(m, n))
  {
    if n > 0 { ExtractBound(v / 2, m / 2, n - 1); }
  }

  lemma {:induction false} DepositBound(v: nat, m: nat, n: nat)
    ensures Deposit(v, m, n) < Power2(n)
  {
    if n > 0 {
      DepositBound(v / 2, m / 2, n - 1);
      DepositBound(v, m / 2, n - 1);
    }
  }

  // ------------------------------------------------------------ round trips

  /** Extracting what was deposited gives v cut to as many bits as the mask has. */
  lemma {:induction false} ExtractDeposit(v: nat, m: nat, n: nat)
    ensures Extract(Deposit(v, m, n), m, n) == Low(v, Pop(m, n))
  {
    if n > 0 {
      var d := Deposit(v, m, n);
      if m % 2 == 1 {
        assert d / 2 == Deposit(v / 2, m / 2, n - 1) && d % 2 == v % 2;
        ExtractDeposit(v / 2, m / 2, n - 1);
      } else {
        assert d / 2 == Deposit(v, m / 2, n - 1);
        ExtractDeposit(v, m / 2, n - 1);
      }
    }
  }

  /** Depositing what was extracted gives v & m. */
  lemma {:induction false} DepositExtract(v: nat, m: nat, n: nat)
    ensures Deposit(Extract(v, m, n), m, n) == And(v, m, n)
  {
    if n > 0 {
      DepositExtract(v / 2, m / 2, n - 1);
      var e := Extract(v, m, n);
      if m % 2 == 1 { assert e / 2 == Extract(v / 2, m / 2, n - 1) && e % 2 == v % 2; }
    }
  }

  lemma AndHead(v: nat, m: nat, n: nat)
    requires n > 0
    ensures And(v, m, n) / 2 == And(v / 2, m / 2, n - 1)
    ensures And(v, m, n) % 2 == if m % 2 == 1 then v % 2 else 0
  {
    Halves(if m % 2 == 1 then v % 2 else 0, And(v / 2, m / 2, n - 1));
  }

  lemma {:induction false} AndBit(v: nat, m: nat, n: nat, i: nat)
    requires i < n
    ensures Bit(And(v, m, n), i) == (Bit(v, i) && Bit(m, i))
  {
    AndHead(v, m, n);
    hide And;
    if i > 0 {
      AndBit(v / 2, m / 2, n - 1, i - 1);
    }
  }

  // ---------------------------------------------------------------- the loops

  lemma Doubled(p: nat, b: nat, rest: nat)
    ensures p * (b + 2 * rest) == p * b + (2 * p) * rest
  {}

  /** pdep: maskRest and valueRest are mask >> i and v >> k; one is 1 << i. */
  method Pdep(v: nat, mask: nat, bits: nat) returns (r: nat)
    ensures r == Deposit(v, mask, bits)
  {
    r := 0;
    var i: nat, one: nat, maskRest: nat, valueRest: nat := 0, 1, mask, v;
    while i < bits
      invariant 0 <= i <= bits && one == Power2(i)
      invariant r + one * Deposit(valueRest, maskRest, bits - i) == Deposit(v, mask, bits)
    {
      ghost var left := bits - i - 1;
      if maskRest % 2 == 1 {
        Doubled(one, valueRest % 2, Deposit(valueRest / 2, maskRest / 2, left));
        if valueRest % 2 == 1 { r := r + one; }
        valueRest := valueRest / 2;
      } else {
        Doubled(one, 0, Deposit(valueRest, maskRest / 2, left));
      }
      i, one, maskRest := i + 1, 2 * one, maskRest / 2;
    }
  }

  /** pext: sourceRest is v >> i; one is 1 << k. */
  method Pext(v: nat, mask: nat, bits: nat) returns (r: nat)
    ensures r == Extract(v, mask, bits)
  {
    r := 0;
    var i: nat, one: nat, maskRest: nat, sourceRest: nat := 0, 1, mask, v;
    while i < bits
      invariant 0 <= i <= bits
      invariant r + one * Extract(sourceRest, maskRest, bits - i) == Extract(v, mask, bits)
    {
      ghost var left := bits - i - 1;
      if maskRest % 2 == 1 {
        Doubled(one, sourceRest % 2, Extract(sourceRest / 2, maskRest / 2, left));
        if sourceRest % 2 == 1 { r := r + one; }
        one := 2 * one;
      }
      i, maskRest, sourceRest := i + 1, maskRest / 2, sourceRest / 2;
    }
  }
}
