/** Little-endian words inside a file image. */
module Words {
  import opened ByteStrings

  function Power256(n: nat): (p: nat)
    ensures p >= 1
  {
    if n == 0 then 1 else 0x100 * Power256(n - 1)
  }

  function ToLE(v: nat, n: nat): (b: Bytes)
    ensures |b| == n
  {
    if n == 0 then [] else [v % 0x100] + ToLE(v / 0x100, n - 1)
  }

  function FromLE(b: Bytes): nat {
    if |b| == 0 then 0 else b[0] + 0x100 * FromLE(b[1..])
  }

  lemma {:induction false} FromTo(v: nat, n: nat)
    requires v < Power256(n)
    ensures FromLE(ToLE(v, n)) == v
  {
    if n > 0 {
      FromTo(v / 0x100, n - 1);
      assert ToLE(v, n)[1..] == ToLE(v / 0x100, n - 1);
    }
  }

  lemma {:induction false} FromBound(b: Bytes)
    ensures FromLE(b) < Power256(|b|)
  {
    if |b| > 0 { FromBound(b[1..]); }
  }

  const TWO64 := 0x1_0000_0000_0000_0000
  const TWO32 := 0x1_0000_0000

  lemma PowerValues()
    ensures Power256(4) == TWO32 && Power256(8) == TWO64
  {
    assert Power256(4) == 0x1_0000_0000;
    assert Power256(8) == 0x100 * (0x100 * (0x100 * (0x100 * Power256(4))));
  }

  /** The n-byte word at p. */
  function Word(b: Bytes, p: nat, n: nat): nat
    requires p + n <= |b|
  {
    FromLE(b[p..p + n])
  }

  function Put(b: Bytes, p: nat, n: nat, v: nat): (r: Bytes)
    requires p + n <= |b|
    ensures |r| == |b|
    ensures forall k :: 0 <= k < |b| && !(p <= k < p + n) ==> r[k] == b[k]
    ensures r[p..p + n] == ToLE(v, n)
  {
    b[..p] + ToLE(v, n) + b[p + n..]
  }

  lemma WordOfPut(b: Bytes, p: nat, n: nat, v: nat)
    requires p + n <= |b| && v < Power256(n)
    ensures Word(Put(b, p, n, v), p, n) == v
  {
    FromTo(v, n);
  }

  lemma WordApart(b: Bytes, p: nat, n: nat, v: nat, q: nat, m: nat)
    requires p + n <= |b| && q + m <= |b| && (q + m <= p || p + n <= q)
    ensures Word(Put(b, p, n, v), q, m) == Word(b, q, m)
  {
    hide FromLE, ToLE;
    assert Put(b, p, n, v)[q..q + m] == b[q..q + m];
  }

  lemma {:induction false} ToFrom(b: Bytes)
    ensures ToLE(FromLE(b), |b|) == b
  {
    if |b| > 0 {
      var rest := FromLE(b[1..]);
      ToFrom(b[1..]);
      LowByte(b[0], rest);
      assert ToLE(FromLE(b), |b|) == [b[0]] + ToLE(rest, |b| - 1);
    }
  }

  lemma LowByte(x: Byte, rest: nat)
    ensures (x + 0x100 * rest) % 0x100 == x && (x + 0x100 * rest) / 0x100 == rest
  {}

  lemma PutSame(b: Bytes, p: nat, n: nat)
    requires p + n <= |b|
    ensures Put(b, p, n, Word(b, p, n)) == b
  {
    ToFrom(b[p..p + n]);
  }

  lemma PutTwice(b: Bytes, p: nat, n: nat, v: nat, w: nat)
    requires p + n <= |b|
    ensures Put(Put(b, p, n, v), p, n, w) == Put(b, p, n, w)
  {
    hide ToLE;
  }

  lemma PutCommutes(b: Bytes, p: nat, n: nat, v: nat, q: nat, m: nat, w: nat)
    requires p + n <= |b| && q + m <= |b| && (q + m <= p || p + n <= q)
    ensures Put(Put(b, p, n, v), q, m, w) == Put(Put(b, q, m, w), p, n, v)
  {
    var x, y := Put(Put(b, p, n, v), q, m, w), Put(Put(b, q, m, w), p, n, v);
    SameOutside(x, b, p, n, v, q, m, w);
    SameOutside(y, b, p, n, v, q, m, w);
    assert x[p..p + n] == Put(b, p, n, v)[p..p + n];
    assert y[q..q + m] == Put(b, q, m, w)[q..q + m];
    forall k | 0 <= k < |b|
      ensures x[k] == y[k]
    {
      if p <= k < p + n {
        assert x[k] == x[p..p + n][k - p] && y[k] == y[p..p + n][k - p];
      } else if q <= k < q + m {
        assert x[k] == x[q..q + m][k - q] && y[k] == y[q..q + m][k - q];
      }
    }
  }

  lemma SameOutside(x: Bytes, b: Bytes, p: nat, n: nat, v: nat, q: nat, m: nat, w: nat)
    requires p + n <= |b| && q + m <= |b|
    requires x == Put(Put(b, p, n, v), q, m, w) || x == Put(Put(b, q, m, w), p, n, v)
    ensures |x| == |b| && forall k :: 0 <= k < |b| && !(p <= k < p + n) && !(q <= k < q + m) ==> x[k] == b[k]
  {
    hide ToLE;
  }

  predicate InFile(b: Bytes, ps: seq<nat>, n: nat) { forall i :: 0 <= i < |ps| ==> ps[i] + n <= |b| }

  /** delta added, modulo m, to the n-byte words at ps, in order. */
  function AddAll(b: Bytes, ps: seq<nat>, n: nat, m: nat, delta: nat): (r: Bytes)
    requires InFile(b, ps, n) && m > 0
    ensures |r| == |b|
    decreases |ps|
  {
    if |ps| == 0 then b else AddAll(Put(b, ps[0], n, (Word(b, ps[0], n) + delta) % m), ps[1..], n, m, delta)
  }

  lemma {:induction false} AddAllAppend(b: Bytes, ps: seq<nat>, p: nat, n: nat, m: nat, delta: nat)
    requires InFile(b, ps, n) && m > 0 && p + n <= |b|
    ensures InFile(b, ps + [p], n)
    ensures var a := AddAll(b, ps, n, m, delta);
      AddAll(b, ps + [p], n, m, delta) == Put(a, p, n, (Word(a, p, n) + delta) % m)
    decreases |ps|
  {
    hide Word, Put;
    if |ps| == 0 {
      assert (ps + [p])[1..] == [];
    } else {
      assert (ps + [p])[1..] == ps[1..] + [p];
      AddAllAppend(Put(b, ps[0], n, (Word(b, ps[0], n) + delta) % m), ps[1..], p, n, m, delta);
    }
  }

  /** Bytes outside every word are untouched. */
  lemma {:induction false} AddAllElsewhere(b: Bytes, ps: seq<nat>, n: nat, m: nat, delta: nat, k: nat)
    requires InFile(b, ps, n) && m > 0 && k < |b|
    requires forall i :: 0 <= i < |ps| ==> !(ps[i] <= k < ps[i] + n)
    ensures AddAll(b, ps, n, m, delta)[k] == b[k]
    decreases |ps|
  {
    hide Word;
    if |ps| > 0 { AddAllElsewhere(Put(b, ps[0], n, (Word(b, ps[0], n) + delta) % m), ps[1..], n, m, delta, k); }
  }

  /** A word apart from all of them keeps its value. */
  lemma AddAllApart(b: Bytes, ps: seq<nat>, n: nat, m: nat, delta: nat, q: nat)
    requires InFile(b, ps, n) && m > 0 && q + n <= |b|
    requires forall i :: 0 <= i < |ps| ==> ps[i] + n <= q || q + n <= ps[i]
    ensures Word(AddAll(b, ps, n, m, delta), q, n) == Word(b, q, n)
  {
    hide AddAll;
    var r := AddAll(b, ps, n, m, delta);
    forall k | q <= k < q + n
      ensures r[k] == b[k]
    {
      AddAllElsewhere(b, ps, n, m, delta, k);
    }
    assert r[q..q + n] == b[q..q + n];
  }

  ghost predicate SpreadWords(ps: seq<nat>, n: nat) {
    forall i, j :: 0 <= i < j < |ps| ==> ps[i] + n <= ps[j] || ps[j] + n <= ps[i]
  }

  /** Each word gains delta exactly once. */
  lemma {:induction false} AddAllAt(b: Bytes, ps: seq<nat>, n: nat, m: nat, delta: nat, i: nat)
    requires InFile(b, ps, n) && 0 < m <= Power256(n) && SpreadWords(ps, n) && i < |ps|
    ensures Word(AddAll(b, ps, n, m, delta), ps[i], n) == (Word(b, ps[i], n) + delta) % m
    decreases |ps|
  {
    hide Word, Put, Power256;
    var p, v := ps[0], (Word(b, ps[0], n) + delta) % m;
    var b1 := Put(b, p, n, v);
    if i == 0 {
      AddAllApart(b1, ps[1..], n, m, delta, p);
      WordOfPut(b, p, n, v);
    } else {
      AddAllAt(b1, ps[1..], n, m, delta, i - 1);
      WordApart(b, p, n, v, ps[i], n);
    }
  }

  /** An n-byte read through a pointer. */
  method Load(buf: array<Byte>, p: nat, n: nat) returns (v: nat)
    requires p + n <= buf.Length
    ensures v == Word(buf[..], p, n)
  {
    ghost var s := buf[p..p + n];
    assert buf[..][p..p + n] == s;
    v := 0;
    var i: nat := n;
    assert s[n..] == [];
    while i > 0
      invariant i <= n && v == FromLE(s[i..])
    {
      i := i - 1;
      assert s[i..][1..] == s[i + 1..] && s[i..][0] == buf[p + i];
      v := buf[p + i] + 0x100 * v;
    }
    assert s[0..] == s;
  }

  method Store(buf: array<Byte>, p: nat, n: nat, v: nat)
    requires p + n <= buf.Length
    modifies buf
    ensures buf[..] == Put(old(buf[..]), p, n, v)
  {
    ghost var g := ToLE(v, n);
    assert g[0..] == g;
    var i, w := 0, v;
    while i < n
      invariant i <= n && g[i..] == ToLE(w, n - i)
      invariant forall k :: 0 <= k < i ==> buf[p + k] == g[k]
      invariant forall k :: 0 <= k < buf.Length && !(p <= k < p + n) ==> buf[k] == old(buf[k])
    {
      assert g[i] == g[i..][0] && g[i + 1..] == g[i..][1..];
      buf[p + i] := w % 0x100;
      i, w := i + 1, w / 0x100;
    }
    StoreDone(old(buf[..]), buf[..], p, n, v);
  }

  lemma StoreDone(a: Bytes, b: Bytes, p: nat, n: nat, v: nat)
    requires |a| == |b| && p + n <= |a|
    requires forall k :: 0 <= k < |a| && !(p <= k < p + n) ==> b[k] == a[k]
    requires forall k :: 0 <= k < n ==> b[p + k] == ToLE(v, n)[k]
    ensures b == Put(a, p, n, v)
  {
    hide ToLE;
    var x := Put(a, p, n, v);
    forall k | 0 <= k < |a|
      ensures b[k] == x[k]
    {
      if p <= k < p + n {
        assert x[k] == x[p..p + n][k - p];
        assert b[p + (k - p)] == ToLE(v, n)[k - p];
      }
    }
  }
}
