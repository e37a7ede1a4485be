/** ULEB128 (section 7.6 of DWARF Version 4) as read and written by macho_grow.h. */
module Uleb {
  import opened ByteStrings

  const TWO64 := 0x1_0000_0000_0000_0000

  /** Length of the encoding at the start of s, or 0 if it does not end; unbounded. */
  function Extent(s: Bytes): (n: nat)
    ensures n <= |s|
  {
    if |s| == 0 then 0
    else if s[0] < 0x80 then 1
    else if Extent(s[1..]) == 0 then 0
    else 1 + Extent(s[1..])
  }

  /** The number all groups of g spell, least significant first. */
  function Value(g: Bytes): nat {
    if |g| == 0 then 0 else g[0] % 0x80 + 0x80 * Value(g[1..])
  }

  datatype Decoded = Malformed | Decoded(value: nat, len: nat)

  /** mg_uleb_decode: at most ten bytes, in 64 bits. */
  function Decode(s: Bytes): (d: Decoded)
    ensures d.Decoded? ==> 0 < d.len <= |s| && d.len == Extent(s) && d.value < TWO64
  {
    var n := Extent(s);
    if n == 0 || n > 10 then Malformed else Decoded(Value(s[..n]) % TWO64, n)
  }

  function MinLen(v: nat): (n: nat)
    ensures n >= 1
  {
    if v < 0x80 then 1 else 1 + MinLen(v / 0x80)
  }

  /** v in exactly width bytes, padded with empty groups. */
  function Encode(v: nat, width: nat): (g: Bytes)
    ensures |g| == width
  {
    if width == 0 then []
    else if width == 1 then [v % 0x80]
    else [0x80 + v % 0x80] + Encode(v / 0x80, width - 1)
  }

  /** A number and how many bytes it takes. */
  datatype Num = Num(v: nat, width: nat)

  function Spelled(n: Num): Bytes { Encode(n.v, n.width) }

  /** The examples of the standard's section on the encoding. */
  lemma StandardExamples()
    ensures Encode(2, 1) == [2] && Encode(127, 1) == [0x7F] && Encode(128, 2) == [0x80, 0x01]
    ensures Encode(129, 2) == [0x81, 0x01] && Encode(12857, 2) == [0xB9, 0x64]
    ensures MinLen(127) == 1 && MinLen(128) == 2 && MinLen(16383) == 2 && MinLen(16384) == 3
  {
    assert Encode(128, 2) == [0x80] + Encode(1, 1);
    assert Encode(129, 2) == [0x81] + Encode(1, 1);
    assert Encode(12857, 2) == [0xB9] + Encode(0x64, 1);
  }

  // ------------------------------------------------------------ round trips

  lemma {:induction false} EncodeRoundTrip(v: nat, width: nat, rest: Bytes)
    requires MinLen(v) <= width
    ensures Extent(Encode(v, width) + rest) == width
    ensures Value(Encode(v, width)) == v
  {
    var g := Encode(v, width);
    if width == 1 {
      assert g + rest == [v % 0x80] + rest;
      assert g[1..] == [];
    } else {
      if v < 0x80 { assert MinLen(v / 0x80) == 1; }
      EncodeRoundTrip(v / 0x80, width - 1, rest);
      assert (g + rest)[1..] == Encode(v / 0x80, width - 1) + rest;
      assert g[1..] == Encode(v / 0x80, width - 1);
    }
  }

  lemma {:induction false} MinLenBound(v: nat, n: nat)
    requires n >= 1 && v < Power(n)
    ensures MinLen(v) <= n
  {
    if n == 1 {
      assert Power(1) == 0x80 * Power(0);
    } else if v >= 0x80 {
      MinLenBound(v / 0x80, n - 1);
    }
  }

  function Power(n: nat): (p: nat)
    ensures p >= 1
  {
    if n == 0 then 1 else 0x80 * Power(n - 1)
  }

  lemma PowerTen()
    ensures Power(9) == 0x8000_0000_0000_0000 && Power(10) == 0x80 * Power(9)
  {
    assert Power(4) == 0x1000_0000;
    assert Power(8) == 0x80 * (0x80 * (0x80 * (0x80 * Power(4))));
  }

  /** Every 64-bit value has an encoding the decoder accepts and reads back. */
  lemma DecodeEncode(v: nat, width: nat, rest: Bytes)
    requires v < TWO64 && MinLen(v) <= width <= 10
    ensures Decode(Encode(v, width) + rest) == Decoded(v, width)
  {
    EncodeRoundTrip(v, width, rest);
    var g := Encode(v, width);
    hide Encode, MinLen, Extent, Value;
    assert (g + rest)[..width] == g;
  }

  lemma Width64(v: nat)
    requires v < TWO64
    ensures MinLen(v) <= 10
  {
    PowerTen();
    MinLenBound(v, 10);
  }

  /** No encoding is shorter than the minimal length. */
  lemma {:induction false} MinLenIsMinimal(g: Bytes)
    requires |g| > 0
    ensures MinLen(Value(g)) <= |g|
  {
    if |g| == 1 {
      assert g[1..] == [];
    } else {
      MinLenIsMinimal(g[1..]);
    }
  }

  // ----------------------------------------------------- prefixes and slices

  /** Reading is decided by the bytes of the encoding alone. */
  lemma {:induction false} ExtentLocal(s: Bytes, t: Bytes)
    requires Extent(s) > 0 && Extent(s) <= |t| && t[..Extent(s)] == s[..Extent(s)]
    ensures Extent(t) == Extent(s)
  {
    var n := Extent(s);
    assert s[..n][0] == t[..n][0];
    if s[0] >= 0x80 {
      assert s[1..][..n - 1] == s[..n][1..];
      assert t[1..][..n - 1] == t[..n][1..];
      ExtentLocal(s[1..], t[1..]);
    }
  }

  lemma DecodeLocal(s: Bytes, t: Bytes)
    requires Decode(s).Decoded? && Decode(s).len <= |t| && t[..Decode(s).len] == s[..Decode(s).len]
    ensures Decode(t) == Decode(s)
  {
    ExtentLocal(s, t);
  }

  lemma {:induction false} ExtentAt(s: Bytes, n: nat)
    requires n < |s| && s[n] < 0x80 && forall i :: 0 <= i < n ==> s[i] >= 0x80
    ensures Extent(s) == n + 1
  {
    if n > 0 { ExtentAt(s[1..], n - 1); }
  }

  lemma {:induction false} ExtentNone(s: Bytes)
    requires forall i :: 0 <= i < |s| ==> s[i] >= 0x80
    ensures Extent(s) == 0
  {
    if |s| > 0 { ExtentNone(s[1..]); }
  }

  lemma {:induction false} ExtentLong(s: Bytes, n: nat)
    requires n <= |s| && forall i :: 0 <= i < n ==> s[i] >= 0x80
    ensures Extent(s) == 0 || Extent(s) > n
  {
    if n > 0 { ExtentLong(s[1..], n - 1); }
  }

  lemma {:induction false} ValueAppend(g: Bytes, b: Byte)
    ensures Value(g + [b]) == Value(g) + Power(|g|) * (b % 0x80)
  {
    if |g| == 0 {
      assert (g + [b])[1..] == [];
    } else {
      assert (g + [b])[1..] == g[1..] + [b];
      ValueAppend(g[1..], b);
      Rearrange(Value(g[1..]), Power(|g| - 1), b % 0x80);
    }
  }

  lemma Rearrange(v: int, p: int, b: int)
    ensures 0x80 * (v + p * b) == 0x80 * v + (0x80 * p) * b
  {}

  lemma ModAdd(r: nat, x: nat)
    ensures (r % TWO64 + x) % TWO64 == (r + x) % TWO64
  {}

  lemma ReadStep(s: Bytes, n: nat)
    requires n < |s|
    ensures Value(s[..n + 1]) % TWO64 == (Value(s[..n]) % TWO64 + Power(n) * (s[n] % 0x80)) % TWO64
  {
    ValueAppend(s[..n], s[n]);
    assert s[..n] + [s[n]] == s[..n + 1];
    ModAdd(Value(s[..n]), Power(n) * (s[n] % 0x80));
  }

  // ------------------------------------------------------------------ loops

  /** mg_uleb_decode over the bytes [start, end) of a buffer. */
  method DecodeAt(buf: array<Byte>, start: nat, end: nat) returns (d: Decoded)
    requires start <= end <= buf.Length
    ensures d == Decode(buf[start..end])
  {
    ghost var s := buf[start..end];
    var r, n, scale := 0, 0, 1;
    while start + n < end && n < 10
      invariant start + n <= end && n <= 10
      invariant forall i :: 0 <= i < n ==> s[i] >= 0x80
      invariant scale == Power(n) && r == Value(s[..n]) % TWO64
    {
      var b := buf[start + n];
      ReadStep(s, n);
      r := (r + scale * (b % 0x80)) % TWO64;
      if b < 0x80 {
        ExtentAt(s, n);
        return Decoded(r, n + 1);
      }
      n, scale := n + 1, 0x80 * scale;
    }
    if start + n == end { ExtentNone(s); } else { ExtentLong(s, n); }
    return Malformed;
  }

  /** mg_uleb_minlen. */
  method MinLength(v: nat) returns (n: nat)
    ensures n == MinLen(v)
  {
    n := 1;
    var w := v;
    while w >= 0x80
      invariant n >= 1 && n - 1 + MinLen(w) == MinLen(v)
    {
      w, n := w / 0x80, n + 1;
    }
  }

  /** mg_uleb_encode_fixed: a refusal writes nothing. */
  method EncodeFixed(buf: array<Byte>, at: nat, v: nat, width: nat) returns (ok: bool)
    requires at + width <= buf.Length
    modifies buf
    ensures ok == (width >= 1 && MinLen(v) <= width)
    ensures buf[..] == if ok then old(buf[..at]) + Encode(v, width) + old(buf[at + width..]) else old(buf[..])
  {
    var least := MinLength(v);
    if width < 1 || least > width { return false; }
    WriteGroups(buf, at, v, width);
    ok := true;
  }

  method WriteGroups(buf: array<Byte>, at: nat, v: nat, width: nat)
    requires width >= 1 && at + width <= buf.Length
    modifies buf
    ensures buf[..] == old(buf[..at]) + Encode(v, width) + old(buf[at + width..])
  {
    ghost var g, was := Encode(v, width), buf[..];
    assert g[0..] == g;
    hide Encode, MinLen;
    var i, w := 0, v;
    while i < width
      invariant i <= width && g[i..] == Encode(w, width - i)
      invariant buf[..at] == was[..at] && buf[at..at + i] == g[..i] && buf[at + width..] == was[at + width..]
    {
      var b := w % 0x80;
      if i < width - 1 { b := b + 0x80; }
      GroupStep(g, i, w);
      buf[at + i] := b;
      assert buf[at..at + i + 1] == buf[at..at + i] + [b] && g[..i + 1] == g[..i] + [b];
      i, w := i + 1, w / 0x80;
    }
    assert g[..width] == g;
    assert buf[..] == buf[..at] + buf[at..at + width] + buf[at + width..];
  }

  lemma GroupStep(g: Bytes, i: nat, w: nat)
    requires i < |g| && g[i..] == Encode(w, |g| - i)
    ensures g[i] == w % 0x80 + if i < |g| - 1 then 0x80 else 0
    ensures g[i + 1..] == Encode(w / 0x80, |g| - i - 1)
  {
    assert g[i] == g[i..][0];
    assert g[i + 1..] == g[i..][1..];
  }

  /** Every terminated encoding of a given width, continuation bits aside, is Encode's. */
  lemma {:induction false} EncodeUnique(s: Bytes)
    requires Extent(s) > 0
    ensures s[..Extent(s)] == Encode(Value(s[..Extent(s)]), Extent(s))
  {
    var n := Extent(s);
    var g := s[..n];
    if s[0] < 0x80 {
      assert g[1..] == [];
      assert g == [s[0]];
    } else {
      EncodeUnique(s[1..]);
      assert g[1..] == s[1..][..n - 1];
      assert Value(g) / 0x80 == Value(g[1..]);
      assert g == [g[0]] + g[1..];
    }
  }
}
