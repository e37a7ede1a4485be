/** LC_FUNCTION_STARTS: reading the deltas, and re-encoding the first when the base is lowered. */
module FunctionStarts {
  import opened ByteStrings
  import opened Uleb

  /** Absolute function addresses, or the refusal of a malformed delta. */
  datatype Starts = BadStream | Addresses(list: seq<nat>)

  function Prepend(a: nat, s: Starts): Starts { if s.Addresses? then Addresses([a] + s.list) else BadStream }

  /** mg_funcstarts_decode: at most max addresses, up to a zero delta or the end. */
  function ReadStarts(blob: Bytes, base: nat, max: nat): (s: Starts)
    decreases |blob|
  {
    if |blob| == 0 || max == 0 then Addresses([])
    else
      var d := Decode(blob);
      if d.Malformed? then BadStream
      else if d.value == 0 then Addresses([])
      else
        var addr := (base + d.value) % TWO64;
        Prepend(addr, ReadStarts(blob[d.len..], addr, max - 1))
  }

  predicate DeltasOk(ds: seq<Num>) {
    forall i :: 0 <= i < |ds| ==> 0 < ds[i].v < TWO64 && MinLen(ds[i].v) <= ds[i].width <= 10
  }

  function Written(ds: seq<Num>): Bytes {
    if |ds| == 0 then [] else Encode(ds[0].v, ds[0].width) + Written(ds[1..])
  }

  /** Each function stands its delta after the one before. */
  function Sums(base: nat, ds: seq<Num>): (r: seq<nat>)
    ensures |r| == |ds|
    ensures forall i :: 0 <= i < |r| ==> r[i] == ((if i == 0 then base else r[i - 1]) + ds[i].v) % TWO64
    decreases |ds|
  {
    if |ds| == 0 then [] else var a := (base + ds[0].v) % TWO64; [a] + Sums(a, ds[1..])
  }

  lemma OneRead(d: Num, rest: Bytes, base: nat, max: nat)
    requires DeltasOk([d]) && max > 0
    ensures var a := (base + d.v) % TWO64;
      ReadStarts(Encode(d.v, d.width) + rest, base, max) == Prepend(a, ReadStarts(rest, a, max - 1))
  {
    assert [d][0] == d;
    var g := Encode(d.v, d.width);
    DecodeEncode(d.v, d.width, rest);
    hide Encode, MinLen, Decode, ReadStarts;
    assert (g + rest)[|g|..] == rest;
    OneReadAt(g + rest, d, rest, base, max);
  }

  lemma OneReadAt(s: Bytes, d: Num, rest: Bytes, base: nat, max: nat)
    requires max > 0 && d.v > 0 && |s| > 0 && Decode(s) == Decoded(d.v, d.width) && s[d.width..] == rest
    ensures var a := (base + d.v) % TWO64;
      ReadStarts(s, base, max) == Prepend(a, ReadStarts(rest, a, max - 1))
  {
    hide Decode;
  }

  /** The first max of them, or all. */
  function FirstSums(base: nat, ds: seq<Num>, max: nat): seq<nat> {
    if max < |ds| then Sums(base, ds)[..max] else Sums(base, ds)
  }

  lemma FirstSumsStep(base: nat, ds: seq<Num>, max: nat)
    requires |ds| > 0 && max > 0
    ensures var a := (base + ds[0].v) % TWO64; FirstSums(base, ds, max) == [a] + FirstSums(a, ds[1..], max - 1)
  {
    var a := (base + ds[0].v) % TWO64;
    assert Sums(base, ds) == [a] + Sums(a, ds[1..]);
  }

  lemma NoneRead(tail: Bytes, base: nat, max: nat)
    requires |tail| == 0 || max == 0 || tail[0] == 0
    ensures ReadStarts(tail, base, max) == Addresses([])
  {
    hide Decode;
    if |tail| > 0 && max > 0 { ZeroDelta(tail); }
  }

  /** What a linker wrote is read back, up to its end or a zero byte, as far as there is room. */
  lemma {:induction false} StartsWritten(ds: seq<Num>, tail: Bytes, base: nat, max: nat)
    requires DeltasOk(ds) && (|tail| == 0 || tail[0] == 0)
    ensures ReadStarts(Written(ds) + tail, base, max) == Addresses(FirstSums(base, ds, max))
    decreases |ds|
  {
    hide Encode, MinLen, ReadStarts, FirstSums, Sums;
    var s := Written(ds) + tail;
    if |ds| == 0 || max == 0 {
      assert |ds| == 0 ==> s == tail;
      NoneRead(s, base, max);
      NoSums(base, ds, max);
    } else {
      var d, rest := ds[0], Written(ds[1..]) + tail;
      assert s == Encode(d.v, d.width) + rest;
      assert [d][0] == d;
      OneRead(d, rest, base, max);
      StartsWritten(ds[1..], tail, (base + d.v) % TWO64, max - 1);
      FirstSumsStep(base, ds, max);
    }
  }

  lemma NoSums(base: nat, ds: seq<Num>, max: nat)
    requires |ds| == 0 || max == 0
    ensures FirstSums(base, ds, max) == []
  {}

  lemma ZeroDelta(s: Bytes)
    requires |s| > 0 && s[0] == 0
    ensures Decode(s) == Decoded(0, 1)
  {
    DecodeEncode(0, 1, s[1..]);
    assert s == Encode(0, 1) + s[1..];
  }

  datatype Patch = Patched(blob: Bytes) | WouldWiden | Unreadable

  /** mg_reencode_funcstarts_base. */
  function Reencode(blob: Bytes, grow: nat): (p: Patch)
    ensures p.Patched? ==> |p.blob| == |blob|
  {
    var d := Decode(blob);
    if d.Malformed? then Unreadable
    else
      var delta := (d.value + grow) % TWO64;
      if MinLen(delta) > d.len then WouldWiden else Patched(Encode(delta, d.len) + blob[d.len..])
  }

  /** The patched first delta is the old one plus grow; nothing after it changes. */
  lemma ReencodeReads(blob: Bytes, grow: nat)
    requires Reencode(blob, grow).Patched?
    ensures var t, d := Reencode(blob, grow).blob, Decode(blob);
      && d.Decoded? && Decode(t) == Decoded((d.value + grow) % TWO64, d.len)
      && t[d.len..] == blob[d.len..]
  {
    var d := Decode(blob);
    var delta := (d.value + grow) % TWO64;
    DecodeEncode(delta, d.len, blob[d.len..]);
  }

  /** The image base, lowered by grow in 64-bit arithmetic. */
  function Lowered(base: nat, grow: nat): (r: nat)
    requires grow < TWO64
  {
    (base + TWO64 - grow) % TWO64
  }

  lemma LoweredSum(base: nat, grow: nat, value: nat)
    requires grow < TWO64 && base < TWO64 && value < TWO64
    ensures (Lowered(base, grow) + (value + grow) % TWO64) % TWO64 == (base + value) % TWO64
  {}

  /**
   * From the lowered base the patched blob names the same functions, exactly when neither the
   * old nor the new leading delta is the zero that ends a stream.
   */
  lemma StartsKeptIff(blob: Bytes, grow: nat, base: nat, max: nat)
    requires 0 < grow < TWO64 && base < TWO64 && max > 0 && Reencode(blob, grow).Patched?
    ensures Decode(blob).Decoded?
    ensures ReadStarts(Reencode(blob, grow).blob, Lowered(base, grow), max) == ReadStarts(blob, base, max)
            <==> Decode(blob).value != 0 && (Decode(blob).value + grow) % TWO64 != 0
  {
    hide Decode, Reencode, Lowered;
    ReencodeReads(blob, grow);
    var d := Decode(blob);
    LoweredSum(base, grow, d.value);
    ZeroMoves(d.value, grow);
  }

  lemma ZeroMoves(v: nat, grow: nat)
    requires 0 < grow < TWO64
    ensures v == 0 ==> (v + grow) % TWO64 != 0
  {}

  /** A padded zero delta, which ended the list, is patched into a delta that starts it. */
  lemma ZeroDeltaRevived(base: nat, max: nat)
    requires 0x1000 <= base < TWO64 && max > 0
    ensures var blob: Bytes := [0x80, 0x80, 0x00];
      && Reencode(blob, 0x1000) == Patched([0x80, 0xA0, 0x00])
      && ReadStarts(blob, base, max) == Addresses([])
      && ReadStarts([0x80, 0xA0, 0x00], Lowered(base, 0x1000), max) == Addresses([base])
  {
    hide Decode, Encode, MinLen;
    var blob, t: Bytes, none: Bytes := [0x80, 0x80, 0x00], [0x80, 0xA0, 0x00], [];
    PaddedZero();
    assert blob[3..] == none && t[3..] == none;
    assert t + none == t;
    assert ReadStarts(none, base, max - 1) == Addresses([]);
  }

  lemma PaddedZero()
    ensures Decode([0x80, 0x80, 0x00]) == Decoded(0, 3) && Decode([0x80, 0xA0, 0x00]) == Decoded(0x1000, 3)
    ensures Encode(0x1000, 3) == [0x80, 0xA0, 0x00] && MinLen(0x1000) == 2
  {
    assert Encode(0, 3) == [0x80, 0x80, 0x00] by { assert Encode(0, 2) == [0x80] + Encode(0, 1); }
    assert Encode(0x1000, 3) == [0x80, 0xA0, 0x00] by { assert Encode(0x20, 2) == [0xA0] + Encode(0, 1); }
    DecodeEncode(0, 3, []);
    DecodeEncode(0x1000, 3, []);
    assert Encode(0, 3) + [] == Encode(0, 3) && Encode(0x1000, 3) + [] == Encode(0x1000, 3);
  }

  // -------------------------------------------------------------- in place

  method ReencodeBase(buf: array<Byte>, start: nat, end: nat, grow: nat) returns (r: int)
    requires start <= end <= buf.Length
    modifies buf
    ensures var p := Reencode(old(buf[start..end]), grow);
      && (p.Patched? ==> r == 1 && buf[start..end] == p.blob)
      && (p.WouldWiden? ==> r == 0 && buf[..] == old(buf[..]))
      && (p.Unreadable? ==> r == -1 && buf[..] == old(buf[..]))
    ensures forall k :: 0 <= k < buf.Length && !(start <= k < end) ==> buf[k] == old(buf[k])
  {
    hide Decode, Encode, MinLen;
    if start == end {
      EmptyMalformed(buf[start..end]);
      return -1;
    }
    var d := DecodeAt(buf, start, end);
    if d.Malformed? { return -1; }
    var delta := (d.value + grow) % TWO64;
    var least := MinLength(delta);
    if least > d.len { return 0; }
    DecodeFits(buf[start..end]);
    ghost var b := buf[..];
    var ok := EncodeFixed(buf, start, delta, d.len);
    assert ok;
    Spliced(b, buf[..], start, end, Encode(delta, d.len));
    r := 1;
  }

  lemma EmptyMalformed(s: Bytes)
    requires |s| == 0
    ensures Decode(s).Malformed?
  {}

  lemma DecodeFits(s: Bytes)
    requires Decode(s).Decoded?
    ensures 1 <= Decode(s).len <= |s|
  {}

  lemma Spliced(b: Bytes, c: Bytes, start: nat, end: nat, g: Bytes)
    requires start + |g| <= end <= |b| && c == b[..start] + g + b[start + |g|..]
    ensures |c| == |b| && c[start..end] == g + b[start..end][|g|..]
    ensures forall k :: 0 <= k < |b| && !(start <= k < end) ==> c[k] == b[k]
  {}

  /** mg_funcstarts_decode's loop. */
  method DecodeStarts(buf: array<Byte>, start: nat, end: nat, base: nat, max: nat) returns (s: Starts)
    requires start <= end <= buf.Length && base < TWO64
    ensures s == ReadStarts(buf[start..end], base, max)
  {
    hide Decode, ReadStarts, Append, Prepend;
    ghost var blob := buf[start..end];
    var p, addr: nat := start, base;
    var list: seq<nat> := [];
    assert blob[0..] == blob;
    NothingRead(ReadStarts(blob, base, max));
    while p < end && |list| < max
      invariant start <= p <= end && |list| <= max && addr < TWO64
      invariant ReadStarts(blob, base, max) == Append(list, ReadStarts(blob[p - start..], addr, max - |list|))
    {
      ghost var here := blob[p - start..];
      assert buf[p..end] == here;
      var d := DecodeAt(buf, p, end);
      StartsStep(list, here, addr, max - |list|);
      if d.Malformed? { return BadStream; }
      DecodeFits(here);
      p := p + d.len;
      if d.value == 0 { return Addresses(list); }
      addr := (addr + d.value) % TWO64;
      assert here[d.len..] == blob[p - start..];
      list := list + [addr];
    }
    StartsEnd(list, blob[p - start..], addr, max - |list|);
    s := Addresses(list);
  }

  lemma StartsStep(list: seq<nat>, here: Bytes, addr: nat, left: nat)
    requires |here| > 0 && left > 0
    ensures var d := Decode(here);
      Append(list, ReadStarts(here, addr, left)) ==
      if d.Malformed? then BadStream
      else if d.value == 0 then Addresses(list)
      else
        var next := (addr + d.value) % TWO64;
        Append(list + [next], ReadStarts(here[d.len..], next, left - 1))
  {
    hide Decode;
    var d := Decode(here);
    assert list + [] == list;
    if d.Decoded? {
      var next := (addr + d.value) % TWO64;
      AppendOne(list, next, ReadStarts(here[d.len..], next, left - 1));
    }
  }

  lemma StartsEnd(list: seq<nat>, here: Bytes, addr: nat, left: nat)
    requires |here| == 0 || left == 0
    ensures Append(list, ReadStarts(here, addr, left)) == Addresses(list)
  {
    assert list + [] == list;
  }

  function Append(a: seq<nat>, s: Starts): Starts { if s.Addresses? then Addresses(a + s.list) else BadStream }

  lemma NothingRead(s: Starts)
    ensures s == Append([], s)
  {}

  lemma AppendOne(a: seq<nat>, x: nat, s: Starts)
    ensures Append(a, Prepend(x, s)) == Append(a + [x], s)
  {
    if s.Addresses? { assert a + ([x] + s.list) == a + [x] + s.list; }
  }
}
