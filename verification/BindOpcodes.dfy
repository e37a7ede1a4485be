/**
 * Bind opcode streams: dyld's reading of them, and change_dylib's in-place renumbering of
 * the library ordinals in one.
 */
module BindOpcodes {
  import opened ByteStrings
  import Uleb

  const PTR := 8

  // --------------------------------------------------------- one operation

  function Code(b: Byte): nat { b / 16 }

  function Imm(b: Byte): nat { b % 16 }

  /** uleb_skip: past the operand, or to the end of the stream. */
  function Skip(s: Bytes): (n: nat)
    ensures n <= |s|
  {
    if Uleb.Extent(s) > 0 then Uleb.Extent(s) else |s|
  }

  /** Length of the string and its NUL, or of all of s. */
  function Text(s: Bytes): (n: nat)
    ensures n <= |s|
  {
    if |s| == 0 then 0 else if s[0] == 0 then 1 else 1 + Text(s[1..])
  }

  /** Length of the operation at the start of s; 0 where the renumbering refuses. */
  function OpLen(s: Bytes): (n: nat)
    requires |s| > 0
    ensures n <= |s|
  {
    var code, rest := Code(s[0]), s[1..];
    if code == 2 then
      var d := Uleb.Decode(rest);
      if d.Decoded? then 1 + d.len else 0
    else if code == 4 then 1 + Text(rest)
    else if code == 6 || code == 7 || code == 8 || code == 10 then 1 + Skip(rest)
    else if code == 12 then 1 + Skip(rest) + Skip(rest[Skip(rest)..])
    else if code > 12 then 0
    else 1
  }

  // --------------------------------------------------------- dyld's reading

  /** The registers of the bind machine; also what one bind operation names. */
  datatype State = State(ordinal: int, symbol: Bytes, flags: nat, kind: nat, seg: nat, off: nat, addend: Bytes)

  const START := State(0, [], 0, 0, 0, 0, [])

  datatype Outcome = Outcome(binds: seq<State>, next: State, more: bool)

  function Advance(st: State, delta: nat): State { st.(off := (st.off + delta) % Uleb.TWO64) }

  function Repeated(st: State, count: nat, step: nat): seq<State>
    decreases count
  {
    if count == 0 then [] else [st] + Repeated(Advance(st, step), count - 1, step)
  }

  function After(st: State, count: nat, step: nat): State
    decreases count
  {
    if count == 0 then st else After(Advance(st, step), count - 1, step)
  }

  function Operand(s: Bytes): nat { Uleb.Value(s[..Uleb.Extent(s)]) % Uleb.TWO64 }

  /** One operation, given by its bytes; a truncated or unknown one stops the machine. */
  function Effect(op: Bytes, st: State): Outcome
    requires |op| > 0
  {
    var code, imm, rest := Code(op[0]), Imm(op[0]), op[1..];
    if code == 1 then Outcome([], st.(ordinal := imm), true)
    else if code == 3 then Outcome([], st.(ordinal := if imm == 0 then 0 else imm - 16), true)
    else if code == 4 && |rest| > 0 && rest[|rest| - 1] == 0 then
      Outcome([], st.(symbol := rest[..|rest| - 1], flags := imm), true)
    else if code == 5 then Outcome([], st.(kind := imm), true)
    else if code == 9 then Outcome([st], Advance(st, PTR), true)
    else if code == 11 then Outcome([st], Advance(st, imm * PTR + PTR), true)
    else if Uleb.Extent(rest) > 0 then WithOperand(code, imm, rest, st)
    else Outcome([], st, false)
  }

  function WithOperand(code: nat, imm: nat, rest: Bytes, st: State): Outcome
    requires Uleb.Extent(rest) > 0
  {
    if code == 2 then Outcome([], st.(ordinal := Operand(rest)), true)
    else if code == 6 then Outcome([], st.(addend := rest[..Uleb.Extent(rest)]), true)
    else if code == 7 then Outcome([], st.(seg := imm, off := Operand(rest)), true)
    else if code == 8 then Outcome([], Advance(st, Operand(rest)), true)
    else if code == 10 then Outcome([st], Advance(st, Operand(rest) + PTR), true)
    else if code == 12 && Uleb.Extent(rest[Uleb.Extent(rest)..]) > 0 then
      var step := Operand(rest[Uleb.Extent(rest)..]) + PTR;
      Outcome(Repeated(st, Operand(rest), step), After(st, Operand(rest), step), true)
    else Outcome([], st, false)
  }

  /** The bind operations performed by the stream s from state st, up to DONE. */
  function Binds(s: Bytes, st: State): seq<State> {
    if |s| == 0 || OpLen(s) == 0 then []
    else
      var n := OpLen(s);
      var o := Effect(s[..n], st);
      o.binds + if o.more then Binds(s[n..], o.next) else []
  }

  // -------------------------------------------------------------- renumbering

  /** numbering[k]: the new ordinal of old ordinal k, or 0 where the library is deleted. */
  datatype Rewrite = Refused | Rewritten(bytes: Bytes)

  predicate Usable(numbering: seq<nat>, was: nat) { 1 <= was < |numbering| && numbering[was] != 0 }

  function RenumberOp(op: Bytes, numbering: seq<nat>): (r: Rewrite)
    requires |op| > 0 && OpLen(op) == |op|
    ensures r.Rewritten? ==> |r.bytes| == |op|
  {
    var code, imm := Code(op[0]), Imm(op[0]);
    if code == 1 then
      if Usable(numbering, imm) && numbering[imm] <= 15 then Rewritten([0x10 + numbering[imm]]) else Refused
    else if code == 2 then
      var d := Uleb.Decode(op[1..]);
      if Usable(numbering, d.value) && Uleb.MinLen(numbering[d.value]) == d.len
      then Rewritten([op[0]] + Uleb.Encode(numbering[d.value], d.len)) else Refused
    else Rewritten(op)
  }

  function Renumber(s: Bytes, numbering: seq<nat>): (r: Rewrite)
    ensures r.Rewritten? ==> |r.bytes| == |s|
  {
    if |s| == 0 then Rewritten([])
    else if OpLen(s) == 0 then Refused
    else
      var n := OpLen(s);
      OpAlone(s);
      var head, tail := RenumberOp(s[..n], numbering), Renumber(s[n..], numbering);
      if head.Rewritten? && tail.Rewritten? then Rewritten(head.bytes + tail.bytes) else Refused
  }

  // ------------------------------------------------------ lengths are local

  lemma {:induction false} TextLocal(s: Bytes, t: Bytes)
    requires Text(s) <= |t| && t[..Text(s)] == s[..Text(s)]
    requires Text(s) == |s| ==> |t| == |s| || (Text(s) > 0 && s[Text(s) - 1] == 0)
    ensures Text(t) == Text(s)
  {
    var n := Text(s);
    if |s| > 0 {
      assert t[..n][0] == s[..n][0];
      if s[0] != 0 {
        assert t[1..][..n - 1] == t[..n][1..];
        assert s[1..][..n - 1] == s[..n][1..];
        TextLocal(s[1..], t[1..]);
      }
    }
  }

  lemma SkipLocal(s: Bytes, t: Bytes)
    requires Skip(s) <= |t| && t[..Skip(s)] == s[..Skip(s)]
    requires |t| == |s| || |t| == Skip(s)
    ensures Skip(t) == Skip(s)
  {
    if Uleb.Extent(s) > 0 {
      Uleb.ExtentLocal(s, t);
    } else {
      assert t == s by { assert t[..|s|] == t && s[..|s|] == s; }
    }
  }

  lemma {:induction false} TextEnd(s: Bytes)
    ensures Text(s) == |s| || (Text(s) > 0 && s[Text(s) - 1] == 0)
  {
    if |s| > 0 && s[0] != 0 { TextEnd(s[1..]); }
  }

  lemma TextCut(s: Bytes, t: Bytes)
    requires Text(s) <= |t| && t[..Text(s)] == s[..Text(s)]
    requires |t| == |s| || |t| == Text(s)
    ensures Text(t) == Text(s)
  {
    TextEnd(s);
    TextLocal(s, t);
  }

  lemma SamePrefix(s: Bytes, t: Bytes, n: nat, k: nat)
    requires k <= n <= |s| && n <= |t| && t[..n] == s[..n]
    ensures t[..k] == s[..k]
  {
    assert t[..k] == t[..n][..k];
    assert s[..k] == s[..n][..k];
  }

  lemma SameMiddle(s: Bytes, t: Bytes, n: nat, k: nat)
    requires k <= n <= |s| && n <= |t| && t[..n] == s[..n]
    ensures t[k..][..n - k] == s[k..][..n - k]
  {
    assert t[k..][..n - k] == t[..n][k..];
    assert s[k..][..n - k] == s[..n][k..];
  }

  lemma TwoSkipsLocal(s: Bytes, t: Bytes)
    requires var n := Skip(s) + Skip(s[Skip(s)..]); n <= |t| && t[..n] == s[..n] && (|t| == |s| || |t| == n)
    ensures Skip(t) == Skip(s) && Skip(t[Skip(t)..]) == Skip(s[Skip(s)..])
  {
    var a, b := Skip(s), Skip(s[Skip(s)..]);
    SamePrefix(s, t, a + b, a);
    if Uleb.Extent(s) > 0 { Uleb.ExtentLocal(s, t); } else { SkipLocal(s, t); }
    SameMiddle(s, t, a + b, a);
    SkipLocal(s[a..], t[a..]);
  }

  /** The length of an operation depends on its own bytes, and on where the stream ends. */
  lemma OpLocal(s: Bytes, t: Bytes)
    requires |s| > 0 && OpLen(s) > 0 && OpLen(s) <= |t| && t[..OpLen(s)] == s[..OpLen(s)]
    requires |t| == |s| || |t| == OpLen(s)
    ensures OpLen(t) == OpLen(s)
  {
    hide Text, Skip, Uleb.Decode;
    var n := OpLen(s);
    var code := Code(s[0]);
    assert t[0] == t[..n][0] == s[..n][0] == s[0];
    assert t[1..][..n - 1] == t[..n][1..];
    assert s[1..][..n - 1] == s[..n][1..];
    if code == 2 {
      Uleb.DecodeLocal(s[1..], t[1..]);
    } else if code == 4 {
      TextCut(s[1..], t[1..]);
    } else if code == 12 {
      TwoSkipsLocal(s[1..], t[1..]);
    } else if code == 6 || code == 7 || code == 8 || code == 10 {
      SkipLocal(s[1..], t[1..]);
    }
  }

  lemma OpAlone(s: Bytes)
    requires |s| > 0 && OpLen(s) > 0
    ensures OpLen(s[..OpLen(s)]) == OpLen(s)
  {
    hide OpLen;
    var n := OpLen(s);
    assert s[..n][..n] == s[..n];
    OpLocal(s, s[..n]);
  }

  /** A rewritten operation is an operation of the same length. */
  lemma RenumberOpLen(op: Bytes, numbering: seq<nat>)
    requires |op| > 0 && OpLen(op) == |op| && RenumberOp(op, numbering).Rewritten?
    requires forall k :: 0 <= k < |numbering| ==> numbering[k] < Uleb.TWO64
    ensures var t := RenumberOp(op, numbering).bytes;
      OpLen(t) == |t| && Code(t[0]) == Code(op[0]) && (Code(op[0]) != 1 ==> Imm(t[0]) == Imm(op[0]))
  {
    var t := RenumberOp(op, numbering).bytes;
    if Code(op[0]) == 2 {
      var d := Uleb.Decode(op[1..]);
      var g := Uleb.Encode(numbering[d.value], d.len);
      assert t[1..] == g + [];
      Uleb.DecodeEncode(numbering[d.value], d.len, []);
    }
  }

  lemma RenumberHead(s: Bytes, numbering: seq<nat>)
    requires |s| > 0 && Renumber(s, numbering).Rewritten?
    requires forall k :: 0 <= k < |numbering| ==> numbering[k] < Uleb.TWO64
    ensures var t, n := Renumber(s, numbering).bytes, OpLen(s);
      && n > 0 && OpLen(t) == n && OpLen(s[..n]) == n
      && RenumberOp(s[..n], numbering) == Rewritten(t[..n])
      && Renumber(s[n..], numbering) == Rewritten(t[n..])
  {
    hide OpLen, RenumberOp;
    var t, n := Renumber(s, numbering).bytes, OpLen(s);
    OpAlone(s);
    var head := RenumberOp(s[..n], numbering).bytes;
    assert t == head + Renumber(s[n..], numbering).bytes;
    assert t[..n] == head;
    RenumberedLen(s, numbering, t);
  }

  lemma RenumberedLen(s: Bytes, numbering: seq<nat>, t: Bytes)
    requires |s| > 0 && OpLen(s) > 0 && OpLen(s[..OpLen(s)]) == OpLen(s) && |t| == |s|
    requires RenumberOp(s[..OpLen(s)], numbering) == Rewritten(t[..OpLen(s)])
    requires forall k :: 0 <= k < |numbering| ==> numbering[k] < Uleb.TWO64
    ensures OpLen(t) == OpLen(s)
  {
    hide Text, Skip, Uleb.Decode;
    var n := OpLen(s);
    var code := Code(s[0]);
    assert t[0] == t[..n][0] && s[0] == s[..n][0];
    if code == 2 {
      RenumberOpLen(s[..n], numbering);
      assert t[1..][..n - 1] == t[..n][1..];
      Uleb.DecodeLocal(t[..n][1..], t[1..]);
    } else if code != 1 {
      OpLocal(s, t);
    }
  }

  // ------------------------------------------------------------ the meaning

  function MapOrdinal(numbering: seq<nat>, o: int): int { if 1 <= o < |numbering| then numbering[o] else o }

  /** The same bind operation, with its library's new ordinal. */
  function Mapped(numbering: seq<nat>, st: State): State { st.(ordinal := MapOrdinal(numbering, st.ordinal)) }

  function MapAll(numbering: seq<nat>, b: seq<State>): (r: seq<State>)
    ensures |r| == |b| && forall i :: 0 <= i < |b| ==> r[i] == Mapped(numbering, b[i])
  {
    seq(|b|, i requires 0 <= i < |b| => Mapped(numbering, b[i]))
  }

  lemma {:induction false} RepeatedMapped(numbering: seq<nat>, st: State, count: nat, step: nat)
    ensures Repeated(Mapped(numbering, st), count, step) == MapAll(numbering, Repeated(st, count, step))
    ensures After(Mapped(numbering, st), count, step) == Mapped(numbering, After(st, count, step))
    decreases count
  {
    if count > 0 { RepeatedMapped(numbering, Advance(st, step), count - 1, step); }
  }

  lemma RawEffect(op: Bytes, st: State, numbering: seq<nat>)
    requires |op| > 0 && Code(op[0]) != 1 && Code(op[0]) != 2
    ensures var a, b := Effect(op, st), Effect(op, Mapped(numbering, st));
      b.binds == MapAll(numbering, a.binds) && b.next == Mapped(numbering, a.next) && b.more == a.more
  {
    hide Operand, MapAll, Repeated;
    var rest := op[1..];
    OneMapped(numbering, st);
    if Code(op[0]) == 12 && Uleb.Extent(rest) > 0 && Uleb.Extent(rest[Uleb.Extent(rest)..]) > 0 {
      RepeatedMapped(numbering, st, Operand(rest), Operand(rest[Uleb.Extent(rest)..]) + PTR);
    }
  }

  lemma OneMapped(numbering: seq<nat>, st: State)
    ensures MapAll(numbering, []) == [] && MapAll(numbering, [st]) == [Mapped(numbering, st)]
  {}

  lemma UlebEffect(op: Bytes, st: State)
    requires |op| > 0 && Code(op[0]) == 2 && OpLen(op) == |op|
    ensures Effect(op, st) == Outcome([], st.(ordinal := Uleb.Decode(op[1..]).value), true)
  {}

  /** Renumbering one operation changes its effect only in the ordinal it selects. */
  lemma OpEffect(op: Bytes, st: State, numbering: seq<nat>)
    requires |op| > 0 && OpLen(op) == |op| && RenumberOp(op, numbering).Rewritten?
    requires forall k :: 0 <= k < |numbering| ==> numbering[k] < Uleb.TWO64
    ensures var a, b := Effect(op, st), Effect(RenumberOp(op, numbering).bytes, Mapped(numbering, st));
      b.binds == MapAll(numbering, a.binds) && b.next == Mapped(numbering, a.next) && b.more == a.more
  {
    var t := RenumberOp(op, numbering).bytes;
    if Code(op[0]) == 2 {
      RenumberOpLen(op, numbering);
      UlebEffect(op, st);
      UlebEffect(t, Mapped(numbering, st));
      RenumberedOrdinal(op, numbering);
    } else if Code(op[0]) != 1 {
      RawEffect(op, st, numbering);
    }
  }

  lemma RenumberedOrdinal(op: Bytes, numbering: seq<nat>)
    requires |op| > 0 && Code(op[0]) == 2 && OpLen(op) == |op| && RenumberOp(op, numbering).Rewritten?
    requires forall k :: 0 <= k < |numbering| ==> numbering[k] < Uleb.TWO64
    ensures var t := RenumberOp(op, numbering).bytes;
      && |t| > 0
      && Uleb.Decode(t[1..]).Decoded? && Uleb.Decode(op[1..]).Decoded?
      && Uleb.Decode(t[1..]).value == MapOrdinal(numbering, Uleb.Decode(op[1..]).value)
  {
    var d := Uleb.Decode(op[1..]);
    var g := Uleb.Encode(numbering[d.value], d.len);
    assert RenumberOp(op, numbering).bytes[1..] == g + [];
    Uleb.DecodeEncode(numbering[d.value], d.len, []);
  }

  /**
   * The renumbered stream performs the same bind operations in the same order, each with its
   * library's new ordinal and nothing else changed.
   */
  lemma {:induction false} RenumberKeepsBinds(s: Bytes, st: State, numbering: seq<nat>)
    requires Renumber(s, numbering).Rewritten?
    requires forall k :: 0 <= k < |numbering| ==> numbering[k] < Uleb.TWO64
    ensures Binds(Renumber(s, numbering).bytes, Mapped(numbering, st)) == MapAll(numbering, Binds(s, st))
    decreases |s|
  {
    hide Effect, OpLen, RenumberOp, Mapped;
    if |s| > 0 {
      var t, n := Renumber(s, numbering).bytes, OpLen(s);
      RenumberHead(s, numbering);
      OpEffect(s[..n], st, numbering);
      RenumberKeepsBinds(s[n..], Effect(s[..n], st).next, numbering);
    }
  }

  /** A special ordinal, or one the map keeps. */
  predicate Known(numbering: seq<nat>, o: int) { o <= 0 || Usable(numbering, o) }

  lemma {:induction false} RepeatedKnown(numbering: seq<nat>, st: State, count: nat, step: nat)
    requires Known(numbering, st.ordinal)
    ensures forall b :: b in Repeated(st, count, step) ==> Known(numbering, b.ordinal)
    ensures Known(numbering, After(st, count, step).ordinal)
    decreases count
  {
    if count > 0 { RepeatedKnown(numbering, Advance(st, step), count - 1, step); }
  }

  lemma OpKnown(op: Bytes, st: State, numbering: seq<nat>)
    requires |op| > 0 && OpLen(op) == |op| && RenumberOp(op, numbering).Rewritten? && Known(numbering, st.ordinal)
    ensures forall b :: b in Effect(op, st).binds ==> Known(numbering, b.ordinal)
    ensures Known(numbering, Effect(op, st).next.ordinal)
  {
    if Code(op[0]) == 2 {
      UlebEffect(op, st);
    } else {
      hide Operand, OpLen;
      KnownStep(op, st, numbering, op[1..]);
    }
  }

  lemma KnownStep(op: Bytes, st: State, numbering: seq<nat>, rest: Bytes)
    requires |op| > 0 && rest == op[1..] && Code(op[0]) != 2 && Known(numbering, st.ordinal)
    requires Code(op[0]) == 1 ==> Usable(numbering, Imm(op[0]))
    ensures forall b :: b in Effect(op, st).binds ==> Known(numbering, b.ordinal)
    ensures Known(numbering, Effect(op, st).next.ordinal)
  {
    hide Operand, Usable;
    if Code(op[0]) == 12 && Uleb.Extent(rest) > 0 && Uleb.Extent(rest[Uleb.Extent(rest)..]) > 0 {
      RepeatedKnown(numbering, st, Operand(rest), Operand(rest[Uleb.Extent(rest)..]) + PTR);
    }
  }

  /** A renumbered stream binds nothing to a library the map deletes or does not know. */
  lemma {:induction false} BindsKnown(s: Bytes, st: State, numbering: seq<nat>)
    requires Renumber(s, numbering).Rewritten? && Known(numbering, st.ordinal)
    ensures forall b :: b in Binds(s, st) ==> Known(numbering, b.ordinal)
    decreases |s|
  {
    hide Effect, OpLen, RenumberOp, Known;
    if |s| > 0 {
      OpAlone(s);
      OpKnown(s[..OpLen(s)], st, numbering);
      BindsKnown(s[OpLen(s)..], Effect(s[..OpLen(s)], st).next, numbering);
    }
  }

  // ------------------------------------------- entering the stream elsewhere

  /** p is where some operation of s starts. */
  predicate StartsAt(s: Bytes, p: nat) {
    p == 0 || (|s| > 0 && 0 < OpLen(s) <= p && StartsAt(s[OpLen(s)..], p - OpLen(s)))
  }

  lemma {:induction false} StartInside(s: Bytes, p: nat)
    requires StartsAt(s, p)
    ensures p <= |s|
    decreases |s|
  {
    hide OpLen;
    if p > 0 { StartInside(s[OpLen(s)..], p - OpLen(s)); }
  }

  /** Operations start where they did, and each suffix is renumbered on its own. */
  lemma {:induction false} RenumberSuffix(s: Bytes, p: nat, numbering: seq<nat>)
    requires Renumber(s, numbering).Rewritten? && StartsAt(s, p)
    requires forall k :: 0 <= k < |numbering| ==> numbering[k] < Uleb.TWO64
    ensures p <= |s| && StartsAt(Renumber(s, numbering).bytes, p)
    ensures Renumber(s[p..], numbering) == Rewritten(Renumber(s, numbering).bytes[p..])
    decreases |s|
  {
    hide OpLen, RenumberOp;
    StartInside(s, p);
    if p > 0 {
      var t, n := Renumber(s, numbering).bytes, OpLen(s);
      RenumberHead(s, numbering);
      RenumberSuffix(s[n..], p - n, numbering);
      assert s[n..][p - n..] == s[p..];
      assert t[n..][p - n..] == t[p..];
    }
  }

  /** Lazy binding enters a stream at an offset: there too, only ordinals are mapped. */
  lemma RenumberKeepsLazyBinds(s: Bytes, p: nat, st: State, numbering: seq<nat>)
    requires Renumber(s, numbering).Rewritten? && StartsAt(s, p)
    requires forall k :: 0 <= k < |numbering| ==> numbering[k] < Uleb.TWO64
    ensures p <= |s| && Binds(Renumber(s, numbering).bytes[p..], Mapped(numbering, st)) ==
        MapAll(numbering, Binds(s[p..], st))
  {
    RenumberSuffix(s, p, numbering);
    RenumberKeepsBinds(s[p..], st, numbering);
  }

  // -------------------------------------------------------------- in place

  /** uleb_skip from p. */
  method SkipUleb(buf: array<Byte>, p: nat, end: nat) returns (q: nat)
    requires p <= end <= buf.Length
    ensures q == p + Skip(buf[p..end])
  {
    ghost var s := buf[p..end];
    q := p;
    while q < end && buf[q] >= 0x80
      invariant p <= q <= end && forall i :: 0 <= i < q - p ==> s[i] >= 0x80
    {
      assert buf[q] == s[q - p];
      q := q + 1;
    }
    if q < end {
      assert buf[q] == s[q - p];
      Uleb.ExtentAt(s, q - p);
      q := q + 1;
    } else {
      Uleb.ExtentNone(s);
    }
  }

  method SkipText(buf: array<Byte>, p: nat, end: nat) returns (q: nat)
    requires p <= end <= buf.Length
    ensures q == p + Text(buf[p..end])
  {
    q := p;
    while q < end && buf[q] != 0
      invariant p <= q <= end && q - p + Text(buf[q..end]) == Text(buf[p..end])
    {
      assert buf[q..end][1..] == buf[q + 1..end];
      q := q + 1;
    }
    if q < end { q := q + 1; }
  }

  /** The first operation of s rewritten to out, or refused with nothing written. */
  ghost predicate OpRewritten(s: Bytes, numbering: seq<nat>, out: Bytes)
    requires |s| > 0
  {
    var n := OpLen(s);
    if n == 0 then out == []
    else
      && OpLen(s[..n]) == n
      && match RenumberOp(s[..n], numbering) {
           case Refused => out == []
           case Rewritten(t) => out == t
         }
  }

  /** The operation at p rewritten in place: its length, or 0 on a refusal. */
  method RewriteOp(buf: array<Byte>, p: nat, end: nat, numbering: seq<nat>) returns (n: nat)
    requires p < end <= buf.Length
    requires forall k :: 0 <= k < |numbering| ==> numbering[k] < Uleb.TWO64
    modifies buf
    ensures forall k :: 0 <= k < buf.Length && !(p <= k < p + n) ==> buf[k] == old(buf[k])
    ensures p + n <= end && OpRewritten(old(buf[p..end]), numbering, buf[p..p + n])
  {
    hide OpLen, RenumberOp, OpRewritten;
    var code, imm := Code(buf[p]), Imm(buf[p]);
    if code == 1 {
      n := 0;
      ghost var s := buf[p..end];
      ImmRewritten(s, numbering);
      if Usable(numbering, imm) && numbering[imm] <= 15 {
        buf[p] := 0x10 + numbering[imm];
        n := 1;
      }
      assert buf[p..p + n] == if n == 1 then [buf[p]] else [];
    } else if code == 2 {
      n := RewriteUleb(buf, p, end, numbering);
    } else {
      n := MeasureOp(buf, p, end);
      RawRewritten(buf[p..end], numbering);
      assert buf[p..p + n] == buf[p..end][..n];
    }
  }

  lemma ImmRewritten(s: Bytes, numbering: seq<nat>)
    requires |s| > 0 && Code(s[0]) == 1
    ensures var imm := Imm(s[0]);
      OpRewritten(s, numbering, if Usable(numbering, imm) && numbering[imm] <= 15 then [0x10 + numbering[imm]] else [])
  {}

  lemma RawRewritten(s: Bytes, numbering: seq<nat>)
    requires |s| > 0 && Code(s[0]) != 1 && Code(s[0]) != 2
    ensures OpRewritten(s, numbering, s[..OpLen(s)])
  {
    hide OpLen;
    if OpLen(s) > 0 { OpAlone(s); }
  }

  /** The length of an operation without an ordinal. */
  method MeasureOp(buf: array<Byte>, p: nat, end: nat) returns (n: nat)
    requires p < end <= buf.Length && Code(buf[p]) != 2
    ensures n == OpLen(buf[p..end])
  {
    hide Text, Skip;
    ghost var s := buf[p..end];
    assert buf[p + 1..end] == s[1..];
    var code := Code(buf[p]);
    n := 1;
    if code > 12 { return 0; }
    if code == 4 {
      var q := SkipText(buf, p + 1, end);
      n := q - p;
    } else if code == 6 || code == 7 || code == 8 || code == 10 {
      var q := SkipUleb(buf, p + 1, end);
      n := q - p;
    } else if code == 12 {
      var q := SkipUleb(buf, p + 1, end);
      assert buf[q..end] == s[1..][Skip(s[1..])..];
      q := SkipUleb(buf, q, end);
      n := q - p;
    }
  }

  method RewriteUleb(buf: array<Byte>, p: nat, end: nat, numbering: seq<nat>) returns (n: nat)
    requires p < end <= buf.Length && Code(buf[p]) == 2
    requires forall k :: 0 <= k < |numbering| ==> numbering[k] < Uleb.TWO64
    modifies buf
    ensures forall k :: 0 <= k < buf.Length && !(p <= k < p + n) ==> buf[k] == old(buf[k])
    ensures p + n <= end && OpRewritten(old(buf[p..end]), numbering, buf[p..p + n])
  {
    hide Text, Skip, Uleb.Decode, Uleb.Encode, Uleb.MinLen, Uleb.Extent;
    ghost var s := buf[p..end];
    assert buf[p + 1..end] == s[1..];
    var d := Uleb.DecodeAt(buf, p + 1, end);
    if d.Malformed? { return 0; }
    UlebOpAlone(s);
    if !Usable(numbering, d.value) { return 0; }
    var least := Uleb.MinLength(numbering[d.value]);
    if least != d.len { return 0; }
    Uleb.WriteGroups(buf, p + 1, numbering[d.value], d.len);
    n := 1 + d.len;
    assert buf[p..p + n] == [buf[p]] + buf[p + 1..p + n];
    assert buf[p + 1..p + n] == Uleb.Encode(numbering[d.value], d.len);
    assert buf[p] == old(buf[..p + 1])[p];
  }

  lemma UlebOpAlone(s: Bytes)
    requires |s| > 0 && Code(s[0]) == 2 && OpLen(s) > 0
    ensures var n := OpLen(s); OpLen(s[..n]) == n && Uleb.Decode(s[..n][1..]) == Uleb.Decode(s[1..])
  {
    var n := OpLen(s);
    assert s[..n][1..] == s[1..][..n - 1];
    Uleb.DecodeLocal(s[1..], s[1..][..n - 1]);
  }

  /** The buffer was a and now is b; the operations of [start, p) have been rewritten. */
  ghost predicate Progress(a: Bytes, b: Bytes, start: nat, p: nat, end: nat, numbering: seq<nat>) {
    && start <= p <= end <= |a| == |b|
    && (forall k :: 0 <= k < |a| && !(start <= k < p) ==> b[k] == a[k])
    && Renumber(a[start..end], numbering) == Join(b[start..p], Renumber(a[p..end], numbering))
  }

  lemma ProgressStart(a: Bytes, start: nat, end: nat, numbering: seq<nat>)
    requires start <= end <= |a|
    ensures Progress(a, a, start, start, end, numbering)
  {
    hide Renumber;
  }

  lemma ProgressStep(a: Bytes, b: Bytes, c: Bytes, start: nat, p: nat, end: nat, numbering: seq<nat>, n: nat)
    requires Progress(a, b, start, p, end, numbering) && p < end && p + n <= end && |c| == |b|
    requires forall k :: 0 <= k < |b| && !(p <= k < p + n) ==> c[k] == b[k]
    requires OpRewritten(b[p..end], numbering, c[p..p + n])
    ensures if n == 0 then Renumber(a[start..end], numbering).Refused? else Progress(a, c, start, p + n, end, numbering)
  {
    hide Renumber, OpRewritten;
    assert b[p..end] == a[p..end];
    RenumberStep(a[p..end], numbering, c[p..p + n]);
    if n > 0 {
      assert a[p..end][n..] == a[p + n..end];
      JoinJoin(b[start..p], c[p..p + n], Renumber(a[p + n..end], numbering));
      assert b[start..p] + c[p..p + n] == c[start..p + n];
    }
  }

  lemma ProgressEnd(a: Bytes, b: Bytes, start: nat, end: nat, numbering: seq<nat>)
    requires Progress(a, b, start, end, end, numbering)
    ensures Renumber(a[start..end], numbering) == Rewritten(b[start..end])
    ensures forall k :: 0 <= k < |a| && !(start <= k < end) ==> b[k] == a[k]
  {
    assert b[start..end] + [] == b[start..end];
  }

  /** renumber_bind_stream on the bytes [start, end) of a buffer. */
  method RenumberStream(buf: array<Byte>, start: nat, end: nat, numbering: seq<nat>) returns (ok: bool)
    requires start <= end <= buf.Length
    requires forall k :: 0 <= k < |numbering| ==> numbering[k] < Uleb.TWO64
    modifies buf
    ensures ok == Renumber(old(buf[start..end]), numbering).Rewritten?
    ensures ok ==> buf[start..end] == Renumber(old(buf[start..end]), numbering).bytes
    ensures forall k :: 0 <= k < buf.Length && !(start <= k < end) ==> buf[k] == old(buf[k])
  {
    hide OpRewritten, Renumber, Progress;
    ghost var a := buf[..];
    var p := start;
    ProgressStart(a, start, end, numbering);
    while p < end
      invariant start <= p <= end && Progress(a, buf[..], start, p, end, numbering)
      invariant forall k :: 0 <= k < buf.Length && !(start <= k < end) ==> buf[k] == a[k]
    {
      ghost var b := buf[..];
      assert b[p..end] == buf[p..end];
      var n := RewriteOp(buf, p, end, numbering);
      assert buf[..][p..p + n] == buf[p..p + n];
      ProgressStep(a, b, buf[..], start, p, end, numbering, n);
      if n == 0 { return false; }
      p := p + n;
    }
    ProgressEnd(a, buf[..], start, end, numbering);
    ok := true;
  }

  function Join(done: Bytes, r: Rewrite): Rewrite {
    if r.Rewritten? then Rewritten(done + r.bytes) else Refused
  }

  lemma JoinJoin(a: Bytes, b: Bytes, r: Rewrite)
    ensures Join(a, Join(b, r)) == Join(a + b, r)
  {
    if r.Rewritten? { assert a + (b + r.bytes) == a + b + r.bytes; }
  }

  lemma RenumberStep(s: Bytes, numbering: seq<nat>, out: Bytes)
    requires |s| > 0 && OpRewritten(s, numbering, out)
    ensures if out == [] then Renumber(s, numbering).Refused?
            else |out| <= |s| && Renumber(s, numbering) == Join(out, Renumber(s[|out|..], numbering))
  {
    hide OpLen, RenumberOp;
    if OpLen(s) > 0 { OpAlone(s); }
  }
}
