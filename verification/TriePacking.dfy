/** Export-trie nodes put together part by part, and what the scan reads of one. */
module TriePacking {
  import opened ByteStrings
  import opened ExportTrie
  import Uleb

  predicate NumOk(n: Uleb.Num) { n.v < Uleb.TWO64 && Uleb.MinLen(n.v) <= n.width <= 10 }

  /** low: kind and weak bit; high: all bits above the resolver bit. */
  datatype Flags = Flags(low: nat, reexport: bool, resolver: bool, high: nat)

  function FlagsValue(f: Flags): nat {
    f.low + (if f.reexport then 0x08 else 0) + (if f.resolver then 0x10 else 0) + 0x20 * f.high
  }

  lemma FlagBits(f: Flags)
    requires f.low < 8
    ensures Reexported(FlagsValue(f)) == f.reexport && HasResolver(FlagsValue(f)) == f.resolver
  {
    Bits(f.low, if f.reexport then 1 else 0, if f.resolver then 1 else 0, f.high);
  }

  lemma Bits(low: nat, a: nat, b: nat, high: nat)
    requires low < 8 && a <= 1 && b <= 1
    ensures var v := low + 0x08 * a + 0x10 * b + 0x20 * high; v / 8 % 2 == a && v / 0x10 % 2 == b
  {
    var v := low + 0x08 * a + 0x10 * b + 0x20 * high;
    assert v / 8 == a + 2 * (b + 2 * high);
    assert v / 0x10 == b + 2 * high;
  }

  /** rest: what follows the flags of a re-export. */
  datatype Info =
    | Nothing
    | Again(flags: Flags, width: nat, rest: Bytes)
    | Here(flags: Flags, width: nat, address: Uleb.Num)
    | Resolved(flags: Flags, width: nat, stub: Uleb.Num, resolver: Uleb.Num)

  predicate FlagsOk(f: Flags, width: nat) { f.low < 8 && NumOk(Uleb.Num(FlagsValue(f), width)) }

  predicate InfoOk(i: Info) {
    match i
    case Nothing => true
    case Again(f, w, _) => FlagsOk(f, w) && f.reexport
    case Here(f, w, a) => FlagsOk(f, w) && !f.reexport && !f.resolver && NumOk(a)
    case Resolved(f, w, a, r) => FlagsOk(f, w) && !f.reexport && f.resolver && NumOk(a) && NumOk(r)
  }

  function InfoBytes(i: Info): Bytes {
    match i
    case Nothing => []
    case Again(f, w, rest) => Uleb.Spelled(Uleb.Num(FlagsValue(f), w)) + rest
    case Here(f, w, a) => Uleb.Spelled(Uleb.Num(FlagsValue(f), w)) + Uleb.Spelled(a)
    case Resolved(f, w, a, r) => Uleb.Spelled(Uleb.Num(FlagsValue(f), w)) + (Uleb.Spelled(a) + Uleb.Spelled(r))
  }

  function Meaning(i: Info): Terminal {
    match i
    case Nothing => NoTerminal
    case Again(_, _, _) => Reexport
    case Here(_, _, a) => Export([a.v])
    case Resolved(_, _, a, r) => Export([a.v, r.v])
  }

  datatype Kid = Kid(edge: Bytes, child: Uleb.Num)

  predicate KidOk(k: Kid) { 0 !in k.edge && NumOk(k.child) && k.child.v < TWO32 }

  function KidsBytes(kids: seq<Kid>): Bytes {
    if |kids| == 0 then []
    else kids[0].edge + [0] + Uleb.Spelled(kids[0].child) + KidsBytes(kids[1..])
  }

  /** size: the terminal's length, as the node gives it. */
  datatype Packed = Packed(size: Uleb.Num, info: Info, kids: seq<Kid>)

  predicate PackedOk(n: Packed) {
    && NumOk(n.size) && InfoOk(n.info) && n.size.v == |InfoBytes(n.info)|
    && |n.kids| < 0x100
    && forall i :: 0 <= i < |n.kids| ==> KidOk(n.kids[i])
  }

  function NodeBytes(n: Packed): Bytes
    requires PackedOk(n)
  {
    Uleb.Spelled(n.size) + (InfoBytes(n.info) + ([|n.kids|] + KidsBytes(n.kids)))
  }

  ghost predicate At(t: Bytes, p: nat, c: Bytes) { p + |c| <= |t| && t[p..p + |c|] == c }

  lemma Split(t: Bytes, p: nat, a: Bytes, b: Bytes)
    requires At(t, p, a + b)
    ensures At(t, p, a) && At(t, p + |a|, b)
  {
    var c := t[p..p + |a + b|];
    assert t[p..p + |a|] == c[..|a|];
    assert t[p + |a|..p + |a| + |b|] == c[|a|..];
  }

  lemma NumRead(t: Bytes, p: nat, n: Uleb.Num)
    requires NumOk(n) && At(t, p, Uleb.Spelled(n))
    ensures Uleb.Decode(t[p..]) == Uleb.Decoded(n.v, n.width) && |Uleb.Spelled(n)| == n.width
  {
    assert t[p..] == Uleb.Spelled(n) + t[p + n.width..];
    Uleb.DecodeEncode(n.v, n.width, t[p + n.width..]);
  }

  lemma InfoRead(t: Bytes, p: nat, i: Info)
    requires InfoOk(i) && !i.Nothing? && At(t, p, InfoBytes(i))
    ensures ReadTerminal(t, p) == Ok(Meaning(i))
  {
    hide Uleb.Spelled, NumOk, Uleb.Decode, Reexported, HasResolver, FlagsValue, At;
    var n := Uleb.Num(FlagsValue(i.flags), i.width);
    FlagBits(i.flags);
    InsideText(t, p, InfoBytes(i));
    match i
    case Again(f, w, rest) =>
      Split(t, p, Uleb.Spelled(n), rest);
      NumRead(t, p, n);
    case Here(f, w, a) =>
      Split(t, p, Uleb.Spelled(n), Uleb.Spelled(a));
      NumRead(t, p, n);
      NumRead(t, p + w, a);
    case Resolved(f, w, a, r) =>
      Split(t, p, Uleb.Spelled(n), Uleb.Spelled(a) + Uleb.Spelled(r));
      NumRead(t, p, n);
      Split(t, p + w, Uleb.Spelled(a), Uleb.Spelled(r));
      NumRead(t, p + w, a);
      NumRead(t, p + w + a.width, r);
  }

  lemma InsideText(t: Bytes, p: nat, c: Bytes)
    requires At(t, p, c)
    ensures p + |c| <= |t|
  {}

  lemma {:induction false} EdgeRead(t: Bytes, p: nat, edge: Bytes)
    requires 0 !in edge && At(t, p, edge + [0])
    ensures AfterLabel(t, p) == p + |edge| + 1
    decreases |edge|
  {
    var c := edge + [0];
    assert t[p] == t[p..p + |c|][0] == c[0];
    if |edge| > 0 {
      assert c[0] in edge;
      assert t[p + 1..p + 1 + |edge|] == t[p..p + |c|][1..];
      assert c[1..] == edge[1..] + [0];
      EdgeRead(t, p + 1, edge[1..]);
    }
  }

  function Children(kids: seq<Kid>): (r: seq<nat>)
    ensures |r| == |kids|
  {
    if |kids| == 0 then [] else [kids[0].child.v] + Children(kids[1..])
  }

  lemma {:induction false} KidsRead(t: Bytes, p: nat, kids: seq<Kid>)
    requires (forall i :: 0 <= i < |kids| ==> KidOk(kids[i])) && At(t, p, KidsBytes(kids))
    ensures ReadKids(t, p, |kids|) == Ok(Children(kids))
    decreases |kids|
  {
    hide Uleb.Spelled, Uleb.Decode, AfterLabel, At, NumOk;
    if |kids| > 0 {
      var k := kids[0];
      var a, b, c := k.edge + [0], Uleb.Spelled(k.child), KidsBytes(kids[1..]);
      InsideText(t, p, KidsBytes(kids));
      assert KidsBytes(kids) == a + b + c;
      Split(t, p, a + b, c);
      Split(t, p, a, b);
      EdgeRead(t, p, k.edge);
      NumRead(t, p + |a|, k.child);
      KidsRead(t, p + |a| + |b|, kids[1..]);
    }
  }

  /** A node held at an offset is read as what it was made of. */
  lemma NodeRead(t: Bytes, off: nat, n: Packed)
    requires PackedOk(n) && At(t, off, NodeBytes(n))
    ensures ReadNode(t, off) == Node(Meaning(n.info), Children(n.kids))
  {
    hide Uleb.Spelled, Uleb.Decode, ReadTerminal, ReadKids, InfoBytes, KidsBytes, At, NumOk, InfoOk, KidOk;
    var size, info, tail := Uleb.Spelled(n.size), InfoBytes(n.info), [|n.kids|] + KidsBytes(n.kids);
    InsideText(t, off, NodeBytes(n));
    Split(t, off, size, info + tail);
    NumRead(t, off, n.size);
    var p := off + n.size.width;
    Split(t, p, info, tail);
    var q := p + |info|;
    Split(t, q, [|n.kids|], KidsBytes(n.kids));
    CountRead(t, q, |n.kids|);
    KidsRead(t, q + 1, n.kids);
    EmptyInfo(n.info);
    if !n.info.Nothing? { InfoRead(t, p, n.info); }
  }

  lemma CountRead(t: Bytes, q: nat, n: nat)
    requires n < 0x100 && At(t, q, [n])
    ensures q < |t| && t[q] == n
  {
    assert t[q..q + 1][0] == t[q];
  }

  lemma EmptyInfo(i: Info)
    requires InfoOk(i)
    ensures i.Nothing? <==> |InfoBytes(i)| == 0
  {}
}
