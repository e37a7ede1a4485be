/**
 * Bind programs as lists of operations, assembled by the format's own table: what renumbering
 * does to an assembled stream, and what dyld's machine makes of one.
 */
module BindProgram {
  import opened ByteStrings
  import Uleb
  import B = BindOpcodes

  datatype Op =
    | Done
    | OrdinalImm(ordinal: nat)
    | OrdinalUleb(n: Uleb.Num)
    | SpecialImm(special: int)
    | Symbol(name: Bytes, flags: nat)
    | TypeImm(kind: nat)
    | AddendSleb(sleb: Bytes)
    | SegmentAndOffset(seg: nat, n: Uleb.Num)
    | AddAddr(n: Uleb.Num)
    | DoBind
    | DoBindAddAddr(n: Uleb.Num)
    | DoBindAddScaled(scale: nat)
    | DoBindTimesSkipping(n: Uleb.Num, skip: Uleb.Num)

  predicate NumOk(n: Uleb.Num) { n.v < Uleb.TWO64 && Uleb.MinLen(n.v) <= n.width }

  /** Every byte but the last has its top bit set. */
  predicate SlebOk(g: Bytes) {
    |g| > 0 && g[|g| - 1] < 0x80 && forall i :: 0 <= i < |g| - 1 ==> g[i] >= 0x80
  }

  predicate OpOk(op: Op) {
    match op
    case Done => true
    case OrdinalImm(k) => k < 16
    case OrdinalUleb(n) => NumOk(n) && n.width <= 10
    case SpecialImm(k) => -15 <= k <= 0
    case Symbol(name, flags) => 0 !in name && flags < 16
    case TypeImm(k) => k < 16
    case AddendSleb(g) => SlebOk(g)
    case SegmentAndOffset(seg, n) => seg < 16 && NumOk(n)
    case AddAddr(n) => NumOk(n)
    case DoBind => true
    case DoBindAddAddr(n) => NumOk(n)
    case DoBindAddScaled(k) => k < 16
    case DoBindTimesSkipping(n, skip) => NumOk(n) && NumOk(skip)
  }

  /** The bytes of one operation. */
  function Code(op: Op): (s: Bytes)
    requires OpOk(op)
    ensures |s| > 0
  {
    match op
    case Done => [0x00]
    case OrdinalImm(k) => [0x10 + k]
    case OrdinalUleb(n) => [0x20] + Uleb.Spelled(n)
    case SpecialImm(k) => [if k == 0 then 0x30 else 0x40 + k]
    case Symbol(name, flags) => [0x40 + flags] + name + [0]
    case TypeImm(k) => [0x50 + k]
    case AddendSleb(g) => [0x60] + g
    case SegmentAndOffset(seg, n) => [0x70 + seg] + Uleb.Spelled(n)
    case AddAddr(n) => [0x80] + Uleb.Spelled(n)
    case DoBind => [0x90]
    case DoBindAddAddr(n) => [0xA0] + Uleb.Spelled(n)
    case DoBindAddScaled(k) => [0xB0 + k]
    case DoBindTimesSkipping(n, skip) => [0xC0] + (Uleb.Spelled(n) + Uleb.Spelled(skip))
  }

  ghost predicate AllOk(ops: seq<Op>) { forall i :: 0 <= i < |ops| ==> OpOk(ops[i]) }

  function Assembled(ops: seq<Op>): Bytes
    requires AllOk(ops)
  {
    if |ops| == 0 then [] else Code(ops[0]) + Assembled(ops[1..])
  }

  // --------------------------------------------------------- the meaning

  datatype Step = Performed(binds: seq<B.State>, next: B.State)

  function At(st: B.State, off: nat): B.State { st.(off := off % Uleb.TWO64) }

  /** count binds, step bytes apart. */
  function Series(st: B.State, count: nat, step: nat): seq<B.State> {
    seq(count, i requires 0 <= i < count => At(st, st.off + i * step))
  }

  /** What one operation other than Done does. */
  function Does(op: Op, st: B.State): Step {
    match op
    case Done => Performed([], st)
    case OrdinalImm(k) => Performed([], st.(ordinal := k))
    case OrdinalUleb(n) => Performed([], st.(ordinal := n.v))
    case SpecialImm(k) => Performed([], st.(ordinal := k))
    case Symbol(name, flags) => Performed([], st.(symbol := name, flags := flags))
    case TypeImm(k) => Performed([], st.(kind := k))
    case AddendSleb(g) => Performed([], st.(addend := g))
    case SegmentAndOffset(seg, n) => Performed([], st.(seg := seg, off := n.v))
    case AddAddr(n) => Performed([], At(st, st.off + n.v))
    case DoBind => Performed([st], At(st, st.off + 8))
    case DoBindAddAddr(n) => Performed([st], At(st, st.off + n.v + 8))
    case DoBindAddScaled(k) => Performed([st], At(st, st.off + 8 * k + 8))
    case DoBindTimesSkipping(n, skip) =>
      Performed(Series(st, n.v, skip.v + 8), At(st, st.off + n.v * (skip.v + 8)))
  }

  /** The bind operations of a program, up to the first Done. */
  function Runs(ops: seq<Op>, st: B.State): seq<B.State>
    decreases |ops|
  {
    if |ops| == 0 || ops[0].Done? then []
    else
      var d := Does(ops[0], st);
      d.binds + Runs(ops[1..], d.next)
  }

  // ------------------------------------------------------ cutting the stream

  lemma UlebLen(n: Uleb.Num, rest: Bytes)
    requires NumOk(n)
    ensures var s := Uleb.Spelled(n) + rest;
      Uleb.Extent(s) == n.width > 0 && B.Skip(s) == n.width && s[n.width..] == rest
      && s[..n.width] == Uleb.Spelled(n) && B.Operand(s) == n.v
  {
    Uleb.EncodeRoundTrip(n.v, n.width, rest);
    var s := Uleb.Spelled(n) + rest;
    assert s[..n.width] == Uleb.Spelled(n);
  }

  lemma {:induction false} SlebLen(g: Bytes, rest: Bytes)
    requires SlebOk(g)
    ensures Uleb.Extent(g + rest) == |g| && B.Skip(g + rest) == |g| && (g + rest)[..|g|] == g
  {
    var s := g + rest;
    assert forall i :: 0 <= i < |g| ==> s[i] == g[i];
    Uleb.ExtentAt(s, |g| - 1);
  }

  lemma {:induction false} TextLen(name: Bytes, rest: Bytes)
    requires 0 !in name
    ensures B.Text(name + [0] + rest) == |name| + 1
  {
    var s := name + [0] + rest;
    if |name| > 0 {
      assert s[0] == name[0] && s[0] in name;
      assert s[1..] == name[1..] + [0] + rest;
      TextLen(name[1..], rest);
    }
  }

  lemma TwoNums(n: Uleb.Num, skip: Uleb.Num, rest: Bytes)
    requires NumOk(n) && NumOk(skip)
    ensures var s := Uleb.Spelled(n) + Uleb.Spelled(skip) + rest;
      && B.Skip(s) == n.width && B.Skip(s[n.width..]) == skip.width
      && Uleb.Extent(s) == n.width > 0 && Uleb.Extent(s[n.width..]) == skip.width > 0
      && B.Operand(s) == n.v && B.Operand(s[n.width..]) == skip.v
      && |Uleb.Spelled(n)| == n.width && |Uleb.Spelled(skip)| == skip.width
  {
    hide Uleb.Extent, B.Skip, B.Operand;
    assert Uleb.Spelled(n) + Uleb.Spelled(skip) + rest == Uleb.Spelled(n) + (Uleb.Spelled(skip) + rest);
    UlebLen(n, Uleb.Spelled(skip) + rest);
    UlebLen(skip, rest);
  }

  /** The operation is cut off where it ends, whatever follows. */
  lemma CutAt(op: Op, rest: Bytes)
    requires OpOk(op)
    ensures B.OpLen(Code(op) + rest) == |Code(op)|
  {
    match op
    case OrdinalUleb(n) => OrdinalCut(n, rest);
    case Symbol(name, flags) => SymbolCut(name, flags, rest);
    case AddendSleb(g) => SlebCut(g, rest);
    case SegmentAndOffset(seg, n) => NumCut(0x70 + seg, n, rest);
    case AddAddr(n) => NumCut(0x80, n, rest);
    case DoBindAddAddr(n) => NumCut(0xA0, n, rest);
    case DoBindTimesSkipping(n, skip) => TimesCut(n, skip, rest);
    case _ => ShortCut(Code(op)[0], rest);
  }

  lemma ShortCut(b: Byte, rest: Bytes)
    requires b < 0x20 || 0x30 <= b < 0x40 || 0x50 <= b < 0x60 || 0x90 <= b < 0xA0 || 0xB0 <= b < 0xC0
    ensures B.OpLen([b] + rest) == 1
  {
    assert ([b] + rest)[0] == b;
  }

  lemma OrdinalCut(n: Uleb.Num, rest: Bytes)
    requires NumOk(n) && n.width <= 10
    ensures B.OpLen([0x20] + Uleb.Spelled(n) + rest) == 1 + n.width
  {
    hide Uleb.Decode;
    var s := [0x20] + Uleb.Spelled(n) + rest;
    assert s[0] == 0x20 && s[1..] == Uleb.Spelled(n) + rest;
    UlebRead(n, rest);
  }

  lemma SymbolCut(name: Bytes, flags: nat, rest: Bytes)
    requires 0 !in name && flags < 16
    ensures B.OpLen([0x40 + flags] + name + [0] + rest) == |name| + 2
  {
    hide B.Text;
    var s := [0x40 + flags] + name + [0] + rest;
    assert s[0] == 0x40 + flags && s[1..] == name + [0] + rest;
    TextLen(name, rest);
  }

  lemma SlebCut(g: Bytes, rest: Bytes)
    requires SlebOk(g)
    ensures B.OpLen([0x60] + g + rest) == 1 + |g|
  {
    hide B.Skip;
    var s := [0x60] + g + rest;
    assert s[0] == 0x60 && s[1..] == g + rest;
    SlebLen(g, rest);
  }

  lemma NumCut(b: Byte, n: Uleb.Num, rest: Bytes)
    requires NumOk(n) && (0x70 <= b < 0x90 || 0xA0 <= b < 0xB0)
    ensures B.OpLen([b] + Uleb.Spelled(n) + rest) == 1 + n.width
  {
    hide B.Skip;
    var s := [b] + Uleb.Spelled(n) + rest;
    assert s[0] == b && s[1..] == Uleb.Spelled(n) + rest;
    UlebLen(n, rest);
  }

  lemma TimesCut(n: Uleb.Num, skip: Uleb.Num, rest: Bytes)
    requires NumOk(n) && NumOk(skip)
    ensures B.OpLen([0xC0] + (Uleb.Spelled(n) + Uleb.Spelled(skip)) + rest) == 1 + n.width + skip.width
  {
    hide B.Skip;
    var s := [0xC0] + (Uleb.Spelled(n) + Uleb.Spelled(skip)) + rest;
    var t := Uleb.Spelled(n) + Uleb.Spelled(skip) + rest;
    assert s[0] == 0xC0 && s[1..] == t;
    TwoNums(n, skip, rest);
  }

  lemma UlebRead(n: Uleb.Num, rest: Bytes)
    requires NumOk(n) && n.width <= 10
    ensures Uleb.Decode(Uleb.Spelled(n) + rest) == Uleb.Decoded(n.v, n.width)
  {
    Uleb.DecodeEncode(n.v, n.width, rest);
  }

  // -------------------------------------------------------- renumbering

  /** Both ordinal forms can only take what fits them. */
  predicate Mappable(op: Op, numbering: seq<nat>) {
    match op
    case OrdinalImm(k) => 1 <= k < |numbering| && 1 <= numbering[k] <= 15
    case OrdinalUleb(n) => 1 <= n.v < |numbering| && numbering[n.v] != 0 && Uleb.MinLen(numbering[n.v]) == n.width
    case _ => true
  }

  function MapOp(op: Op, numbering: seq<nat>): Op
    requires Mappable(op, numbering)
  {
    match op
    case OrdinalImm(k) => OrdinalImm(numbering[k])
    case OrdinalUleb(n) => OrdinalUleb(n.(v := numbering[n.v]))
    case _ => op
  }

  ghost predicate AllMappable(ops: seq<Op>, numbering: seq<nat>) {
    forall i :: 0 <= i < |ops| ==> Mappable(ops[i], numbering)
  }

  function MapOps(ops: seq<Op>, numbering: seq<nat>): (r: seq<Op>)
    requires AllMappable(ops, numbering)
    ensures |r| == |ops| && forall i :: 0 <= i < |r| ==> r[i] == MapOp(ops[i], numbering)
  {
    seq(|ops|, i requires 0 <= i < |ops| => MapOp(ops[i], numbering))
  }

  ghost predicate Words64(numbering: seq<nat>) { forall k :: 0 <= k < |numbering| ==> numbering[k] < Uleb.TWO64 }

  lemma MapOpOk(op: Op, numbering: seq<nat>)
    requires OpOk(op) && Mappable(op, numbering) && Words64(numbering)
    ensures OpOk(MapOp(op, numbering))
  {}

  /** One operation: its ordinal is mapped, or it is refused; anything else is kept. */
  lemma RenumberedOp(op: Op, numbering: seq<nat>)
    requires OpOk(op) && Words64(numbering) && B.OpLen(Code(op)) == |Code(op)|
    ensures B.RenumberOp(Code(op), numbering) ==
      if Mappable(op, numbering) then B.Rewritten(Mapping(op, numbering)) else B.Refused
  {
    hide Uleb.Decode, Uleb.MinLen, Uleb.Encode, B.OpLen;
    if op.OrdinalUleb? {
      UlebRead(op.n, []);
      assert Code(op)[1..] == Uleb.Spelled(op.n) + [];
    }
  }

  function Mapping(op: Op, numbering: seq<nat>): Bytes
    requires OpOk(op) && Words64(numbering) && Mappable(op, numbering)
  {
    MapOpOk(op, numbering);
    Code(MapOp(op, numbering))
  }

  lemma CutAlone(op: Op)
    requires OpOk(op)
    ensures B.OpLen(Code(op)) == |Code(op)|
  {
    CutAt(op, []);
    assert Code(op) + [] == Code(op);
  }

  lemma MapOpsOk(ops: seq<Op>, numbering: seq<nat>)
    requires AllOk(ops) && AllMappable(ops, numbering) && Words64(numbering)
    ensures AllOk(MapOps(ops, numbering))
  {
    hide OpOk, Mappable, MapOp;
    forall i | 0 <= i < |ops|
      ensures OpOk(MapOp(ops[i], numbering))
    {
      MapOpOk(ops[i], numbering);
    }
  }

  function MappedStream(ops: seq<Op>, numbering: seq<nat>): Bytes
    requires AllOk(ops) && AllMappable(ops, numbering) && Words64(numbering)
  {
    MapOpsOk(ops, numbering);
    Assembled(MapOps(ops, numbering))
  }

  lemma StreamStep(ops: seq<Op>, numbering: seq<nat>)
    requires |ops| > 0 && AllOk(ops) && Words64(numbering)
    ensures AllOk(ops[1..])
    ensures AllMappable(ops, numbering) <==> Mappable(ops[0], numbering) && AllMappable(ops[1..], numbering)
    ensures AllMappable(ops, numbering) ==>
      MappedStream(ops, numbering) == Mapping(ops[0], numbering) + MappedStream(ops[1..], numbering)
  {
    hide OpOk, Mappable, MapOp, Code;
    assert ops == [ops[0]] + ops[1..];
    assert AllMappable(ops, numbering) <==> Mappable(ops[0], numbering) && AllMappable(ops[1..], numbering);
    if AllMappable(ops, numbering) {
      assert MapOps(ops, numbering)[1..] == MapOps(ops[1..], numbering);
    }
  }

  lemma RenumberCons(head: Bytes, tail: Bytes, numbering: seq<nat>)
    requires |head| > 0 && B.OpLen(head + tail) == |head| && B.OpLen(head) == |head|
    ensures var a, b := B.RenumberOp(head, numbering), B.Renumber(tail, numbering);
      B.Renumber(head + tail, numbering) ==
      if a.Rewritten? && b.Rewritten? then B.Rewritten(a.bytes + b.bytes) else B.Refused
  {
    hide B.OpLen, B.RenumberOp;
    var s := head + tail;
    assert s[..|head|] == head && s[|head|..] == tail;
  }

  /**
   * Renumbering an assembled program assembles the program with its ordinals mapped and all else
   * as it was, or refuses exactly if some ordinal is unknown, deleted or no longer fits its form.
   */
  lemma {:induction false} RenumberAssembled(ops: seq<Op>, numbering: seq<nat>)
    requires AllOk(ops) && Words64(numbering)
    ensures B.Renumber(Assembled(ops), numbering) ==
      if AllMappable(ops, numbering) then B.Rewritten(MappedStream(ops, numbering)) else B.Refused
    decreases |ops|
  {
    hide B.Renumber, B.RenumberOp, B.OpLen, Code, OpOk, Mappable, MapOp, AllMappable, Mapping, MappedStream;
    if |ops| == 0 {
      NoOps(numbering);
    } else {
      StreamStep(ops, numbering);
      RenumberAssembled(ops[1..], numbering);
      CutAt(ops[0], Assembled(ops[1..]));
      CutAlone(ops[0]);
      RenumberedOp(ops[0], numbering);
      RenumberCons(Code(ops[0]), Assembled(ops[1..]), numbering);
    }
  }

  lemma NoOps(numbering: seq<nat>)
    requires Words64(numbering)
    ensures AllMappable([], numbering) && MappedStream([], numbering) == []
    ensures B.Renumber([], numbering) == B.Rewritten([])
  {}

  /** The three unassigned opcodes stop the renumbering wherever they stand. */
  lemma {:induction false} UnknownRefused(ops: seq<Op>, b: Byte, rest: Bytes, numbering: seq<nat>)
    requires AllOk(ops) && Words64(numbering) && b >= 0xD0
    ensures B.Renumber(Assembled(ops) + [b] + rest, numbering).Refused?
    decreases |ops|
  {
    hide B.RenumberOp, Code, OpOk;
    var s := Assembled(ops) + [b] + rest;
    if |ops| == 0 {
      assert s[0] == b;
    } else {
      hide B.Renumber, B.OpLen;
      var tail := Assembled(ops[1..]) + [b] + rest;
      assert AllOk(ops[1..]);
      UnknownRefused(ops[1..], b, rest, numbering);
      CutAt(ops[0], tail);
      CutAlone(ops[0]);
      assert s == Code(ops[0]) + tail;
      RenumberCons(Code(ops[0]), tail, numbering);
    }
  }

  // ------------------------------------------------------ dyld's reading

  lemma {:induction false} SeriesIs(st: B.State, count: nat, step: nat)
    requires st.off < Uleb.TWO64
    ensures B.Repeated(st, count, step) == Series(st, count, step)
    ensures B.After(st, count, step) == At(st, st.off + count * step)
    decreases count
  {
    if count > 0 {
      var next := B.Advance(st, step);
      SeriesIs(next, count - 1, step);
      SeriesStep(st, count, step);
    }
  }

  lemma SeriesStep(st: B.State, count: nat, step: nat)
    requires count > 0 && st.off < Uleb.TWO64
    ensures var next := B.Advance(st, step);
      && Series(st, count, step) == [st] + Series(next, count - 1, step)
      && At(next, next.off + (count - 1) * step) == At(st, st.off + count * step)
  {
    var next := B.Advance(st, step);
    var a, b := Series(st, count, step), [st] + Series(next, count - 1, step);
    forall i | 0 <= i < count
      ensures a[i] == b[i]
    {
      if i > 0 { WrapLater(st.off, step, i); }
    }
    WrapLater(st.off, step, count);
  }

  lemma WrapLater(off: nat, step: nat, i: nat)
    requires i > 0
    ensures i * step == step + (i - 1) * step && (i - 1) * step >= 0
    ensures ((off + step) % Uleb.TWO64 + (i - 1) * step) % Uleb.TWO64 == (off + i * step) % Uleb.TWO64
  {
    WrapAdd(off + step, (i - 1) * step);
  }

  lemma WrapAdd(a: nat, b: nat)
    ensures (a % Uleb.TWO64 + b) % Uleb.TWO64 == (a + b) % Uleb.TWO64
  {}

  /** dyld's machine does with the bytes what the operation says. */
  lemma EffectOf(op: Op, st: B.State)
    requires OpOk(op) && st.off < Uleb.TWO64
    ensures var d := Does(op, st); B.Effect(Code(op), st) == B.Outcome(d.binds, d.next, !op.Done?)
    ensures Does(op, st).next.off < Uleb.TWO64
  {
    hide B.Effect, Series;
    match op
    case OrdinalUleb(n) => NumEffect(0x20, n, st);
    case Symbol(name, flags) => SymbolEffect(name, flags, st);
    case AddendSleb(g) => SlebEffect(g, st);
    case SegmentAndOffset(seg, n) => NumEffect(0x70 + seg, n, st);
    case AddAddr(n) => NumEffect(0x80, n, st);
    case DoBindAddAddr(n) => NumEffect(0xA0, n, st);
    case DoBindTimesSkipping(n, skip) => TimesEffect(n, skip, st);
    case _ => ShortEffect(Code(op)[0], st);
  }

  /** The machine on a single byte. */
  lemma ShortEffect(b: Byte, st: B.State)
    requires b == 0 || 0x10 <= b < 0x20 || 0x30 <= b < 0x40 || 0x50 <= b < 0x60 || b == 0x90 || 0xB0 <= b < 0xC0
    ensures B.Effect([b], st) ==
      if b == 0 then B.Outcome([], st, false)
      else if b < 0x20 then B.Outcome([], st.(ordinal := b - 0x10), true)
      else if b < 0x40 then B.Outcome([], st.(ordinal := if b == 0x30 then 0 else b - 0x40), true)
      else if b < 0x60 then B.Outcome([], st.(kind := b - 0x50), true)
      else if b == 0x90 then B.Outcome([st], At(st, st.off + 8), true)
      else B.Outcome([st], At(st, st.off + 8 * (b - 0xB0) + 8), true)
  {
    hide Uleb.Extent;
    assert [b][1..] == [];
    NoExtent([b][1..]);
  }

  lemma NumEffect(b: Byte, n: Uleb.Num, st: B.State)
    requires NumOk(n) && (b == 0x20 || 0x70 <= b <= 0x80 || b == 0xA0)
    ensures B.Effect([b] + Uleb.Spelled(n), st) ==
      if b == 0x20 then B.Outcome([], st.(ordinal := n.v), true)
      else if b < 0x80 then B.Outcome([], st.(seg := b - 0x70, off := n.v), true)
      else if b == 0x80 then B.Outcome([], At(st, st.off + n.v), true)
      else B.Outcome([st], At(st, st.off + n.v + 8), true)
  {
    hide Uleb.Extent, B.Operand, Uleb.Spelled;
    NumAlone(n);
    var s := [b] + Uleb.Spelled(n);
    assert s[0] == b && s[1..] == Uleb.Spelled(n);
  }

  lemma SymbolEffect(name: Bytes, flags: nat, st: B.State)
    requires 0 !in name && flags < 16
    ensures B.Effect([0x40 + flags] + name + [0], st) == B.Outcome([], st.(symbol := name, flags := flags), true)
  {
    hide Uleb.Extent;
    var s := [0x40 + flags] + name + [0];
    assert s[0] == 0x40 + flags && s[1..] == name + [0];
    assert s[1..][..|name|] == name;
  }

  lemma SlebEffect(g: Bytes, st: B.State)
    requires SlebOk(g)
    ensures B.Effect([0x60] + g, st) == B.Outcome([], st.(addend := g), true)
  {
    hide Uleb.Extent;
    SlebLen(g, []);
    var s := [0x60] + g;
    assert s[0] == 0x60 && s[1..] == g + [] == g;
  }

  lemma TimesEffect(n: Uleb.Num, skip: Uleb.Num, st: B.State)
    requires NumOk(n) && NumOk(skip) && st.off < Uleb.TWO64
    ensures B.Effect([0xC0] + (Uleb.Spelled(n) + Uleb.Spelled(skip)), st) ==
      B.Outcome(Series(st, n.v, skip.v + 8), At(st, st.off + n.v * (skip.v + 8)), true)
  {
    hide Uleb.Extent, B.Operand, B.Repeated, B.After, Series;
    var s := [0xC0] + (Uleb.Spelled(n) + Uleb.Spelled(skip));
    TwoNums(n, skip, []);
    assert s[0] == 0xC0 && s[1..] == Uleb.Spelled(n) + Uleb.Spelled(skip) + [];
    SeriesIs(st, n.v, skip.v + 8);
  }

  lemma NoExtent(s: Bytes)
    ensures |s| == 0 ==> Uleb.Extent(s) == 0
  {}

  lemma NumAlone(n: Uleb.Num)
    requires NumOk(n)
    ensures Uleb.Extent(Uleb.Spelled(n)) == n.width > 0 && B.Operand(Uleb.Spelled(n)) == n.v
  {
    UlebLen(n, []);
    assert Uleb.Spelled(n) + [] == Uleb.Spelled(n);
  }

  lemma BindsCons(head: Bytes, tail: Bytes, st: B.State)
    requires |head| > 0 && B.OpLen(head + tail) == |head|
    ensures var o := B.Effect(head, st);
      B.Binds(head + tail, st) == o.binds + if o.more then B.Binds(tail, o.next) else []
  {
    hide B.OpLen, B.Effect;
    var s := head + tail;
    assert s[..|head|] == head && s[|head|..] == tail;
  }

  /** dyld performs an assembled program's binds, in order, up to its first Done. */
  lemma {:induction false} BindsAssembled(ops: seq<Op>, st: B.State)
    requires AllOk(ops) && st.off < Uleb.TWO64
    ensures B.Binds(Assembled(ops), st) == Runs(ops, st)
    decreases |ops|
  {
    hide B.OpLen, B.Effect, Code, OpOk, Does;
    if |ops| > 0 {
      hide B.Binds;
      assert AllOk(ops[1..]);
      CutAt(ops[0], Assembled(ops[1..]));
      EffectOf(ops[0], st);
      BindsCons(Code(ops[0]), Assembled(ops[1..]), st);
      DoneBinds(ops[0], st);
      if !ops[0].Done? { BindsAssembled(ops[1..], Does(ops[0], st).next); }
    }
  }

  lemma DoneBinds(op: Op, st: B.State)
    ensures op.Done? ==> Does(op, st).binds == []
  {}

  /** Lazy binding may enter before any operation: that is where the renumbering starts one. */
  lemma {:induction false} StartsAssembled(ops: seq<Op>, k: nat)
    requires AllOk(ops) && k <= |ops|
    ensures AllOk(ops[..k]) && AllOk(ops[k..])
    ensures Assembled(ops) == Assembled(ops[..k]) + Assembled(ops[k..])
    ensures B.StartsAt(Assembled(ops), |Assembled(ops[..k])|)
    decreases k
  {
    hide B.OpLen, Code, OpOk;
    if k == 0 {
      assert ops[..0] == [] && ops[0..] == ops;
    } else {
      var tail, head := ops[1..], Code(ops[0]);
      assert AllOk(tail);
      StartsAssembled(tail, k - 1);
      CutAt(ops[0], Assembled(tail));
      assert tail[..k - 1] == ops[..k][1..] && tail[k - 1..] == ops[k..];
      assert head + (Assembled(tail[..k - 1]) + Assembled(ops[k..])) == Assembled(ops[..k]) + Assembled(ops[k..]);
      assert (head + Assembled(tail))[|head|..] == Assembled(tail);
    }
  }
}
