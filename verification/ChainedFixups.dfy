/**
 * patch_macho: walking chained fixups, rewriting each pointer and emitting classic rebase and
 * bind opcodes; and why dyld, reading those, does to the image what the chains ask for.
 */
module ChainedFixups {
  import opened ByteStrings
  import opened Words
  import Uleb
  import B = BindOpcodes

  const PTR := 8

  datatype Format = Ptr64 | Ptr64Offset | Other

  /** Where the chains of a segment start: page size, and the first fixup of each page or none. */
  const NO_FIXUP := 0xFFFF

  datatype Starts = NoStarts | Starts(format: Format, pageSize: nat, pages: seq<nat>)

  datatype Segment = Segment(fileoff: nat, starts: Starts)

  /** imports: the 32-bit entries; pool: the symbol strings; base: vmaddr of __TEXT. */
  datatype Layout = Layout(segs: seq<Segment>, base: nat, imports: seq<nat>, pool: Bytes)

  predicate Valid(l: Layout) { |l.segs| <= 32 }

  // ------------------------------------------------------- reading a chain

  /** One pointer of a chain: where it is and what it held. */
  datatype Fixup = Fixup(seg: nat, off: nat, pos: nat, raw: nat, format: Format)

  predicate IsBind(raw: nat) { (raw / 0x8000_0000_0000_0000) % 2 == 1 }

  function Next(raw: nat): nat { (raw / 0x8_0000_0000_0000) % 0x1000 * 4 }

  function ImportOf(raw: nat): nat { raw % 0x100_0000 }

  /** A bind whose import does not exist: the walk reports it, leaves it and stops. */
  predicate Broken(l: Layout, raw: nat) { IsBind(raw) && ImportOf(raw) >= |l.imports| }

  predicate Bound(l: Layout, f: Fixup) { IsBind(f.raw) && ImportOf(f.raw) < |l.imports| }

  /** The chain from offset off of a segment, up to its end or a broken link. */
  function Chain(b: Bytes, l: Layout, si: nat, fmt: Format, off: nat): (fs: seq<Fixup>)
    requires si < |l.segs|
    ensures forall f :: f in fs ==> f.seg == si && f.pos == l.segs[si].fileoff + f.off && f.pos + PTR <= |b|
    decreases |b| - off
  {
    var pos := l.segs[si].fileoff + off;
    if pos + PTR > |b| || fmt.Other? then []
    else
      var raw := Word(b, pos, PTR);
      [Fixup(si, off, pos, raw, fmt)]
      + if Broken(l, raw) || Next(raw) == 0 then [] else Chain(b, l, si, fmt, off + Next(raw))
  }

  function PagesFrom(b: Bytes, l: Layout, si: nat, pg: nat): seq<Fixup>
    requires si < |l.segs| && l.segs[si].starts.Starts?
    decreases |l.segs[si].starts.pages| - pg
  {
    var s := l.segs[si].starts;
    if pg >= |s.pages| then []
    else (if s.pages[pg] == NO_FIXUP then [] else Chain(b, l, si, s.format, pg * s.pageSize + s.pages[pg]))
         + PagesFrom(b, l, si, pg + 1)
  }

  function SegmentsFrom(b: Bytes, l: Layout, si: nat): seq<Fixup>
    decreases |l.segs| - si
  {
    if si >= |l.segs| then []
    else (if l.segs[si].starts.NoStarts? then [] else PagesFrom(b, l, si, 0)) + SegmentsFrom(b, l, si + 1)
  }

  /** Every fixup of the image, in the order they are met. */
  function AllFixups(b: Bytes, l: Layout): seq<Fixup> { SegmentsFrom(b, l, 0) }

  /** No two pointers overlap. */
  ghost predicate Spread(fs: seq<Fixup>) {
    forall i, j :: 0 <= i < j < |fs| ==> fs[i].pos + PTR <= fs[j].pos || fs[j].pos + PTR <= fs[i].pos
  }

  ghost predicate Inside(b: Bytes, l: Layout, fs: seq<Fixup>) {
    forall i :: 0 <= i < |fs| ==> Within(|b|, l, fs[i])
  }

  ghost predicate Within(size: nat, l: Layout, f: Fixup) {
    f.pos + PTR <= size && f.seg < |l.segs| && f.pos == l.segs[f.seg].fileoff + f.off
  }

  // -------------------------------------------------- what the tool writes

  const SET_TYPE := 0x51
  const REBASE_TYPE := 0x11
  const WEAK_IMPORT := 1

  /** A segment index or-ed into an opcode byte. */
  function OrSegment(op: Byte, si: nat): Byte
    requires si < 32 && op % 16 == 0 && op < 0x80
  {
    if si < 16 || (op / 16) % 2 == 0 then op + si else op + si - 16
  }

  function UlebBytes(v: nat): Bytes { Uleb.Encode(v, Uleb.MinLen(v)) }

  function LibOrdinal(bits: nat): (o: int)
    ensures -128 <= o <= 127
  {
    var o := bits % 0x100;
    if o > 127 then o - 0x100 else o
  }

  /** -3, weak lookup, becomes flat lookup with the weak-import flag. */
  function EffectiveOrdinal(bits: nat): (o: int)
    ensures -128 <= o <= 127
  {
    if LibOrdinal(bits) == -3 then -2 else LibOrdinal(bits)
  }

  function EffectiveFlags(bits: nat): nat {
    if LibOrdinal(bits) == -3 || (bits / 0x100) % 2 == 1 then WEAK_IMPORT else 0
  }

  /** The C string at off. */
  function CString(pool: Bytes, off: nat): (s: Bytes)
    ensures 0 !in s
    decreases |pool| - off
  {
    if off >= |pool| || pool[off] == 0 then [] else [pool[off]] + CString(pool, off + 1)
  }

  function SymbolOf(l: Layout, bits: nat): Bytes { CString(l.pool, bits / 0x200) }

  function OrdinalOp(o: int): Bytes
    requires -128 <= o <= 127
  {
    if o < 0 then [0x30 + o % 16] else if o < 16 then [0x10 + o] else [0x20] + UlebBytes(o)
  }

  function SymbolOp(l: Layout, bits: nat): Bytes { [0x40 + EffectiveFlags(bits)] + SymbolOf(l, bits) + [0] }

  function BindOp(l: Layout, f: Fixup): Bytes
    requires ImportOf(f.raw) < |l.imports| && f.seg < 32
  {
    var bits := l.imports[ImportOf(f.raw)];
    OrdinalOp(EffectiveOrdinal(bits)) + SymbolOp(l, bits) + ([OrSegment(0x70, f.seg)] + UlebBytes(f.off)) + [0x90]
  }

  function RebaseOp(f: Fixup): Bytes
    requires f.seg < 32
  {
    [OrSegment(0x20, f.seg)] + UlebBytes(f.off) + [0x51]
  }

  predicate LowSegments(fs: seq<Fixup>) { forall i :: 0 <= i < |fs| ==> fs[i].seg < 32 }


  function BindOps(l: Layout, fs: seq<Fixup>): Bytes
    requires LowSegments(fs)
    decreases |fs|
  {
    if |fs| == 0 then [] else (if Bound(l, fs[0]) then BindOp(l, fs[0]) else []) + BindOps(l, fs[1..])
  }

  function RebaseOps(l: Layout, fs: seq<Fixup>): Bytes
    requires LowSegments(fs)
    decreases |fs|
  {
    if |fs| == 0 then [] else (if IsBind(fs[0].raw) then [] else RebaseOp(fs[0])) + RebaseOps(l, fs[1..])
  }

  /** What the pointer is overwritten with. */
  function NewWord(l: Layout, f: Fixup): nat {
    if IsBind(f.raw) then if Bound(l, f) then 0 else f.raw
    else if f.format.Ptr64? then f.raw % 0x800_0000_0000 + (f.raw / 0x800_0000_0000) % 0x100 * 0x100_0000_0000_0000
    else (f.raw % 0x10_0000_0000 + l.base) % TWO64
  }

  function Rewrite(b: Bytes, l: Layout, fs: seq<Fixup>): (r: Bytes)
    requires Inside(b, l, fs)
    ensures |r| == |b|
    decreases |fs|
  {
    if |fs| == 0 then b else Rewrite(Put(b, fs[0].pos, PTR, NewWord(l, fs[0])), l, fs[1..])
  }

  // ------------------------------------------------------------ appending

  lemma {:induction false} OpsAppend(l: Layout, fs: seq<Fixup>, f: Fixup)
    requires f.seg < 32 && LowSegments(fs)
    ensures LowSegments(fs + [f])
    ensures BindOps(l, fs + [f]) == BindOps(l, fs) + if Bound(l, f) then BindOp(l, f) else []
    ensures RebaseOps(l, fs + [f]) == RebaseOps(l, fs) + if IsBind(f.raw) then [] else RebaseOp(f)
  {
    hide BindOp, RebaseOp, IsBind, Bound;
    if |fs| == 0 {
      assert (fs + [f])[1..] == [];
    } else {
      assert (fs + [f])[1..] == fs[1..] + [f];
      OpsAppend(l, fs[1..], f);
    }
  }

  lemma {:induction false} RewriteAppend(b: Bytes, l: Layout, fs: seq<Fixup>, f: Fixup)
    requires Inside(b, l, fs) && Within(|b|, l, f)
    ensures Inside(b, l, fs + [f])
    ensures Rewrite(b, l, fs + [f]) == Put(Rewrite(b, l, fs), f.pos, PTR, NewWord(l, f))
    decreases |fs|
  {
    hide NewWord;
    WithinAppend(b, l, fs, f);
    if |fs| == 0 {
      assert (fs + [f])[1..] == [];
    } else {
      assert (fs + [f])[1..] == fs[1..] + [f];
      RewriteAppend(Put(b, fs[0].pos, PTR, NewWord(l, fs[0])), l, fs[1..], f);
    }
  }

  lemma WithinAppend(b: Bytes, l: Layout, fs: seq<Fixup>, f: Fixup)
    requires Inside(b, l, fs) && Within(|b|, l, f)
    ensures Inside(b, l, fs + [f])
  {
    hide Within;
  }

  lemma {:induction false} RewriteElsewhere(b: Bytes, l: Layout, fs: seq<Fixup>, p: nat)
    requires Inside(b, l, fs) && p + PTR <= |b|
    requires forall i :: 0 <= i < |fs| ==> p + PTR <= fs[i].pos || fs[i].pos + PTR <= p
    ensures Word(Rewrite(b, l, fs), p, PTR) == Word(b, p, PTR)
    decreases |fs|
  {
    hide NewWord, Word;
    if |fs| > 0 {
      WordApart(b, fs[0].pos, PTR, NewWord(l, fs[0]), p, PTR);
      RewriteElsewhere(Put(b, fs[0].pos, PTR, NewWord(l, fs[0])), l, fs[1..], p);
    }
  }

  // -------------------------------------------------------------- the tool

  class Converter {
    const buf: array<Byte>
    var rebase: Bytes
    var bind: Bytes

    constructor (buf: array<Byte>)
      ensures this.buf == buf && rebase == [] && bind == []
    {
      this.buf, rebase, bind := buf, [], [];
    }

    /** Exactly the fixups fs have been converted, in this order. */
    ghost predicate Done(orig: Bytes, l: Layout, fs: seq<Fixup>)
      reads this, buf
    {
      && Inside(orig, l, fs) && LowSegments(fs)
      && buf[..] == Rewrite(orig, l, fs)
      && rebase == [REBASE_TYPE] + RebaseOps(l, fs) && bind == [SET_TYPE] + BindOps(l, fs)
    }

    method EmitBind(l: Layout, f: Fixup)
      requires f.seg < 32 && Bound(l, f)
      modifies this`bind
      ensures bind == old(bind) + BindOp(l, f)
    {
      hide EffectiveOrdinal, EffectiveFlags, OrdinalOp, SymbolOp, ImportOf, OrSegment;
      var bits := l.imports[ImportOf(f.raw)];
      bind := bind + OrdinalOp(EffectiveOrdinal(bits));
      bind := bind + SymbolOp(l, bits);
      var at := Minimal(f.off);
      bind := bind + ([OrSegment(0x70, f.seg)] + at);
      bind := bind + [0x90];
    }

    method EmitRebase(f: Fixup)
      requires f.seg < 32
      modifies this`rebase
      ensures rebase == old(rebase) + RebaseOp(f)
    {
      var at := Minimal(f.off);
      rebase := rebase + ([OrSegment(0x20, f.seg)] + at + [0x51]);
    }

    method Convert(l: Layout, f: Fixup, ghost orig: Bytes, ghost fs: seq<Fixup>)
      requires Done(orig, l, fs) && Within(|orig|, l, f) && f.seg < 32 && buf.Length == |orig|
      requires !Broken(l, f.raw)
      modifies this`rebase, this`bind, buf
      ensures Done(orig, l, fs + [f])
    {
      hide BindOp, RebaseOp, BindOps, RebaseOps, NewWord, Rewrite, Word;
      OpsAppend(l, fs, f);
      RewriteAppend(orig, l, fs, f);
      if IsBind(f.raw) { EmitBind(l, f); } else { EmitRebase(f); }
      Store(buf, f.pos, PTR, NewWord(l, f));
    }

    /** The walk of one chain. ok is false on an unknown pointer format. */
    method WalkChain(l: Layout, si: nat, fmt: Format, start: nat, ghost orig: Bytes, ghost fs: seq<Fixup>)
      returns (ok: bool)
      requires Valid(l) && si < |l.segs| && buf.Length == |orig| && Done(orig, l, fs)
      requires Spread(fs + Chain(orig, l, si, fmt, start))
      modifies this`rebase, this`bind, buf
      ensures ok ==> Done(orig, l, fs + Chain(orig, l, si, fmt, start))
      ensures !fmt.Other? ==> ok
    {
      hide Done, Chain, Word, Broken, Next, Within, Spread;
      var off := start;
      ghost var done, rest := fs, Chain(orig, l, si, fmt, start);
      while true
        invariant Done(orig, l, done) && done + rest == fs + Chain(orig, l, si, fmt, start)
        invariant rest == Chain(orig, l, si, fmt, off)
        decreases buf.Length - off
      {
        var pos := l.segs[si].fileoff + off;
        ChainStep(orig, l, si, fmt, off);
        if pos + PTR > buf.Length { break; }
        if fmt.Other? { return false; }
        DoneReads(l, orig, done, rest);
        var raw := Load(buf, pos, PTR);
        assert raw == Word(orig, pos, PTR);
        ghost var f := Fixup(si, off, pos, raw, fmt);
        assert done + rest == done + [f] + rest[1..];
        if Broken(l, raw) {
          LeaveBroken(l, f, orig, done);
          done, rest := done + [f], rest[1..];
          break;
        }
        Convert(l, Fixup(si, off, pos, raw, fmt), orig, done);
        done, rest := done + [f], rest[1..];
        if Next(raw) == 0 { break; }
        off := off + Next(raw);
      }
      assert rest == [] && done + [] == done;
      ok := true;
    }

    /** The pages of one segment. */
    method WalkPages(l: Layout, si: nat, ghost orig: Bytes, ghost fs: seq<Fixup>) returns (ok: bool)
      requires Valid(l) && si < |l.segs| && l.segs[si].starts.Starts? && buf.Length == |orig|
      requires Done(orig, l, fs) && Spread(fs + PagesFrom(orig, l, si, 0))
      modifies this`rebase, this`bind, buf
      ensures ok ==> Done(orig, l, fs + PagesFrom(orig, l, si, 0))
      ensures !l.segs[si].starts.format.Other? ==> ok
    {
      hide Done, Chain, PagesFrom, Spread;
      var s := l.segs[si].starts;
      var pg := 0;
      ghost var done, all := fs, fs + PagesFrom(orig, l, si, 0);
      while pg < |s.pages|
        invariant 0 <= pg <= |s.pages|
        invariant Done(orig, l, done) && done + PagesFrom(orig, l, si, pg) == all
      {
        PagesStep(orig, l, si, pg);
        if s.pages[pg] != NO_FIXUP {
          var start := pg * s.pageSize + s.pages[pg];
          ghost var c, rest := Chain(orig, l, si, s.format, start), PagesFrom(orig, l, si, pg + 1);
          assert done + (c + rest) == done + c + rest;
          SpreadPrefix(done + c, rest);
          ok := WalkChain(l, si, s.format, start, orig, done);
          if !ok { return; }
          done := done + c;
        }
        pg := pg + 1;
      }
      PagesStep(orig, l, si, pg);
      assert done + [] == done;
      ok := true;
    }

    /** Every segment, and the closing opcodes. */
    method Run(l: Layout) returns (ok: bool)
      requires Valid(l) && rebase == [] && bind == [] && Spread(AllFixups(buf[..], l))
      modifies this`rebase, this`bind, buf
      ensures var fs := AllFixups(old(buf[..]), l);
        ok ==>
          && Inside(old(buf[..]), l, fs) && LowSegments(fs)
          && buf[..] == Rewrite(old(buf[..]), l, fs)
          && rebase == RebaseStream(l, fs) && bind == BindStream(l, fs)
      ensures (forall s :: s in l.segs && s.starts.Starts? ==> !s.starts.format.Other?) ==> ok
    {
      hide Chain, PagesFrom, SegmentsFrom, Spread;
      ghost var orig := buf[..];
      rebase, bind := [REBASE_TYPE], [SET_TYPE];
      DoneNothing(orig, l);
      assert Done(orig, l, []);
      hide Done;
      var si := 0;
      ghost var done, all := [], AllFixups(orig, l);
      assert done + all == all;
      while si < |l.segs|
        invariant 0 <= si <= |l.segs|
        invariant Done(orig, l, done) && done + SegmentsFrom(orig, l, si) == all
      {
        SegmentsStep(orig, l, si);
        if l.segs[si].starts.Starts? {
          ghost var c, rest := PagesFrom(orig, l, si, 0), SegmentsFrom(orig, l, si + 1);
          assert done + (c + rest) == done + c + rest;
          SpreadPrefix(done + c, rest);
          ok := WalkPages(l, si, orig, done);
          if !ok { return; }
          done := done + c;
        }
        si := si + 1;
      }
      SegmentsStep(orig, l, si);
      assert done + [] == done;
      WhatIsDone(orig, l, done);
      rebase, bind := rebase + [0], bind + [0];
      ok := true;
    }

    lemma WhatIsDone(orig: Bytes, l: Layout, fs: seq<Fixup>)
      requires Done(orig, l, fs)
      ensures Inside(orig, l, fs) && LowSegments(fs) && buf[..] == Rewrite(orig, l, fs)
      ensures rebase + [0] == RebaseStream(l, fs) && bind + [0] == BindStream(l, fs)
    {
      hide BindOps, RebaseOps, Rewrite;
    }

    /** A word of a link not yet converted still is what it was. */
    lemma DoneReads(l: Layout, orig: Bytes, done: seq<Fixup>, rest: seq<Fixup>)
      requires Done(orig, l, done) && Spread(done + rest) && |rest| > 0 && rest[0].pos + PTR <= |orig|
      ensures |buf[..]| == |orig| && Word(buf[..], rest[0].pos, PTR) == Word(orig, rest[0].pos, PTR)
    {
      var all := done + rest;
      assert all[|done|] == rest[0];
      forall i | 0 <= i < |done|
        ensures rest[0].pos + PTR <= done[i].pos || done[i].pos + PTR <= rest[0].pos
      {
        assert all[i] == done[i];
      }
      RewriteElsewhere(orig, l, done, rest[0].pos);
    }

    lemma LeaveBroken(l: Layout, f: Fixup, orig: Bytes, fs: seq<Fixup>)
      requires Done(orig, l, fs) && Within(|orig|, l, f) && f.seg < 32 && buf.Length == |orig|
      requires Word(buf[..], f.pos, PTR) == f.raw && Broken(l, f.raw)
      ensures Done(orig, l, fs + [f])
    {
      hide BindOp, RebaseOp, BindOps, RebaseOps, NewWord, Rewrite, Word;
      OpsAppend(l, fs, f);
      RewriteAppend(orig, l, fs, f);
      BrokenKept(buf[..], l, f);
    }
  }

  lemma BrokenKept(b: Bytes, l: Layout, f: Fixup)
    requires f.pos + PTR <= |b| && Word(b, f.pos, PTR) == f.raw && Broken(l, f.raw)
    ensures Put(b, f.pos, PTR, NewWord(l, f)) == b
  {
    PutSame(b, f.pos, PTR);
  }

  /** ob_uleb. */
  method Minimal(v: nat) returns (g: Bytes)
    ensures g == UlebBytes(v)
  {
    g := [];
    var w := v;
    while w >= 0x80
      invariant g + UlebBytes(w) == UlebBytes(v)
    {
      assert UlebBytes(w) == [0x80 + w % 0x80] + UlebBytes(w / 0x80);
      assert g + UlebBytes(w) == g + [0x80 + w % 0x80] + UlebBytes(w / 0x80);
      g, w := g + [0x80 + w % 0x80], w / 0x80;
    }
    g := g + [w];
  }

  /** The chain from off, one step unfolded. */
  lemma ChainStep(b: Bytes, l: Layout, si: nat, fmt: Format, off: nat)
    requires Valid(l) && si < |l.segs|
    ensures var pos, c := l.segs[si].fileoff + off, Chain(b, l, si, fmt, off);
      if pos + PTR > |b| || fmt.Other? then c == []
      else
        var raw := Word(b, pos, PTR);
        var f := Fixup(si, off, pos, raw, fmt);
        && |c| > 0 && c[0] == f && Within(|b|, l, f) && f.seg < 32
        && c[1..] == if Broken(l, raw) || Next(raw) == 0 then [] else Chain(b, l, si, fmt, off + Next(raw))
  {
    hide Word, Broken, Next;
  }

  function RebaseStream(l: Layout, fs: seq<Fixup>): Bytes
    requires LowSegments(fs)
  {
    [REBASE_TYPE] + RebaseOps(l, fs) + [0]
  }

  function BindStream(l: Layout, fs: seq<Fixup>): Bytes
    requires LowSegments(fs)
  {
    [SET_TYPE] + BindOps(l, fs) + [0]
  }

  lemma DoneNothing(orig: Bytes, l: Layout)
    ensures Inside(orig, l, []) && LowSegments([]) && Rewrite(orig, l, []) == orig
    ensures RebaseOps(l, []) == [] && BindOps(l, []) == []
  {}

  lemma SpreadPrefix(a: seq<Fixup>, b: seq<Fixup>)
    requires Spread(a + b)
    ensures Spread(a)
  {
    forall i, j | 0 <= i < j < |a|
      ensures a[i].pos + PTR <= a[j].pos || a[j].pos + PTR <= a[i].pos
    {
      assert (a + b)[i] == a[i] && (a + b)[j] == a[j];
    }
  }

  lemma PagesStep(b: Bytes, l: Layout, si: nat, pg: nat)
    requires si < |l.segs| && l.segs[si].starts.Starts?
    ensures var s, r := l.segs[si].starts, PagesFrom(b, l, si, pg);
      if pg >= |s.pages| then r == []
      else if s.pages[pg] == NO_FIXUP then r == PagesFrom(b, l, si, pg + 1)
      else r == Chain(b, l, si, s.format, pg * s.pageSize + s.pages[pg]) + PagesFrom(b, l, si, pg + 1)
  {
    hide Chain;
  }

  lemma SegmentsStep(b: Bytes, l: Layout, si: nat)
    ensures var r := SegmentsFrom(b, l, si);
      if si >= |l.segs| then r == []
      else if l.segs[si].starts.NoStarts? then r == SegmentsFrom(b, l, si + 1)
      else r == PagesFrom(b, l, si, 0) + SegmentsFrom(b, l, si + 1)
  {
    hide PagesFrom;
  }

  // --------------------------------------------------- what the chains mean

  /** Layout of a rebase word: target in bits 0..35, high8 in 36..43, reserved to 50. */
  function Target(l: Layout, f: Fixup): nat {
    var t := f.raw % 0x10_0000_0000;
    var high8 := (f.raw / 0x10_0000_0000) % 0x100;
    ((if f.format.Ptr64? then t else t + l.base) + high8 * 0x100_0000_0000_0000) % TWO64
  }

  /** No high8, nor for full addresses any reserved bit. */
  predicate PlainRebase(f: Fixup) {
    var high := f.raw / 0x10_0000_0000;
    if f.format.Ptr64? then high % 0x8000 == 0 else high % 0x100 == 0
  }

  lemma SplitHigh(low: nat, h: nat)
    requires low < 0x10_0000_0000
    ensures low + 0x10_0000_0000 * (h % 0x80) + (h / 0x80) % 0x100 * 0x100_0000_0000_0000
              == low + h % 0x100 * 0x100_0000_0000_0000
            <==> h % 0x80 == 0 && (h / 0x80) % 0x100 == h % 0x100
  {}

  lemma HighZero(h: nat)
    ensures h % 0x80 == 0 && (h / 0x80) % 0x100 == h % 0x100 <==> h % 0x8000 == 0
  {
    var k := h / 0x80;
    assert h == 0x80 * k + h % 0x80;
    if h % 0x80 == 0 {
      assert h % 0x100 == 0x80 * (k % 2);
      assert h % 0x8000 == 0x80 * (k % 0x100);
    }
  }

  lemma WrapKept(x: nat, h: nat)
    requires h < 0x100
    ensures (x + h * 0x100_0000_0000_0000) % TWO64 == x % TWO64 <==> h == 0
  {}

  lemma FullAddress(l: Layout, f: Fixup)
    requires !IsBind(f.raw) && f.format.Ptr64?
    ensures var low, h := f.raw % 0x10_0000_0000, f.raw / 0x10_0000_0000;
      && NewWord(l, f) == low + 0x10_0000_0000 * (h % 0x80) + (h / 0x80) % 0x100 * 0x100_0000_0000_0000
      && Target(l, f) == low + h % 0x100 * 0x100_0000_0000_0000
  {
    hide IsBind;
    SplitRaw(f.raw);
    assert f.raw % 0x10_0000_0000 + (f.raw / 0x10_0000_0000) % 0x100 * 0x100_0000_0000_0000 < TWO64;
  }

  lemma OffsetAddress(l: Layout, f: Fixup)
    requires !IsBind(f.raw) && f.format.Ptr64Offset?
    ensures NewWord(l, f) == Target(l, f) <==> PlainRebase(f)
  {
    hide IsBind;
    WrapKept(f.raw % 0x10_0000_0000 + l.base, (f.raw / 0x10_0000_0000) % 0x100);
  }

  /** The pointer is given the address the format says exactly when its word is plain. */
  lemma PlainTarget(l: Layout, f: Fixup)
    requires !IsBind(f.raw) && !f.format.Other?
    ensures NewWord(l, f) == Target(l, f) <==> PlainRebase(f)
  {
    hide NewWord, Target, IsBind;
    if f.format.Ptr64? {
      FullAddress(l, f);
      SplitHigh(f.raw % 0x10_0000_0000, f.raw / 0x10_0000_0000);
      HighZero(f.raw / 0x10_0000_0000);
    } else {
      OffsetAddress(l, f);
    }
  }

  /** A full address with high8 = 1 and nothing else: 2^36 is written for 2^56. */
  lemma HighByteMisplaced(l: Layout, f: Fixup)
    requires f.raw == 0x10_0000_0000 && f.format.Ptr64?
    ensures !IsBind(f.raw) && NewWord(l, f) == 0x10_0000_0000 && Target(l, f) == 0x100_0000_0000_0000
  {}

  /** The same word as an offset from the base loses its high byte. */
  lemma HighByteDropped(l: Layout, f: Fixup)
    requires f.raw == 0x10_0000_0000 && f.format.Ptr64Offset? && l.base < 0x100_0000_0000_0000
    ensures !IsBind(f.raw) && NewWord(l, f) == l.base && Target(l, f) == l.base + 0x100_0000_0000_0000
  {}

  lemma SplitRaw(raw: nat)
    ensures var low, h := raw % 0x10_0000_0000, raw / 0x10_0000_0000;
      raw % 0x800_0000_0000 == low + 0x10_0000_0000 * (h % 0x80) && raw / 0x800_0000_0000 == h / 0x80
  {}

  /** dyld's slide applied to the pointers at ps. */
  function Slid(b: Bytes, ps: seq<nat>, slide: nat): (r: Bytes)
    requires InFile(b, ps, PTR)
    ensures |r| == |b|
  {
    AddAll(b, ps, PTR, TWO64, slide)
  }

  /** Walking the chains directly with a slide; binds are left zero for dyld to fill in. */
  function Direct(b: Bytes, l: Layout, fs: seq<Fixup>, slide: nat): (r: Bytes)
    requires Inside(b, l, fs)
    ensures |r| == |b|
    decreases |fs|
  {
    if |fs| == 0 then b
    else
      var v := if IsBind(fs[0].raw) then 0 else (Target(l, fs[0]) + slide) % TWO64;
      Direct(Put(b, fs[0].pos, PTR, v), l, fs[1..], slide)
  }

  function RebasePos(fs: seq<Fixup>): seq<nat>
    decreases |fs|
  {
    if |fs| == 0 then [] else (if IsBind(fs[0].raw) then [] else [fs[0].pos]) + RebasePos(fs[1..])
  }

  lemma {:induction false} RebasePosInside(b: Bytes, l: Layout, fs: seq<Fixup>)
    requires Inside(b, l, fs)
    ensures InFile(b, RebasePos(fs), PTR)
    decreases |fs|
  {
    if |fs| > 0 { RebasePosInside(b, l, fs[1..]); }
  }

  ghost predicate Plain(l: Layout, fs: seq<Fixup>) {
    forall i :: 0 <= i < |fs| ==>
      && !fs[i].format.Other? && !Broken(l, fs[i].raw)
      && (!IsBind(fs[i].raw) ==> PlainRebase(fs[i]))
  }

  ghost predicate ApartFrom(p: nat, fs: seq<Fixup>) {
    forall i :: 0 <= i < |fs| ==> p + PTR <= fs[i].pos || fs[i].pos + PTR <= p
  }

  /** A word no later fixup touches may be written before or after them. */
  lemma {:induction false} PutPastRewrite(b: Bytes, l: Layout, fs: seq<Fixup>, p: nat, v: nat)
    requires Inside(b, l, fs) && p + PTR <= |b| && ApartFrom(p, fs)
    ensures Put(Rewrite(b, l, fs), p, PTR, v) == Rewrite(Put(b, p, PTR, v), l, fs)
    decreases |fs|
  {
    hide NewWord, Put;
    if |fs| > 0 {
      var q, w := fs[0].pos, NewWord(l, fs[0]);
      PutCommutes(b, p, PTR, v, q, PTR, w);
      PutPastRewrite(Put(b, q, PTR, w), l, fs[1..], p, v);
    }
  }

  lemma SpreadHead(fs: seq<Fixup>)
    requires Spread(fs) && |fs| > 0
    ensures ApartFrom(fs[0].pos, fs[1..]) && Spread(fs[1..])
  {}

  lemma InsideSame(b: Bytes, c: Bytes, l: Layout, fs: seq<Fixup>)
    requires Inside(b, l, fs) && |c| == |b|
    ensures Inside(c, l, fs)
  {}

  lemma InsideHead(b: Bytes, l: Layout, fs: seq<Fixup>)
    requires Inside(b, l, fs) && |fs| > 0
    ensures fs[0].pos + PTR <= |b| && Inside(b, l, fs[1..])
  {}

  lemma Unfold(b: Bytes, l: Layout, fs: seq<Fixup>, slide: nat)
    requires |fs| > 0 && fs[0].pos + PTR <= |b| && Inside(b, l, fs)
    ensures var f, rest := fs[0], fs[1..];
      var b1 := Put(b, f.pos, PTR, NewWord(l, f));
      var w := if IsBind(f.raw) then 0 else (Target(l, f) + slide) % TWO64;
      && Inside(b1, l, rest) && Rewrite(b, l, fs) == Rewrite(b1, l, rest)
      && Direct(b, l, fs, slide) == Direct(Put(b, f.pos, PTR, w), l, rest, slide)
      && (if IsBind(f.raw) then RebasePos(fs) == RebasePos(rest)
          else |RebasePos(fs)| > 0 && RebasePos(fs)[0] == f.pos && RebasePos(fs)[1..] == RebasePos(rest))
  {
    hide NewWord, Target, IsBind, Put;
  }

  lemma SlidUnfold(b: Bytes, ps: seq<nat>, slide: nat)
    requires |ps| > 0 && InFile(b, ps, PTR)
    ensures Slid(b, ps, slide) == Slid(Put(b, ps[0], PTR, (Word(b, ps[0], PTR) + slide) % TWO64), ps[1..], slide)
  {
    hide Put, Word;
  }

  /** Sliding the rewritten pointers is walking the chains with that slide. */
  lemma {:induction false} SlidIsDirect(b: Bytes, l: Layout, fs: seq<Fixup>, slide: nat)
    requires Inside(b, l, fs) && Spread(fs) && Plain(l, fs)
    ensures InFile(b, RebasePos(fs), PTR)
    ensures Slid(Rewrite(b, l, fs), RebasePos(fs), slide) == Direct(b, l, fs, slide)
    decreases |fs|
  {
    RebasePosInside(b, l, fs);
    if |fs| == 0 {
      assert RebasePos(fs) == [] && Rewrite(b, l, fs) == b && Direct(b, l, fs, slide) == b;
    } else {
      hide NewWord, Target, IsBind, PlainRebase, Broken, Word, Slid, Rewrite, Direct, RebasePos, Inside;
      SpreadHead(fs);
      InsideHead(b, l, fs);
      Unfold(b, l, fs, slide);
      NewWordOf(l, fs[0]);
      if IsBind(fs[0].raw) {
        SlidIsDirect(Put(b, fs[0].pos, PTR, 0), l, fs[1..], slide);
      } else {
        SlidStep(b, l, fs, slide);
      }
    }
  }

  lemma SlidStep(b: Bytes, l: Layout, fs: seq<Fixup>, slide: nat)
    requires Inside(b, l, fs) && Spread(fs) && Plain(l, fs) && |fs| > 0
    requires InFile(b, RebasePos(fs), PTR)
    requires ApartFrom(fs[0].pos, fs[1..]) && Spread(fs[1..]) && !IsBind(fs[0].raw) && Inside(b, l, fs[1..])
    ensures Slid(Rewrite(b, l, fs), RebasePos(fs), slide) == Direct(b, l, fs, slide)
    decreases |fs|, 0
  {
    hide NewWord, Target, IsBind, PlainRebase, Broken, Word, Slid, Rewrite, Direct, RebasePos, Power256, Inside;
    var f, rest := fs[0], fs[1..];
    InsideHead(b, l, fs);
    var p, v := f.pos, NewWord(l, f);
    var b1 := Put(b, p, PTR, v);
    NewWordOf(l, f);
    Unfold(b, l, fs, slide);
    var w := (v + slide) % TWO64;
    WordAfter(b, b1, l, rest, p, v);
    SlidUnfold(Rewrite(b1, l, rest), RebasePos(fs), slide);
    PutPastRewrite(b1, l, rest, p, w);
    PutTwice(b, p, PTR, v, w);
    InsideSame(b, Put(b, p, PTR, w), l, rest);
    SlidIsDirect(Put(b, p, PTR, w), l, rest, slide);
  }

  lemma WordAfter(b: Bytes, b1: Bytes, l: Layout, rest: seq<Fixup>, p: nat, v: nat)
    requires p + PTR <= |b| && b1 == Put(b, p, PTR, v) && v < TWO64 && Inside(b1, l, rest) && ApartFrom(p, rest)
    ensures Word(Rewrite(b1, l, rest), p, PTR) == v
  {
    hide Put, Word, Rewrite;
    RewriteElsewhere(b1, l, rest, p);
    PowerValues();
    WordOfPut(b, p, PTR, v);
  }

  lemma NewWordOf(l: Layout, f: Fixup)
    requires !f.format.Other? && !Broken(l, f.raw) && (!IsBind(f.raw) ==> PlainRebase(f))
    ensures NewWord(l, f) == if IsBind(f.raw) then 0 else Target(l, f)
    ensures NewWord(l, f) < TWO64
  {
    if !IsBind(f.raw) { PlainTarget(l, f); }
  }

  // ---------------------------------------------- reading the rebase stream

  function Times(seg: nat, off: nat, count: nat, step: nat): seq<(nat, nat)>
    decreases count
  {
    if count == 0 then [] else [(seg, off % TWO64)] + Times(seg, off + step, count - 1, step)
  }

  function Operand(s: Bytes): nat { B.Operand(s) }

  /**
   * The (segment, offset) pairs dyld slides as pointers, reading opcodes up to DONE; kind is the
   * type last set, and only 1 is a pointer.
   */
  function Rebases(s: Bytes, kind: nat, seg: nat, off: nat): seq<(nat, nat)>
    decreases |s|
  {
    if |s| == 0 then []
    else
      var code, imm, rest := s[0] / 16, s[0] % 16, s[1..];
      var e := Uleb.Extent(rest);
      if code == 1 then Rebases(rest, imm, seg, off)
      else if code == 4 then Rebases(rest, kind, seg, off + imm * PTR)
      else if code == 5 && kind == 1 then Times(seg, off, imm, PTR) + Rebases(rest, kind, seg, off + imm * PTR)
      else if e == 0 then []
      else if code == 2 then Rebases(rest[e..], kind, imm, Operand(rest))
      else if code == 3 then Rebases(rest[e..], kind, seg, off + Operand(rest))
      else if kind != 1 then []
      else if code == 6 then
        Times(seg, off, Operand(rest), PTR) + Rebases(rest[e..], kind, seg, off + Operand(rest) * PTR)
      else if code == 7 then [(seg, off % TWO64)] + Rebases(rest[e..], kind, seg, off + Operand(rest) + PTR)
      else if code == 8 then SkippingRebases(rest, kind, seg, off)
      else []
  }

  function SkippingRebases(s: Bytes, kind: nat, seg: nat, off: nat): seq<(nat, nat)>
    requires Uleb.Extent(s) > 0
    decreases |s|
  {
    var e := Uleb.Extent(s);
    var e2 := Uleb.Extent(s[e..]);
    if e2 == 0 then []
    else
      var step := Operand(s[e..]) + PTR;
      Times(seg, off, Operand(s), step) + Rebases(s[e..][e2..], kind, seg, off + Operand(s) * step)
  }

  function RebaseSpots(fs: seq<Fixup>): seq<(nat, nat)>
    decreases |fs|
  {
    if |fs| == 0 then [] else (if IsBind(fs[0].raw) then [] else [(fs[0].seg, fs[0].off)]) + RebaseSpots(fs[1..])
  }

  /** ULEB operands the tool writes are read back. */
  lemma OperandRead(v: nat, rest: Bytes)
    requires v < TWO64
    ensures var s := UlebBytes(v) + rest;
      Uleb.Extent(s) == |UlebBytes(v)| && Uleb.Extent(s) > 0 && Operand(s) == v && s[Uleb.Extent(s)..] == rest
  {
    Uleb.EncodeRoundTrip(v, Uleb.MinLen(v), rest);
    var g := UlebBytes(v);
    assert (g + rest)[..|g|] == g;
  }

  lemma PlaceRead(seg: nat, off: nat, t: Bytes, seg0: nat, off0: nat)
    requires seg < 16 && off < TWO64
    ensures Rebases([OrSegment(0x20, seg)] + UlebBytes(off) + t, 1, seg0, off0) == Rebases(t, 1, seg, off)
  {
    hide UlebBytes, Uleb.Extent, Operand, Times;
    var s := [OrSegment(0x20, seg)] + UlebBytes(off) + t;
    assert s[0] == 0x20 + seg;
    assert s[1..] == UlebBytes(off) + t;
    OperandRead(off, t);
  }

  lemma ImmTimes(t: Bytes, seg: nat, off: nat)
    requires |t| > 0 && t[0] / 16 == 5
    ensures Rebases(t, 1, seg, off) == Times(seg, off, t[0] % 16, PTR) + Rebases(t[1..], 1, seg, off + t[0] % 16 * PTR)
  {
    hide Uleb.Extent, Operand, Times, SkippingRebases;
  }

  lemma OneTime(rest: Bytes, seg: nat, off: nat)
    requires off < TWO64
    ensures Rebases([0x51] + rest, 1, seg, off) == [(seg, off)] + Rebases(rest, 1, seg, off + PTR)
  {
    hide Rebases;
    var t := [0x51] + rest;
    assert t[0] == 0x51 && t[1..] == rest;
    ImmTimes(t, seg, off);
    assert Times(seg, off, 1, PTR) == [(seg, off)] + Times(seg, off + PTR, 0, PTR);
  }

  lemma RebaseOpRead(f: Fixup, rest: Bytes, seg: nat, off: nat)
    requires f.seg < 16 && f.off < TWO64
    ensures Rebases(RebaseOp(f) + rest, 1, seg, off) == [(f.seg, f.off)] + Rebases(rest, 1, f.seg, f.off + PTR)
  {
    hide UlebBytes, OrSegment, Rebases;
    PlaceRead(f.seg, f.off, [0x51] + rest, seg, off);
    OneTime(rest, f.seg, f.off);
    assert RebaseOp(f) + rest == [OrSegment(0x20, f.seg)] + UlebBytes(f.off) + ([0x51] + rest);
  }

  predicate Addressable(fs: seq<Fixup>) { forall i :: 0 <= i < |fs| ==> fs[i].seg < 16 && fs[i].off < TWO64 }

  lemma {:induction false} RebaseOpsRead(l: Layout, fs: seq<Fixup>, seg: nat, off: nat)
    requires Addressable(fs)
    ensures Rebases(RebaseOps(l, fs) + [0], 1, seg, off) == RebaseSpots(fs)
    decreases |fs|
  {
    hide RebaseOp, IsBind;
    if |fs| == 0 {
      assert Uleb.Extent([0][1..]) == 0;
      assert RebaseOps(l, fs) + [0] == [0];
    } else {
      var f, rest := fs[0], RebaseOps(l, fs[1..]) + [0];
      if IsBind(f.raw) {
        assert RebaseOps(l, fs) + [0] == rest;
        RebaseOpsRead(l, fs[1..], seg, off);
      } else {
        assert RebaseOps(l, fs) + [0] == RebaseOp(f) + rest;
        RebaseOpRead(f, rest, seg, off);
        RebaseOpsRead(l, fs[1..], f.seg, f.off + PTR);
      }
    }
  }

  /** dyld rebases exactly the pointers the chains rebase. */
  lemma RebaseStreamRead(l: Layout, fs: seq<Fixup>)
    requires Addressable(fs)
    ensures Rebases(RebaseStream(l, fs), 0, 0, 0) == RebaseSpots(fs)
  {
    hide RebaseOps, RebaseSpots;
    var s := RebaseStream(l, fs);
    assert s[1..] == RebaseOps(l, fs) + [0];
    RebaseOpsRead(l, fs, 0, 0);
  }

  // ------------------------------------------------ reading the bind stream

  lemma BindsSplit(op: Bytes, rest: Bytes, st: B.State)
    requires |op| > 0 && B.OpLen(op + rest) == |op|
    ensures var o := B.Effect(op, st);
      B.Binds(op + rest, st) == o.binds + if o.more then B.Binds(rest, o.next) else []
  {
    hide B.OpLen, B.Effect;
    assert (op + rest)[..|op|] == op && (op + rest)[|op|..] == rest;
  }

  /** An ordinal operation selects the ordinal it was written for exactly down to -15. */
  lemma OrdinalOpRead(o: int, rest: Bytes, st: B.State)
    requires -128 <= o <= 127
    ensures B.OpLen(OrdinalOp(o) + rest) == |OrdinalOp(o)| > 0
    ensures var e := B.Effect(OrdinalOp(o), st);
      e.binds == [] && e.more && e.next == st.(ordinal := e.next.ordinal) && (e.next.ordinal == o <==> o >= -15)
  {
    if o >= 16 {
      WideOrdinal(o, rest, st);
    } else {
      var op := OrdinalOp(o);
      assert (op + rest)[0] == op[0];
    }
  }

  lemma WideOrdinal(o: nat, rest: Bytes, st: B.State)
    requires 16 <= o <= 127
    ensures B.OpLen(OrdinalOp(o) + rest) == |OrdinalOp(o)| == 2
    ensures B.Effect(OrdinalOp(o), st) == B.Outcome([], st.(ordinal := o), true)
  {
    var op := OrdinalOp(o);
    assert UlebBytes(o) == [o] && op == [0x20, o];
    assert (op + rest)[1..] == Uleb.Encode(o, 1) + rest;
    Uleb.DecodeEncode(o, 1, rest);
    assert op[1..] == Uleb.Encode(o, 1) + [];
    Uleb.DecodeEncode(o, 1, []);
    assert op[1..][..1] == [o];
    assert Uleb.Value([o]) == o by { assert [o][1..] == []; }
  }

  lemma {:induction false} TextOf(sym: Bytes, rest: Bytes)
    requires 0 !in sym
    ensures B.Text(sym + [0] + rest) == |sym| + 1
  {
    var s := sym + [0] + rest;
    if |sym| > 0 {
      assert s[0] == sym[0] && s[0] in sym;
      assert s[1..] == sym[1..] + [0] + rest;
      TextOf(sym[1..], rest);
    }
  }

  lemma SymbolOpRead(l: Layout, bits: nat, rest: Bytes, st: B.State)
    ensures B.OpLen(SymbolOp(l, bits) + rest) == |SymbolOp(l, bits)| > 0
    ensures B.Effect(SymbolOp(l, bits), st)
         == B.Outcome([], st.(symbol := SymbolOf(l, bits), flags := EffectiveFlags(bits)), true)
  {
    hide B.Text, EffectiveFlags, CString;
    FlagsSmall(bits);
    var sym, op := SymbolOf(l, bits), SymbolOp(l, bits);
    TextOf(sym, rest);
    assert (op + rest)[1..] == sym + [0] + rest;
    assert (op + rest)[0] == op[0] == 0x40 + EffectiveFlags(bits);
    assert op[1..] == sym + [0];
    assert op[1..][..|sym|] == sym;
  }

  lemma FlagsSmall(bits: nat)
    ensures EffectiveFlags(bits) == 0 || EffectiveFlags(bits) == WEAK_IMPORT
  {}

  lemma PlaceOpRead(seg: nat, off: nat, rest: Bytes, st: B.State)
    requires seg < 16 && off < TWO64
    ensures var op := [OrSegment(0x70, seg)] + UlebBytes(off);
      && B.OpLen(op + rest) == |op| > 0
      && B.Effect(op, st) == B.Outcome([], st.(seg := seg, off := off), true)
  {
    hide UlebBytes, Uleb.Extent, B.Operand;
    var g := UlebBytes(off);
    var op := [OrSegment(0x70, seg)] + g;
    OperandRead(off, rest);
    OperandRead(off, []);
    assert (op + rest)[1..] == g + rest;
    assert (op + rest)[0] == op[0] == 0x70 + seg;
    assert op[1..] == g + [];
  }

  lemma DoBindRead(rest: Bytes, st: B.State)
    ensures B.OpLen([0x90] + rest) == 1
    ensures B.Effect([0x90], st) == B.Outcome([st], B.Advance(st, PTR), true)
  {
    assert ([0x90] + rest)[0] == 0x90;
  }

  /** The bind operation a chained bind asks for, with -3 as flat lookup of a weak import. */
  function BindingOf(l: Layout, f: Fixup): B.State
    requires Bound(l, f)
  {
    var bits := l.imports[ImportOf(f.raw)];
    B.State(EffectiveOrdinal(bits), SymbolOf(l, bits), EffectiveFlags(bits), 1, f.seg, f.off,
        AddendBytes(Addend(f.raw)))
  }

  function Addend(raw: nat): nat { (raw / 0x100_0000) % 0x100 }

  /** An eight-bit addend as a bind stream would set it; a stream starts out with none. */
  function AddendBytes(a: nat): Bytes
    requires a < 0x100
  {
    if a == 0 then [] else if a < 0x40 then [a] else [0x80 + a % 0x80, a / 0x80]
  }

  predicate Expressible(l: Layout, f: Fixup) {
    && f.seg < 16 && f.off < TWO64
    && (Bound(l, f) ==> EffectiveOrdinal(l.imports[ImportOf(f.raw)]) >= -15 && Addend(f.raw) == 0)
  }

  lemma BindOpRead(l: Layout, f: Fixup, rest: Bytes, st: B.State) returns (next: B.State)
    requires Bound(l, f) && Expressible(l, f) && st.kind == 1 && st.addend == []
    ensures next.kind == 1 && next.addend == []
    ensures B.Binds(BindOp(l, f) + rest, st) == [BindingOf(l, f)] + B.Binds(rest, next)
  {
    hide OrdinalOp, SymbolOp, UlebBytes, OrSegment, EffectiveOrdinal, EffectiveFlags, SymbolOf, B.OpLen, B.Effect,
        B.Binds,
         ImportOf, IsBind, Addend;
    var bits := l.imports[ImportOf(f.raw)];
    var a, b, c, d := OrdinalOp(EffectiveOrdinal(bits)), SymbolOp(l, bits),
                      [OrSegment(0x70, f.seg)] + UlebBytes(f.off), [0x90];
    FourParts(a, b, c, d, rest);
    OrdinalOpRead(EffectiveOrdinal(bits), b + (c + (d + rest)), st);
    BindsSplit(a, b + (c + (d + rest)), st);
    var st1 := st.(ordinal := EffectiveOrdinal(bits));
    SymbolOpRead(l, bits, c + (d + rest), st1);
    BindsSplit(b, c + (d + rest), st1);
    var st2 := st1.(symbol := SymbolOf(l, bits), flags := EffectiveFlags(bits));
    PlaceOpRead(f.seg, f.off, d + rest, st2);
    BindsSplit(c, d + rest, st2);
    var st3 := st2.(seg := f.seg, off := f.off);
    DoBindRead(rest, st3);
    BindsSplit(d, rest, st3);
    next := B.Advance(st3, PTR);
  }

  lemma FourParts(a: Bytes, b: Bytes, c: Bytes, d: Bytes, rest: Bytes)
    ensures a + b + c + d + rest == a + (b + (c + (d + rest)))
  {}

  function BindingsOf(l: Layout, fs: seq<Fixup>): seq<B.State>
    decreases |fs|
  {
    if |fs| == 0 then [] else (if Bound(l, fs[0]) then [BindingOf(l, fs[0])] else []) + BindingsOf(l, fs[1..])
  }

  ghost predicate AllExpressible(l: Layout, fs: seq<Fixup>) { forall i :: 0 <= i < |fs| ==> Expressible(l, fs[i]) }

  lemma {:induction false} BindOpsRead(l: Layout, fs: seq<Fixup>, st: B.State)
    requires AllExpressible(l, fs) && LowSegments(fs) && st.kind == 1 && st.addend == []
    ensures B.Binds(BindOps(l, fs) + [0], st) == BindingsOf(l, fs)
    decreases |fs|
  {
    if |fs| == 0 {
      assert BindOps(l, fs) + [0] == [0];
      assert Uleb.Extent([0][1..]) == 0;
    } else {
      hide BindOp, Bound, BindingOf, B.Binds, Expressible;
      var f, rest := fs[0], BindOps(l, fs[1..]) + [0];
      if Bound(l, f) {
        assert BindOps(l, fs) + [0] == BindOp(l, f) + rest;
        var next := BindOpRead(l, f, rest, st);
        BindOpsRead(l, fs[1..], next);
      } else {
        assert BindOps(l, fs) + [0] == rest;
        BindOpsRead(l, fs[1..], st);
      }
    }
  }

  /** dyld performs exactly the bind operations of the chains, in their order. */
  lemma BindStreamRead(l: Layout, fs: seq<Fixup>)
    requires AllExpressible(l, fs) && LowSegments(fs)
    ensures B.Binds(BindStream(l, fs), B.START) == BindingsOf(l, fs)
  {
    hide BindOps, BindingsOf;
    var rest := BindOps(l, fs) + [0];
    assert BindStream(l, fs) == [SET_TYPE] + rest;
    TypeRead(rest, B.START);
    BindOpsRead(l, fs, B.START.(kind := 1));
  }

  lemma TypeRead(rest: Bytes, st: B.State)
    ensures B.Binds([SET_TYPE] + rest, st) == B.Binds(rest, st.(kind := 1))
  {
    hide B.Binds;
    assert ([SET_TYPE] + rest)[0] == SET_TYPE;
    BindsSplit([SET_TYPE], rest, st);
  }

  // ------------------------------------------------------------ the result

  lemma {:induction false} SpotsArePos(b: Bytes, l: Layout, fs: seq<Fixup>)
    requires Inside(b, l, fs)
    ensures |RebaseSpots(fs)| == |RebasePos(fs)|
    ensures forall i :: 0 <= i < |RebaseSpots(fs)| ==>
      RebaseSpots(fs)[i].0 < |l.segs| && RebasePos(fs)[i] == l.segs[RebaseSpots(fs)[i].0].fileoff + RebaseSpots(fs)[i].1
    decreases |fs|
  {
    hide IsBind;
    if |fs| > 0 { SpotsArePos(b, l, fs[1..]); }
  }

  /** The pointer positions of a list of (segment, offset) pairs. */
  function PosOf(l: Layout, spots: seq<(nat, nat)>): (ps: seq<nat>)
    requires forall i :: 0 <= i < |spots| ==> spots[i].0 < |l.segs|
    ensures |ps| == |spots|
    ensures forall i :: 0 <= i < |spots| ==> ps[i] == l.segs[spots[i].0].fileoff + spots[i].1
  {
    seq(|spots|, i requires 0 <= i < |spots| => l.segs[spots[i].0].fileoff + spots[i].1)
  }

  /**
   * Reading the emitted streams on the rewritten bytes gives, for every slide, the bytes the
   * chains call for, and the same bindings.
   */
  lemma ConversionKeepsMeaning(b: Bytes, l: Layout, fs: seq<Fixup>, slide: nat)
    requires Inside(b, l, fs) && LowSegments(fs) && Spread(fs) && Plain(l, fs) && AllExpressible(l, fs)
    ensures var spots := Rebases(RebaseStream(l, fs), 0, 0, 0);
      && (forall i :: 0 <= i < |spots| ==> spots[i].0 < |l.segs|)
      && InFile(b, PosOf(l, spots), PTR)
      && Slid(Rewrite(b, l, fs), PosOf(l, spots), slide) == Direct(b, l, fs, slide)
    ensures B.Binds(BindStream(l, fs), B.START) == BindingsOf(l, fs)
  {
    hide Rewrite, Slid, Direct, RebaseSpots, RebasePos, BindingsOf, Rebases, RebaseOps, BindOps, Plain;
    ExpressibleAddressable(l, fs);
    RebaseStreamRead(l, fs);
    SpotsArePos(b, l, fs);
    RebasePosInside(b, l, fs);
    assert PosOf(l, RebaseSpots(fs)) == RebasePos(fs);
    SlidIsDirect(b, l, fs, slide);
    BindStreamRead(l, fs);
  }

  lemma ExpressibleAddressable(l: Layout, fs: seq<Fixup>)
    requires AllExpressible(l, fs)
    ensures Addressable(fs)
  {
    hide Bound, EffectiveOrdinal;
  }
}
