/**
 * Chained fixups as a linker packs them: links and imports put into words and bytes bit field by
 * bit field, and what the walk finds in an image that holds them.
 */
module ChainPacking {
  import opened ByteStrings
  import opened Words
  import opened ChainedFixups
  import B = BindOpcodes

  // ---------------------------------------------------------- one pointer

  /** stride: how many four-byte units on the next link is, or 0. */
  datatype Link =
    | Rebase(target: nat, high8: nat, stride: nat)
    | Bind(index: nat, addend: nat, stride: nat)

  predicate LinkOk(k: Link) {
    k.stride < 0x1000 &&
    match k
    case Rebase(target, high8, _) => target < 0x10_0000_0000 && high8 < 0x100
    case Bind(index, addend, _) => index < 0x100_0000 && addend < 0x100
  }

  /** From the lowest bit: target 36, high8 8, reserved 7, next 12, bind 1; or import 24, addend 8, reserved 19. */
  function Packed(k: Link): (w: nat) {
    match k
    case Rebase(target, high8, stride) => target + high8 * 0x10_0000_0000 + stride * 0x8_0000_0000_0000
    case Bind(index, addend, stride) =>
      index + addend * 0x100_0000 + stride * 0x8_0000_0000_0000 + 0x8000_0000_0000_0000
  }

  /** The eight bytes of a word, least significant first. */
  function Eight(w: nat): (s: Bytes)
    ensures |s| == 8
  {
    [w % 0x100, w / 0x100 % 0x100, w / 0x1_0000 % 0x100, w / 0x100_0000 % 0x100, w / 0x1_0000_0000 % 0x100,
     w / 0x100_0000_0000 % 0x100, w / 0x1_0000_0000_0000 % 0x100, w / 0x100_0000_0000_0000 % 0x100]
  }

  function Four(w: nat): (s: Bytes)
    ensures |s| == 4
  {
    [w % 0x100, w / 0x100 % 0x100, w / 0x1_0000 % 0x100, w / 0x100_0000 % 0x100]
  }

  lemma FourIs(w: nat)
    ensures Four(w) == ToLE(w, 4)
  {
    var a := w / 0x100;
    var b := a / 0x100;
    var c := b / 0x100;
    assert b == w / 0x1_0000 && c == w / 0x100_0000;
    assert ToLE(c, 1) == [c % 0x100] + ToLE(c / 0x100, 0);
    assert ToLE(b, 2) == [b % 0x100] + ToLE(c, 1);
    assert ToLE(a, 3) == [a % 0x100] + ToLE(b, 2);
  }

  lemma EightIs(w: nat)
    ensures Eight(w) == ToLE(w, 8)
  {
    var a := w / 0x100;
    var b := a / 0x100;
    var c := b / 0x100;
    var d := c / 0x100;
    assert b == w / 0x1_0000 && c == w / 0x100_0000 && d == w / 0x1_0000_0000;
    FourIs(d);
    HighBytes(w);
    LEStep(c, 5);
    LEStep(b, 6);
    LEStep(a, 7);
    LEStep(w, 8);
  }

  lemma LEStep(v: nat, n: nat)
    requires n > 0
    ensures ToLE(v, n) == [v % 0x100] + ToLE(v / 0x100, n - 1)
  {}

  /** A word held in its eight bytes is read as the word. */
  lemma WordHeld(b: Bytes, p: nat, w: nat)
    requires p + 8 <= |b| && b[p..p + 8] == Eight(w) && w < TWO64
    ensures Word(b, p, 8) == w
  {
    hide Eight;
    PowerValues();
    EightIs(w);
    FromTo(w, 8);
  }

  lemma HighBytes(w: nat)
    ensures var h := w / 0x1_0000_0000;
      h / 0x100 == w / 0x100_0000_0000 && h / 0x1_0000 == w / 0x1_0000_0000_0000
      && h / 0x100_0000 == w / 0x100_0000_0000_0000
  {}

  lemma FieldSplit(low: nat, stride: nat, bit: nat)
    requires low < 0x8_0000_0000_0000 && stride < 0x1000 && bit <= 1
    ensures var w := low + stride * 0x8_0000_0000_0000 + bit * 0x8000_0000_0000_0000;
      && w / 0x8_0000_0000_0000 % 0x1000 == stride && w / 0x8000_0000_0000_0000 % 2 == bit
      && w % 0x8_0000_0000_0000 == low && w < TWO64
  {
    var w := low + stride * 0x8_0000_0000_0000 + bit * 0x8000_0000_0000_0000;
    assert w / 0x8_0000_0000_0000 == stride + bit * 0x1000;
  }

  /** The walk's bit fields are the linker's. */
  lemma LinkReads(k: Link)
    requires LinkOk(k)
    ensures var w := Packed(k);
      && w < TWO64 && IsBind(w) == k.Bind? && Next(w) == 4 * k.stride
      && (k.Bind? ==> ImportOf(w) == k.index && Addend(w) == k.addend)
      && (k.Rebase? ==> w % 0x10_0000_0000 == k.target && w / 0x10_0000_0000 % 0x100 == k.high8)
  {
    match k
    case Rebase(target, high8, stride) => RebaseFields(target, high8, stride);
    case Bind(index, addend, stride) => BindFields(index, addend, stride);
  }

  lemma RebaseFields(target: nat, high8: nat, stride: nat)
    requires target < 0x10_0000_0000 && high8 < 0x100 && stride < 0x1000
    ensures var w := Packed(Rebase(target, high8, stride));
      w < TWO64 && !IsBind(w) && Next(w) == 4 * stride
      && w % 0x10_0000_0000 == target && w / 0x10_0000_0000 % 0x100 == high8
  {
    var w := Packed(Rebase(target, high8, stride));
    FieldSplit(target + high8 * 0x10_0000_0000, stride, 0);
    assert w == target + 0x10_0000_0000 * (high8 + 0x8000 * stride);
    assert w / 0x10_0000_0000 == high8 + 0x8000 * stride;
  }

  lemma BindFields(index: nat, addend: nat, stride: nat)
    requires index < 0x100_0000 && addend < 0x100 && stride < 0x1000
    ensures var w := Packed(Bind(index, addend, stride));
      w < TWO64 && IsBind(w) && Next(w) == 4 * stride && ImportOf(w) == index && Addend(w) == addend
  {
    var w := Packed(Bind(index, addend, stride));
    FieldSplit(index + addend * 0x100_0000, stride, 1);
    LowFields(index, addend, 0x8_0000 * stride + 0x8000_0000);
  }

  lemma LowFields(index: nat, addend: nat, rest: nat)
    requires index < 0x100_0000 && addend < 0x100
    ensures var w := index + 0x100_0000 * (addend + 0x100 * rest);
      w % 0x100_0000 == index && w / 0x100_0000 % 0x100 == addend
  {
    var w := index + 0x100_0000 * (addend + 0x100 * rest);
    assert w / 0x100_0000 == addend + 0x100 * rest;
  }

  // ------------------------------------------------------------ an import

  /** name is at offset at of the string pool. */
  datatype Import = Import(ordinal: int, weak: bool, at: nat, name: Bytes)

  /** From the lowest bit: ordinal 8, weak 1, name offset 23. */
  function ImportWord(m: Import): int {
    (if m.ordinal < 0 then m.ordinal + 0x100 else m.ordinal) + (if m.weak then 0x100 else 0) + m.at * 0x200
  }

  ghost predicate ImportHeld(l: Layout, i: nat, m: Import) {
    && -0x80 <= m.ordinal < 0x80 && i < |l.imports| && l.imports[i] == ImportWord(m)
    && 0 !in m.name && m.at + |m.name| < |l.pool|
    && l.pool[m.at..m.at + |m.name|] == m.name && l.pool[m.at + |m.name|] == 0
  }

  lemma {:induction false} StringRead(pool: Bytes, at: nat, name: Bytes)
    requires 0 !in name && at + |name| < |pool| && pool[at..at + |name|] == name && pool[at + |name|] == 0
    ensures CString(pool, at) == name
    decreases |name|
  {
    if |name| > 0 {
      assert pool[at] == name[0] && name[0] in name;
      assert pool[at + 1..at + |name|] == name[1..];
      StringRead(pool, at + 1, name[1..]);
      assert name == [name[0]] + name[1..];
    }
  }

  lemma ImportFields(m: Import)
    requires -0x80 <= m.ordinal < 0x80
    ensures var w := ImportWord(m);
      w >= 0 && LibOrdinal(w) == m.ordinal && (w / 0x100 % 2 == 1 <==> m.weak) && w / 0x200 == m.at
  {
    ImportParts(if m.ordinal < 0 then m.ordinal + 0x100 else m.ordinal, if m.weak then 1 else 0, m.at);
  }

  lemma ImportParts(o: nat, weak: nat, at: nat)
    requires o < 0x100 && weak <= 1
    ensures var w := o + weak * 0x100 + at * 0x200; w % 0x100 == o && w / 0x100 % 2 == weak && w / 0x200 == at
  {
    var w := o + weak * 0x100 + at * 0x200;
    assert w == o + 0x100 * (weak + 2 * at);
    assert w / 0x100 == weak + 2 * at;
  }

  /** What a bind through the import should name; weak lookup is not to be had. */
  lemma ImportReads(l: Layout, i: nat, m: Import)
    requires ImportHeld(l, i, m)
    ensures var bits := l.imports[i];
      && EffectiveOrdinal(bits) == (if m.ordinal == -3 then -2 else m.ordinal)
      && EffectiveFlags(bits) == (if m.ordinal == -3 || m.weak then 1 else 0)
      && SymbolOf(l, bits) == m.name
  {
    hide ImportWord, LibOrdinal, CString;
    ImportFields(m);
    StringRead(l.pool, m.at, m.name);
  }

  // ------------------------------------------------------------ one chain

  /** The bytes of b hold the links, the first at offset off of what starts at base. */
  ghost predicate Held(b: Bytes, base: nat, off: nat, links: seq<Link>, imports: nat)
    decreases |links|
  {
    && |links| > 0 && LinkOk(links[0]) && (links[0].Bind? ==> links[0].index < imports)
    && base + off + 8 <= |b| && b[base + off..base + off + 8] == Eight(Packed(links[0]))
    && if |links| == 1 then links[0].stride == 0
       else links[0].stride > 0 && Held(b, base, off + 4 * links[0].stride, links[1..], imports)
  }

  function LinkFixups(si: nat, base: nat, fmt: Format, off: nat, links: seq<Link>): (fs: seq<Fixup>)
    ensures |fs| == |links|
    decreases |links|
  {
    if |links| == 0 then []
    else [Fixup(si, off, base + off, Packed(links[0]), fmt)]
         + LinkFixups(si, base, fmt, off + 4 * links[0].stride, links[1..])
  }

  /** The walk finds each link where it was put, and stops after the last. */
  lemma {:induction false} ChainFinds(b: Bytes, l: Layout, si: nat, fmt: Format, off: nat, links: seq<Link>)
    requires si < |l.segs| && !fmt.Other? && Held(b, l.segs[si].fileoff, off, links, |l.imports|)
    ensures Chain(b, l, si, fmt, off) == LinkFixups(si, l.segs[si].fileoff, fmt, off, links)
    decreases |links|
  {
    hide Packed, Word, IsBind, Next, ImportOf, LinkOk, Eight;
    var base, w := l.segs[si].fileoff, Packed(links[0]);
    LinkReads(links[0]);
    WordHeld(b, base + off, w);
    if |links| > 1 {
      ChainFinds(b, l, si, fmt, off + 4 * links[0].stride, links[1..]);
    } else {
      assert LinkFixups(si, base, fmt, off + 4 * links[0].stride, links[1..]) == [];
    }
  }

  // ------------------------------------------------------------- the image

  datatype Page = Free | Linked(first: nat, links: seq<Link>)

  datatype Pages = None | Pages(format: Format, size: nat, pages: seq<Page>)

  ghost predicate PageHeld(b: Bytes, l: Layout, si: nat, size: nat, pg: nat, start: nat, page: Page)
    requires si < |l.segs|
  {
    match page
    case Free => start == 0xFFFF
    case Linked(first, links) =>
      start == first != 0xFFFF && Held(b, l.segs[si].fileoff, pg * size + first, links, |l.imports|)
  }

  ghost predicate SegmentHeld(b: Bytes, l: Layout, si: nat, p: Pages)
    requires si < |l.segs|
  {
    match p
    case None => l.segs[si].starts.NoStarts?
    case Pages(format, size, pages) =>
      var s := l.segs[si].starts;
      && !format.Other? && s.Starts? && s.format == format && s.pageSize == size && |s.pages| == |pages|
      && forall pg :: 0 <= pg < |pages| ==> PageHeld(b, l, si, size, pg, s.pages[pg], pages[pg])
  }

  /** The image as the linker laid it out. */
  ghost predicate ImageHeld(b: Bytes, l: Layout, image: seq<Pages>, imports: seq<Import>) {
    && |image| == |l.segs| && |imports| == |l.imports|
    && (forall si :: 0 <= si < |image| ==> SegmentHeld(b, l, si, image[si]))
    && forall i :: 0 <= i < |imports| ==> ImportHeld(l, i, imports[i])
  }

  function PageFixups(l: Layout, si: nat, p: Pages, pg: nat): seq<Fixup>
    requires si < |l.segs| && p.Pages?
    decreases |p.pages| - pg
  {
    if pg >= |p.pages| then []
    else (match p.pages[pg]
          case Free => []
          case Linked(first, links) => LinkFixups(si, l.segs[si].fileoff, p.format, pg * p.size + first, links))
         + PageFixups(l, si, p, pg + 1)
  }

  function ImageFixups(l: Layout, image: seq<Pages>, si: nat): seq<Fixup>
    requires |image| == |l.segs|
    decreases |image| - si
  {
    if si >= |image| then []
    else (if image[si].None? then [] else PageFixups(l, si, image[si], 0)) + ImageFixups(l, image, si + 1)
  }

  lemma {:induction false} PagesFind(b: Bytes, l: Layout, si: nat, p: Pages, pg: nat)
    requires si < |l.segs| && p.Pages? && SegmentHeld(b, l, si, p)
    ensures PagesFrom(b, l, si, pg) == PageFixups(l, si, p, pg)
    decreases |p.pages| - pg
  {
    hide Chain, LinkFixups, Held;
    if pg < |p.pages| {
      assert PageHeld(b, l, si, p.size, pg, l.segs[si].starts.pages[pg], p.pages[pg]);
      PagesFind(b, l, si, p, pg + 1);
      if p.pages[pg].Linked? {
        ChainFinds(b, l, si, p.format, pg * p.size + p.pages[pg].first, p.pages[pg].links);
      }
    }
  }

  lemma {:induction false} SegmentsFind(b: Bytes, l: Layout, image: seq<Pages>, imports: seq<Import>, si: nat)
    requires ImageHeld(b, l, image, imports)
    ensures SegmentsFrom(b, l, si) == ImageFixups(l, image, si)
    decreases |image| - si
  {
    hide PagesFrom, PageFixups, PageHeld, ImportHeld;
    if si < |image| {
      assert SegmentHeld(b, l, si, image[si]);
      SegmentsFind(b, l, image, imports, si + 1);
      if image[si].Pages? { PagesFind(b, l, si, image[si], 0); }
    }
  }

  /** The walk meets exactly the links of the image, in page order. */
  lemma ImageFound(b: Bytes, l: Layout, image: seq<Pages>, imports: seq<Import>)
    requires ImageHeld(b, l, image, imports)
    ensures AllFixups(b, l) == ImageFixups(l, image, 0)
  {
    hide ImageFixups, SegmentsFrom, ImageHeld;
    SegmentsFind(b, l, image, imports, 0);
  }

  // --------------------------------------------------- what the links ask for

  /** Where the chain's rebases are, as segment and offset. */
  function LinkRebases(si: nat, off: nat, links: seq<Link>): seq<(nat, nat)>
    decreases |links|
  {
    if |links| == 0 then []
    else (if links[0].Rebase? then [(si, off)] else []) + LinkRebases(si, off + 4 * links[0].stride, links[1..])
  }

  /** One bind as dyld should perform it: of a pointer, to the import's library and name. */
  function LinkBinding(si: nat, off: nat, addend: nat, m: Import): B.State
    requires addend < 0x100
  {
    B.State(if m.ordinal == -3 then -2 else m.ordinal, m.name, if m.ordinal == -3 || m.weak then 1 else 0, 1, si, off,
            AddendBytes(addend))
  }

  function LinkBindings(imports: seq<Import>, si: nat, off: nat, links: seq<Link>): seq<B.State>
    decreases |links|
  {
    if |links| == 0 then []
    else (if links[0].Bind? && links[0].index < |imports| && links[0].addend < 0x100
          then [LinkBinding(si, off, links[0].addend, imports[links[0].index])] else [])
         + LinkBindings(imports, si, off + 4 * links[0].stride, links[1..])
  }

  function PageRebases(si: nat, p: Pages, pg: nat): seq<(nat, nat)>
    requires p.Pages?
    decreases |p.pages| - pg
  {
    if pg >= |p.pages| then []
    else (match p.pages[pg]
          case Free => []
          case Linked(first, links) => LinkRebases(si, pg * p.size + first, links)) + PageRebases(si, p, pg + 1)
  }

  function PageBindings(imports: seq<Import>, si: nat, p: Pages, pg: nat): seq<B.State>
    requires p.Pages?
    decreases |p.pages| - pg
  {
    if pg >= |p.pages| then []
    else (match p.pages[pg]
          case Free => []
          case Linked(first, links) => LinkBindings(imports, si, pg * p.size + first, links))
         + PageBindings(imports, si, p, pg + 1)
  }

  function ImageRebases(image: seq<Pages>, si: nat): seq<(nat, nat)>
    decreases |image| - si
  {
    if si >= |image| then []
    else (if image[si].None? then [] else PageRebases(si, image[si], 0)) + ImageRebases(image, si + 1)
  }

  function ImageBindings(imports: seq<Import>, image: seq<Pages>, si: nat): seq<B.State>
    decreases |image| - si
  {
    if si >= |image| then []
    else (if image[si].None? then [] else PageBindings(imports, si, image[si], 0))
         + ImageBindings(imports, image, si + 1)
  }

  lemma {:induction false} RebasesAppend(a: seq<Fixup>, c: seq<Fixup>)
    ensures RebaseSpots(a + c) == RebaseSpots(a) + RebaseSpots(c)
    decreases |a|
  {
    hide IsBind;
    if |a| == 0 {
      assert a + c == c;
    } else {
      assert (a + c)[1..] == a[1..] + c;
      RebasesAppend(a[1..], c);
    }
  }

  lemma {:induction false} BindingsAppend(l: Layout, a: seq<Fixup>, c: seq<Fixup>)
    ensures BindingsOf(l, a + c) == BindingsOf(l, a) + BindingsOf(l, c)
    decreases |a|
  {
    hide Bound, BindingOf;
    if |a| == 0 {
      assert a + c == c;
    } else {
      assert (a + c)[1..] == a[1..] + c;
      BindingsAppend(l, a[1..], c);
    }
  }

  ghost predicate ImportsHeld(l: Layout, imports: seq<Import>) {
    |imports| == |l.imports| && forall i :: 0 <= i < |imports| ==> ImportHeld(l, i, imports[i])
  }

  ghost predicate LinksOk(links: seq<Link>, n: nat) {
    forall i :: 0 <= i < |links| ==> LinkOk(links[i]) && (links[i].Bind? ==> links[i].index < n)
  }

  lemma {:induction false} HeldOk(b: Bytes, base: nat, off: nat, links: seq<Link>, n: nat)
    requires Held(b, base, off, links, n)
    ensures LinksOk(links, n)
    decreases |links|
  {
    hide LinkOk, Packed, Eight;
    if |links| > 1 {
      HeldOk(b, base, off + 4 * links[0].stride, links[1..], n);
      assert links == [links[0]] + links[1..];
    }
  }

  lemma OneBinding(l: Layout, imports: seq<Import>, f: Fixup, k: Link)
    requires ImportsHeld(l, imports) && LinkOk(k) && f.raw == Packed(k) && (k.Bind? ==> k.index < |imports|)
    ensures Bound(l, f) <==> k.Bind?
    ensures k.Bind? ==> BindingOf(l, f) == LinkBinding(f.seg, f.off, k.addend, imports[k.index])
  {
    hide Packed, IsBind, ImportOf, Addend, Next, ImportHeld, EffectiveOrdinal, EffectiveFlags, SymbolOf, AddendBytes;
    LinkReads(k);
    if k.Bind? { ImportReads(l, k.index, imports[k.index]); }
  }

  lemma {:induction false} LinksAsk(l: Layout, imports: seq<Import>, si: nat, base: nat, fmt: Format, off: nat,
                                    links: seq<Link>)
    requires ImportsHeld(l, imports) && LinksOk(links, |imports|)
    ensures RebaseSpots(LinkFixups(si, base, fmt, off, links)) == LinkRebases(si, off, links)
    ensures BindingsOf(l, LinkFixups(si, base, fmt, off, links)) == LinkBindings(imports, si, off, links)
    decreases |links|
  {
    hide Packed, IsBind, Bound, BindingOf, LinkBinding, ImportsHeld;
    if |links| > 0 {
      var k := links[0];
      var f := Fixup(si, off, base + off, Packed(k), fmt);
      FirstOk(links, |imports|);
      LinkReads(k);
      OneBinding(l, imports, f, k);
      LinksAsk(l, imports, si, base, fmt, off + 4 * k.stride, links[1..]);
    }
  }

  lemma FirstOk(links: seq<Link>, n: nat)
    requires |links| > 0 && LinksOk(links, n)
    ensures LinkOk(links[0]) && (links[0].Bind? ==> links[0].index < n && links[0].addend < 0x100)
    ensures LinksOk(links[1..], n)
  {}

  ghost predicate PagesOk(p: Pages, n: nat) {
    p.Pages? ==> forall pg :: 0 <= pg < |p.pages| && p.pages[pg].Linked? ==> LinksOk(p.pages[pg].links, n)
  }

  lemma {:induction false} PagesAsk(l: Layout, imports: seq<Import>, si: nat, p: Pages, pg: nat)
    requires ImportsHeld(l, imports) && p.Pages? && PagesOk(p, |imports|) && si < |l.segs|
    ensures RebaseSpots(PageFixups(l, si, p, pg)) == PageRebases(si, p, pg)
    ensures BindingsOf(l, PageFixups(l, si, p, pg)) == PageBindings(imports, si, p, pg)
    decreases |p.pages| - pg
  {
    hide LinkFixups, RebaseSpots, BindingsOf, LinkRebases, LinkBindings, ImportsHeld, LinksOk;
    NoneAsked(l);
    if pg < |p.pages| {
      PagesAsk(l, imports, si, p, pg + 1);
      match p.pages[pg]
      case Free =>
        assert PageFixups(l, si, p, pg) == PageFixups(l, si, p, pg + 1);
      case Linked(first, links) =>
        var a := LinkFixups(si, l.segs[si].fileoff, p.format, pg * p.size + first, links);
        LinksAsk(l, imports, si, l.segs[si].fileoff, p.format, pg * p.size + first, links);
        RebasesAppend(a, PageFixups(l, si, p, pg + 1));
        BindingsAppend(l, a, PageFixups(l, si, p, pg + 1));
    }
  }

  lemma NoneAsked(l: Layout)
    ensures RebaseSpots([]) == [] && BindingsOf(l, []) == []
  {}

  ghost predicate ImageOk(image: seq<Pages>, n: nat) { forall si :: 0 <= si < |image| ==> PagesOk(image[si], n) }

  lemma {:induction false} ImageAsks(l: Layout, imports: seq<Import>, image: seq<Pages>, si: nat)
    requires ImportsHeld(l, imports) && |image| == |l.segs| && ImageOk(image, |imports|)
    ensures RebaseSpots(ImageFixups(l, image, si)) == ImageRebases(image, si)
    ensures BindingsOf(l, ImageFixups(l, image, si)) == ImageBindings(imports, image, si)
    decreases |image| - si
  {
    hide PageFixups, RebaseSpots, BindingsOf, PageRebases, PageBindings, ImportsHeld, PagesOk;
    NoneAsked(l);
    if si < |image| {
      ImageAsks(l, imports, image, si + 1);
      if image[si].Pages? {
        PagesAsk(l, imports, si, image[si], 0);
        RebasesAppend(PageFixups(l, si, image[si], 0), ImageFixups(l, image, si + 1));
        BindingsAppend(l, PageFixups(l, si, image[si], 0), ImageFixups(l, image, si + 1));
      } else {
        assert ImageFixups(l, image, si) == ImageFixups(l, image, si + 1);
      }
    }
  }

  lemma HeldImageOk(b: Bytes, l: Layout, image: seq<Pages>, imports: seq<Import>)
    requires ImageHeld(b, l, image, imports)
    ensures ImportsHeld(l, imports) && ImageOk(image, |imports|) && |image| == |l.segs|
  {
    hide ImportHeld, Held, LinksOk;
    forall si | 0 <= si < |image|
      ensures PagesOk(image[si], |imports|)
    {
      assert SegmentHeld(b, l, si, image[si]);
      PagesHeldOk(b, l, si, image[si]);
    }
  }

  lemma PagesHeldOk(b: Bytes, l: Layout, si: nat, p: Pages)
    requires si < |l.segs| && SegmentHeld(b, l, si, p)
    ensures PagesOk(p, |l.imports|)
  {
    hide Held, LinksOk;
    if p.Pages? {
      forall pg | 0 <= pg < |p.pages| && p.pages[pg].Linked?
        ensures LinksOk(p.pages[pg].links, |l.imports|)
      {
        assert PageHeld(b, l, si, p.size, pg, l.segs[si].starts.pages[pg], p.pages[pg]);
        HeldOk(b, l.segs[si].fileoff, pg * p.size + p.pages[pg].first, p.pages[pg].links, |l.imports|);
      }
    }
  }

  /**
   * The streams written for an image are read by dyld as the linker's own list of rebases and
   * binds, for all it can express: low segments, ordinals down to -15, no addend.
   */
  lemma ImageConverted(b: Bytes, l: Layout, image: seq<Pages>, imports: seq<Import>)
    requires ImageHeld(b, l, image, imports) && LowSegments(AllFixups(b, l)) && AllExpressible(l, AllFixups(b, l))
    ensures Rebases(RebaseStream(l, AllFixups(b, l)), 0, 0, 0) == ImageRebases(image, 0)
    ensures B.Binds(BindStream(l, AllFixups(b, l)), B.START) == ImageBindings(imports, image, 0)
  {
    hide ImageHeld, ImageFixups, ImageRebases, ImageBindings, RebaseStream, BindStream, Rebases, RebaseSpots,
         BindingsOf, ImportsHeld, ImageOk, AllFixups;
    ImageFound(b, l, image, imports);
    HeldImageOk(b, l, image, imports);
    ImageAsks(l, imports, image, 0);
    ExpressibleAddressable(l, AllFixups(b, l));
    RebaseStreamRead(l, AllFixups(b, l));
    BindStreamRead(l, AllFixups(b, l));
  }

  /** What a rebase link asks for: its target with its high byte, from the image base if it is an offset. */
  function Wanted(base: nat, fmt: Format, k: Link): int
    requires k.Rebase?
  {
    (if fmt.Ptr64Offset? then base else 0) + k.target + k.high8 * 0x100_0000_0000_0000
  }

  /** That address is the one the format's meaning gives, and the one written if there is no high byte. */
  lemma RebaseWanted(l: Layout, f: Fixup, k: Link)
    requires LinkOk(k) && k.Rebase? && f.raw == Packed(k) && !f.format.Other?
    ensures Target(l, f) == Wanted(l.base, f.format, k) % TWO64
    ensures NewWord(l, f) == Target(l, f) <==> k.high8 == 0
  {
    hide Packed, Next, NewWord;
    LinkReads(k);
    PlainLink(f, k);
    PlainTarget(l, f);
  }

  lemma PlainLink(f: Fixup, k: Link)
    requires LinkOk(k) && k.Rebase? && f.raw == Packed(k) && !f.format.Other?
    ensures PlainRebase(f) <==> k.high8 == 0
  {
    var h := k.high8 + 0x8000 * k.stride;
    HighPart(k.target, h);
    assert Packed(k) == k.target + 0x10_0000_0000 * h;
    HighOnly(k.high8, k.stride);
    hide Packed;
  }

  lemma HighPart(target: nat, h: nat)
    requires target < 0x10_0000_0000
    ensures (target + 0x10_0000_0000 * h) / 0x10_0000_0000 == h
  {}

  lemma HighOnly(high8: nat, stride: nat)
    requires high8 < 0x100
    ensures var h := high8 + 0x8000 * stride; h % 0x8000 == high8 && h % 0x100 == high8
  {
    AboveByte(high8, 0x80 * stride);
    AboveHalf(high8, stride);
  }

  lemma AboveByte(x: nat, k: nat)
    requires x < 0x100
    ensures (x + 0x100 * k) % 0x100 == x
  {}

  lemma AboveHalf(x: nat, k: nat)
    requires x < 0x8000
    ensures (x + 0x8000 * k) % 0x8000 == x
  {}
}
