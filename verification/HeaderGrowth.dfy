/**
 * mg_grow_header: making room after the load commands of a position-independent executable by
 * lowering its image base, and what stays where it was. Load commands are records; bytes
 * before the insertion point belong to them and are not modelled.
 */
module HeaderGrowth {
  import opened ByteStrings
  import opened Words
  import Uleb
  import FunctionStarts
  import ExportTrie

  const PAGE := 0x1000
  const HEADER_SIZE := 32
  const NO_SECTION := 0xFFFF_FFFF

  /** initOffsets: type S_INIT_FUNC_OFFSETS, 32-bit offsets from the image base. */
  datatype Sect = Sect(addr: nat, size: nat, offset: nat, reloff: nat, initOffsets: bool)

  /** Other offsets of a symbol table command are in the order of its structure. */
  datatype Cmd =
    | Segment(name: string, vmaddr: nat, vmsize: nat, fileoff: nat, filesize: nat, sects: seq<Sect>)
    | Symtab(symoff: nat, stroff: nat)
    | Dysymtab(tocoff: nat, modtaboff: nat, extrefsymoff: nat, indirectsymoff: nat, extreloff: nat, locreloff: nat)
    | DyldInfo(rebaseOff: nat, bindOff: nat, weakOff: nat, lazyOff: nat, exportOff: nat, exportSize: nat)
    | EntryPoint(entryoff: nat)
    | Starts(dataoff: nat, datasize: nat)
    | Trie(dataoff: nat, datasize: nat)
    | LinkeditData(dataoff: nat)
    | Opaque

  datatype Header = Header(magicOk: bool, execute: bool, pie: bool, sizeofcmds: nat, cmds: seq<Cmd>)

  const PAGEZERO: string := "__PAGEZERO"

  predicate IsPagezero(c: Cmd) { c.Segment? && c.name == PAGEZERO }

  /** The segment that maps the header. */
  predicate HoldsHeader(c: Cmd) { c.Segment? && c.name != PAGEZERO && c.fileoff == 0 && c.filesize > 0 }

  // ------------------------------------------------------ the insertion point

  function Least(a: nat, offset: nat): nat { if offset != 0 && offset < a then offset else a }

  function LeastOfSects(sects: seq<Sect>, a: nat): (r: nat)
    ensures r <= a
    ensures forall s :: s in sects && s.offset != 0 ==> r <= s.offset
    decreases |sects|
  {
    if |sects| == 0 then a else LeastOfSects(sects[1..], Least(a, sects[0].offset))
  }

  function LeastOffset(cmds: seq<Cmd>, a: nat): (r: nat)
    ensures r <= a
    decreases |cmds|
  {
    if |cmds| == 0 then a
    else LeastOffset(cmds[1..], if cmds[0].Segment? then LeastOfSects(cmds[0].sects, a) else a)
  }

  /** mg_first_sect_off. */
  function FirstSection(cmds: seq<Cmd>): nat {
    var a := LeastOffset(cmds, NO_SECTION);
    if a == NO_SECTION then 4096 else a
  }

  function PageRound(req: nat): (g: nat)
    ensures g % PAGE == 0 && g < TWO32
  {
    (req + PAGE - 1) % TWO32 / PAGE * PAGE
  }

  /** The gap opened holds what was asked for, unless rounding up wraps around. */
  lemma GapCovers(req: nat)
    requires req < TWO32
    ensures PageRound(req) >= req <==> req + PAGE - 1 < TWO32
  {
    var up := req + PAGE - 1;
    assert up / PAGE * PAGE > up - PAGE;
  }

  // ------------------------------------------------------- fields and bumps

  function Bump(off: nat, insert: nat, grow: nat): nat { if off >= insert then (off + grow) % TWO32 else off }

  function BumpSect(s: Sect, insert: nat, grow: nat): Sect {
    s.(offset := Bump(s.offset, insert, grow), reloff := if s.reloff != 0 then Bump(s.reloff, insert, grow) else 0)
  }

  function BumpSects(sects: seq<Sect>, insert: nat, grow: nat): (r: seq<Sect>)
    ensures |r| == |sects| && forall i :: 0 <= i < |r| ==> r[i] == BumpSect(sects[i], insert, grow)
  {
    if |sects| == 0 then [] else [BumpSect(sects[0], insert, grow)] + BumpSects(sects[1..], insert, grow)
  }

  function Add64(x: nat, grow: nat): nat { (x + grow) % TWO64 }

  function Sub64(x: nat, grow: nat): nat
    requires grow < TWO64
  {
    (x + TWO64 - grow) % TWO64
  }

  /** One step of the header walk. */
  function BumpCmd(c: Cmd, insert: nat, grow: nat): Cmd
    requires grow < TWO32
  {
    match c
    case Segment(name, vmaddr, vmsize, fileoff, filesize, sects) =>
      var moved := c.(sects := BumpSects(sects, insert, grow));
      if IsPagezero(c) then moved.(vmsize := Sub64(vmsize, grow))
      else if HoldsHeader(c) then 
        moved.(vmaddr := Sub64(vmaddr, grow), vmsize := Add64(vmsize, grow), filesize := Add64(filesize, grow))
      else if fileoff >= insert then moved.(fileoff := Add64(fileoff, grow))
      else moved
    case Symtab(a, b) => Symtab(Bump(a, insert, grow), Bump(b, insert, grow))
    case Dysymtab(a, b, d, e, f, g) =>
      Dysymtab(Bump(a, insert, grow), Bump(b, insert, grow), Bump(d, insert, grow), Bump(e, insert, grow),
               Bump(f, insert, grow), Bump(g, insert, grow))
    case DyldInfo(a, b, d, e, f, n) =>
      DyldInfo(Bump(a, insert, grow), Bump(b, insert, grow), Bump(d, insert, grow), Bump(e, insert, grow),
               Bump(f, insert, grow), n)
    case EntryPoint(e) => EntryPoint(Bump(e % TWO32, insert, grow))
    case Starts(a, n) => Starts(Bump(a, insert, grow), n)
    case Trie(a, n) => Trie(Bump(a, insert, grow), n)
    case LinkeditData(a) => LinkeditData(Bump(a, insert, grow))
    case Opaque => Opaque
  }

  // --------------------------------------------------- initializer entries

  function EntriesOf(off: nat, n: nat): (r: seq<nat>)
    ensures |r| == n && forall i :: 0 <= i < n ==> r[i] == off + 4 * i
    decreases n
  {
    if n == 0 then [] else [off] + EntriesOf(off + 4, n - 1)
  }

  function SectEntries(s: Sect): seq<nat> { if s.initOffsets then EntriesOf(s.offset, s.size / 4) else [] }

  function EntriesOfSects(sects: seq<Sect>): seq<nat> {
    if |sects| == 0 then [] else SectEntries(sects[0]) + EntriesOfSects(sects[1..])
  }

  function CmdEntries(c: Cmd): seq<nat> { if c.Segment? then EntriesOfSects(c.sects) else [] }

  /** The file positions of every initializer offset, in the order they are visited. */
  function Entries(cmds: seq<Cmd>): seq<nat> {
    if |cmds| == 0 then [] else CmdEntries(cmds[0]) + Entries(cmds[1..])
  }

  predicate SectOk(s: Sect, size: nat) { s.initOffsets ==> s.size % 4 == 0 && s.offset + s.size <= size }

  predicate SectsOk(sects: seq<Sect>, size: nat) { forall i :: 0 <= i < |sects| ==> SectOk(sects[i], size) }

  predicate InitsOk(cmds: seq<Cmd>, size: nat) {
    forall i :: 0 <= i < |cmds| && cmds[i].Segment? ==> SectsOk(cmds[i].sects, size)
  }

  lemma SectEntriesIn(s: Sect, size: nat)
    requires SectOk(s, size)
    ensures forall p :: p in SectEntries(s) ==> p + 4 <= size
  {}

  lemma {:induction false} EntriesOfSectsIn(sects: seq<Sect>, size: nat)
    requires SectsOk(sects, size)
    ensures forall p :: p in EntriesOfSects(sects) ==> p + 4 <= size
  {
    hide SectEntries, SectOk;
    if |sects| > 0 {
      SectEntriesIn(sects[0], size);
      EntriesOfSectsIn(sects[1..], size);
    }
  }

  lemma {:induction false} EntriesIn(cmds: seq<Cmd>, size: nat)
    requires InitsOk(cmds, size)
    ensures forall p :: p in Entries(cmds) ==> p + 4 <= size
  {
    hide SectsOk;
    if |cmds| > 0 {
      if cmds[0].Segment? { EntriesOfSectsIn(cmds[0].sects, size); }
      EntriesIn(cmds[1..], size);
    }
  }

  /** The audit: sections well formed, and no entry would overflow. */
  ghost predicate AuditOk(b: Bytes, cmds: seq<Cmd>, grow: nat) {
    && InitsOk(cmds, |b|)
    && forall p :: p in Entries(cmds) && p + 4 <= |b| ==> Word(b, p, 4) + grow < TWO32
  }

  // --------------------------------------------------------------- the plan

  datatype Plan = Refuse | Nothing | Go(grow: nat, insert: nat)

  /** Offset and size of the first function-starts command, or zeros. */
  function StartsOf(cmds: seq<Cmd>): (nat, nat) {
    if |cmds| == 0 then (0, 0) else if cmds[0].Starts? then (cmds[0].dataoff, cmds[0].datasize) else StartsOf(cmds[1..])
  }

  function TrieOf(cmds: seq<Cmd>): (nat, nat) {
    if |cmds| == 0 then (0, 0)
    else if cmds[0].DyldInfo? then (cmds[0].exportOff, cmds[0].exportSize)
    else if cmds[0].Trie? then (cmds[0].dataoff, cmds[0].datasize)
    else TrieOf(cmds[1..])
  }

  predicate Present(d: (nat, nat)) { d.0 != 0 && d.1 != 0 }

  /** What the caller vouches for: the blobs the audits read are inside the file. */
  predicate Readable(b: Bytes, cmds: seq<Cmd>) {
    && (Present(StartsOf(cmds)) ==> StartsOf(cmds).0 + StartsOf(cmds).1 <= |b|)
    && (Present(TrieOf(cmds)) ==> TrieOf(cmds).0 + TrieOf(cmds).1 <= |b|)
  }

  function Blob(b: Bytes, d: (nat, nat)): Bytes
    requires d.0 + d.1 <= |b|
  {
    b[d.0..d.0 + d.1]
  }

  predicate StartsFit(b: Bytes, cmds: seq<Cmd>, grow: nat)
    requires Readable(b, cmds)
  {
    var d := StartsOf(cmds);
    Present(d) ==> FunctionStarts.Reencode(Blob(b, d), grow).Patched?
  }

  predicate TrieSafe(b: Bytes, cmds: seq<Cmd>)
    requires Readable(b, cmds)
  {
    var d := TrieOf(cmds);
    Present(d) ==> ExportTrie.Scan(Blob(b, d), 0, 0) == ExportTrie.Safe
  }

  /** The last __PAGEZERO, if any, can donate grow bytes; some segment holds the header. */
  ghost predicate Donor(cmds: seq<Cmd>, grow: nat) {
    && (exists i :: 0 <= i < |cmds| && HoldsHeader(cmds[i]))
    && exists i :: LastPagezero(cmds, i) && cmds[i].vmsize >= grow
  }

  ghost predicate LastPagezero(cmds: seq<Cmd>, i: int) {
    0 <= i < |cmds| && IsPagezero(cmds[i]) && forall j :: i < j < |cmds| ==> !IsPagezero(cmds[j])
  }

  ghost function PlanFor(h: Header, b: Bytes, req: nat): Plan
    requires Readable(b, h.cmds)
  {
    var grow, insert := PageRound(req), FirstSection(h.cmds);
    if grow == 0 then Nothing
    else if !h.magicOk || !h.execute || !h.pie || insert < (HEADER_SIZE + h.sizeofcmds) % TWO32 || !Donor(h.cmds, grow)
            || !StartsFit(b, h.cmds, grow) || !AuditOk(b, h.cmds, grow) || !TrieSafe(b, h.cmds) then Refuse
    else Go(grow, insert)
  }

  function BumpAll(cmds: seq<Cmd>, insert: nat, grow: nat): (r: seq<Cmd>)
    requires grow < TWO32
    ensures |r| == |cmds| && forall i :: 0 <= i < |r| ==> r[i] == BumpCmd(cmds[i], insert, grow)
  {
    if |cmds| == 0 then [] else [BumpCmd(cmds[0], insert, grow)] + BumpAll(cmds[1..], insert, grow)
  }

  // -------------------------------------------- what the caller vouches for

  predicate SectSound(s: Sect, insert: nat, size: nat) {
    && (s.offset == 0 || insert <= s.offset <= size) && (s.reloff == 0 || insert <= s.reloff <= size)
    && (s.initOffsets && s.size > 0 ==> s.offset != 0)
  }

  predicate FieldSound(off: nat, insert: nat, size: nat) { off == 0 || insert <= off <= size }

  /** Every data offset is zero or lies between the insertion point and the end. */
  predicate CmdSound(c: Cmd, insert: nat, size: nat) {
    match c
    case Segment(_, vmaddr, vmsize, fileoff, filesize, sects) =>
      && FieldSound(fileoff, insert, size) && fileoff + filesize <= size
      && vmaddr + vmsize < TWO64 && filesize <= vmsize && (IsPagezero(c) ==> filesize == 0)
      && forall i :: 0 <= i < |sects| ==> SectSound(sects[i], insert, size)
    case Symtab(a, b) => FieldSound(a, insert, size) && FieldSound(b, insert, size)
    case Dysymtab(a, b, d, e, f, g) =>
      && FieldSound(a, insert, size) && FieldSound(b, insert, size) && FieldSound(d, insert, size)
      && FieldSound(e, insert, size) && FieldSound(f, insert, size) && FieldSound(g, insert, size)
    case DyldInfo(a, b, d, e, f, n) =>
      && FieldSound(a, insert, size) && FieldSound(b, insert, size) && FieldSound(d, insert, size)
      && FieldSound(e, insert, size) && FieldSound(f, insert, size)
    case EntryPoint(e) => insert <= e <= size
    case Starts(a, n) => FieldSound(a, insert, size)
    case Trie(a, n) => FieldSound(a, insert, size)
    case LinkeditData(a) => FieldSound(a, insert, size)
    case Opaque => true
  }

  ghost predicate CmdsSound(cmds: seq<Cmd>, insert: nat, size: nat) {
    forall i :: 0 <= i < |cmds| ==> CmdSound(cmds[i], insert, size)
  }

  /** No initializer entry overlaps another or the function starts. */
  ghost predicate BlobsApart(cmds: seq<Cmd>) {
    && SpreadWords(Entries(cmds), 4)
    && (Present(StartsOf(cmds)) ==>
          forall p :: p in Entries(cmds) ==> p + 4 <= StartsOf(cmds).0 || StartsOf(cmds).0 + StartsOf(cmds).1 <= p)
  }

  ghost predicate Sound(cmds: seq<Cmd>, size: nat, grow: nat, insert: nat) {
    && 0 < insert <= size && size + grow < TWO32 && CmdsSound(cmds, insert, size) && BlobsApart(cmds)
  }

  // ------------------------------------------------------ after the bumps

  function Shift(ps: seq<nat>, grow: nat): (r: seq<nat>)
    ensures |r| == |ps| && forall i :: 0 <= i < |r| ==> r[i] == ps[i] + grow
  {
    if |ps| == 0 then [] else [ps[0] + grow] + Shift(ps[1..], grow)
  }

  lemma {:induction false} ShiftAppend(a: seq<nat>, b: seq<nat>, grow: nat)
    ensures Shift(a + b, grow) == Shift(a, grow) + Shift(b, grow)
  {
    if |a| == 0 {
      assert a + b == b;
    } else {
      assert (a + b)[1..] == a[1..] + b;
      ShiftAppend(a[1..], b, grow);
    }
  }

  lemma {:induction false} EntriesShift(off: nat, n: nat, grow: nat)
    ensures EntriesOf(off + grow, n) == Shift(EntriesOf(off, n), grow)
    decreases n
  {
    if n > 0 { EntriesShift(off + 4, n - 1, grow); }
  }

  lemma SectShift(s: Sect, insert: nat, grow: nat, size: nat)
    requires SectSound(s, insert, size) && size + grow < TWO32 && insert > 0 && SectOk(s, size)
    ensures SectEntries(BumpSect(s, insert, grow)) == Shift(SectEntries(s), grow)
    ensures SectOk(BumpSect(s, insert, grow), size + grow)
  {
    if s.initOffsets {
      if s.offset != 0 {
        EntriesShift(s.offset, s.size / 4, grow);
      }
    }
  }

  lemma {:induction false} SectsShift(sects: seq<Sect>, insert: nat, grow: nat, size: nat)
    requires (forall i :: 0 <= i < |sects| ==> SectSound(sects[i], insert, size)) && SectsOk(sects, size)
    requires size + grow < TWO32 && insert > 0
    ensures EntriesOfSects(BumpSects(sects, insert, grow)) == Shift(EntriesOfSects(sects), grow)
    ensures SectsOk(BumpSects(sects, insert, grow), size + grow)
  {
    hide SectSound, SectOk, SectEntries, BumpSect;
    if |sects| > 0 {
      SectShift(sects[0], insert, grow, size);
      SectsShift(sects[1..], insert, grow, size);
      ShiftAppend(SectEntries(sects[0]), EntriesOfSects(sects[1..]), grow);
      assert BumpSects(sects, insert, grow)[1..] == BumpSects(sects[1..], insert, grow);
    }
  }

  lemma CmdShift(c: Cmd, insert: nat, grow: nat, size: nat)
    requires CmdSound(c, insert, size) && (c.Segment? ==> SectsOk(c.sects, size)) && size + grow < TWO32 && insert > 0
    ensures CmdEntries(BumpCmd(c, insert, grow)) == Shift(CmdEntries(c), grow)
    ensures BumpCmd(c, insert, grow).Segment? == c.Segment?
    ensures c.Segment? ==> SectsOk(BumpCmd(c, insert, grow).sects, size + grow)
  {
    hide SectSound, SectsOk, EntriesOfSects, BumpSects;
    if c.Segment? { SectsShift(c.sects, insert, grow, size); }
  }

  /** After the header walk every initializer section is found grow bytes further on. */
  lemma {:induction false} EntriesShifted(cmds: seq<Cmd>, insert: nat, grow: nat, size: nat)
    requires CmdsSound(cmds, insert, size) && InitsOk(cmds, size) && size + grow < TWO32 && insert > 0
    ensures Entries(BumpAll(cmds, insert, grow)) == Shift(Entries(cmds), grow)
    ensures InitsOk(BumpAll(cmds, insert, grow), size + grow)
  {
    hide CmdSound, CmdEntries, BumpCmd, SectsOk;
    if |cmds| > 0 {
      CmdShift(cmds[0], insert, grow, size);
      EntriesShifted(cmds[1..], insert, grow, size);
      ShiftAppend(CmdEntries(cmds[0]), Entries(cmds[1..]), grow);
      assert BumpAll(cmds, insert, grow)[1..] == BumpAll(cmds[1..], insert, grow);
    }
  }

  lemma {:induction false} StartsShifted(cmds: seq<Cmd>, insert: nat, size: nat)
    requires CmdsSound(cmds, insert, size)
    ensures FieldSound(StartsOf(cmds).0, insert, size)
  {
    if |cmds| > 0 && !cmds[0].Starts? { StartsShifted(cmds[1..], insert, size); }
  }

  // ------------------------------------------------------------ the bytes

  function Zeros(n: nat): (z: Bytes)
    ensures |z| == n
  {
    seq(n, _ => 0)
  }

  function Opened(b: Bytes, insert: nat, grow: nat): (r: Bytes)
    requires insert <= |b|
    ensures |r| == |b| + grow
  {
    b[..insert] + Zeros(grow) + b[insert..]
  }

  lemma OpenedAt(b: Bytes, insert: nat, grow: nat, k: nat)
    requires insert <= k < |b|
    ensures Opened(b, insert, grow)[k + grow] == b[k]
  {}

  lemma OpenedSlice(b: Bytes, insert: nat, grow: nat, p: nat, n: nat)
    requires insert <= p && p + n <= |b|
    ensures Opened(b, insert, grow)[p + grow..p + grow + n] == b[p..p + n]
  {
    var x, y := Opened(b, insert, grow)[p + grow..p + grow + n], b[p..p + n];
    forall k | 0 <= k < n
      ensures x[k] == y[k]
    {
      OpenedAt(b, insert, grow, p + k);
    }
  }

  function Splice(b: Bytes, at: nat, g: Bytes): (r: Bytes)
    requires at + |g| <= |b|
    ensures |r| == |b|
  {
    b[..at] + g + b[at + |g|..]
  }

  /** The initializer entries re-pointed. */
  function Repointed(b: Bytes, cmds: seq<Cmd>, grow: nat, insert: nat): (r: Bytes)
    requires Sound(cmds, |b|, grow, insert) && InitsOk(cmds, |b|)
    ensures |r| == |b| + grow
  {
    ShiftedInFile(cmds, |b|, grow, insert);
    AddAll(Opened(b, insert, grow), Shift(Entries(cmds), grow), 4, TWO32, grow)
  }

  lemma ShiftedInFile(cmds: seq<Cmd>, size: nat, grow: nat, insert: nat)
    requires InitsOk(cmds, size)
    ensures forall i :: 0 <= i < |Entries(cmds)| ==> Shift(Entries(cmds), grow)[i] + 4 <= size + grow
  {
    EntriesIn(cmds, size);
    assert forall i :: 0 <= i < |Entries(cmds)| ==> Entries(cmds)[i] in Entries(cmds);
  }

  lemma RepointedOther(b: Bytes, cmds: seq<Cmd>, grow: nat, insert: nat, k: nat)
    requires Sound(cmds, |b|, grow, insert) && InitsOk(cmds, |b|) && insert <= k < |b|
    requires forall p :: p in Entries(cmds) ==> !(p <= k < p + 4)
    ensures Repointed(b, cmds, grow, insert)[k + grow] == b[k]
  {
    hide Entries, AddAll, Opened, Word;
    ShiftedInFile(cmds, |b|, grow, insert);
    var ps := Shift(Entries(cmds), grow);
    forall i | 0 <= i < |ps|
      ensures !(ps[i] <= k + grow < ps[i] + 4)
    {
      assert Entries(cmds)[i] in Entries(cmds);
    }
    AddAllElsewhere(Opened(b, insert, grow), ps, 4, TWO32, grow, k + grow);
    OpenedAt(b, insert, grow, k);
  }

  /** The function-starts blob arrives untouched. */
  lemma StartsArrive(b: Bytes, cmds: seq<Cmd>, grow: nat, insert: nat)
    requires Sound(cmds, |b|, grow, insert) && InitsOk(cmds, |b|) && Readable(b, cmds) && Present(StartsOf(cmds))
    ensures var d := StartsOf(cmds); Blob(Repointed(b, cmds, grow, insert), (d.0 + grow, d.1)) == Blob(b, d)
  {
    hide Entries, Repointed, CmdsSound, InitsOk;
    var d := StartsOf(cmds);
    StartsShifted(cmds, insert, |b|);
    var r := Repointed(b, cmds, grow, insert);
    forall k | d.0 <= k < d.0 + d.1
      ensures r[k + grow] == b[k]
    {
      RepointedOther(b, cmds, grow, insert, k);
    }
    SliceEqual(r, b, d.0, d.1, grow);
  }

  lemma SliceEqual(r: Bytes, b: Bytes, p: nat, n: nat, grow: nat)
    requires p + n <= |b| && |r| == |b| + grow && forall k :: p <= k < p + n ==> r[k + grow] == b[k]
    ensures r[p + grow..p + grow + n] == b[p..p + n]
  {
    var x, y := r[p + grow..p + grow + n], b[p..p + n];
    forall k | 0 <= k < n
      ensures x[k] == y[k]
    {
      assert r[p + k + grow] == b[p + k];
    }
  }

  /** The file after the grow. */
  ghost function Grown(b: Bytes, cmds: seq<Cmd>, grow: nat, insert: nat): (r: Bytes)
    requires Sound(cmds, |b|, grow, insert) && InitsOk(cmds, |b|) && Readable(b, cmds) && StartsFit(b, cmds, grow)
    ensures |r| == |b| + grow
  {
    var a, d := Repointed(b, cmds, grow, insert), StartsOf(cmds);
    if Present(d) then Splice(a, d.0 + grow, FunctionStarts.Reencode(Blob(b, d), grow).blob) else a
  }

  // ------------------------------------------------------ what is kept

  predicate InEntry(cmds: seq<Cmd>, k: nat) { exists p :: p in Entries(cmds) && p <= k < p + 4 }

  /** k is one of the bytes of the leading function-starts delta. */
  predicate InDelta(b: Bytes, cmds: seq<Cmd>, k: nat)
    requires Readable(b, cmds)
  {
    var d := StartsOf(cmds);
    Present(d) && d.0 <= k < d.0 + Uleb.Extent(Blob(b, d))
  }

  /** A byte at or past the insertion point moves by grow and nothing else happens to it. */
  lemma ByteKept(b: Bytes, cmds: seq<Cmd>, grow: nat, insert: nat, k: nat)
    requires Sound(cmds, |b|, grow, insert) && InitsOk(cmds, |b|) && Readable(b, cmds) && StartsFit(b, cmds, grow)
    requires insert <= k < |b| && !InEntry(cmds, k) && !InDelta(b, cmds, k)
    ensures Grown(b, cmds, grow, insert)[k + grow] == b[k]
  {
    hide Entries, Repointed, CmdsSound, InitsOk, FunctionStarts.Reencode, Uleb.Extent, BlobsApart;
    RepointedOther(b, cmds, grow, insert, k);
    var d := StartsOf(cmds);
    if Present(d) && d.0 <= k < d.0 + d.1 {
      ReencodeTail(Blob(b, d), grow, k - d.0);
    }
  }

  lemma ReencodeTail(blob: Bytes, grow: nat, i: nat)
    requires FunctionStarts.Reencode(blob, grow).Patched? && Uleb.Extent(blob) <= i < |blob|
    ensures FunctionStarts.Reencode(blob, grow).blob[i] == blob[i]
  {
    FunctionStarts.ReencodeReads(blob, grow);
    var t, n := FunctionStarts.Reencode(blob, grow).blob, Uleb.Extent(blob);
    assert t[n..][i - n] == blob[n..][i - n];
  }

  /** The file offset of an address mapped by a segment. */
  predicate Maps(c: Cmd, addr: nat, off: nat) {
    c.Segment? && c.vmaddr <= addr < c.vmaddr + c.filesize && off == c.fileoff + (addr - c.vmaddr)
  }

  /** The same segment maps the same address to the moved offset. */
  lemma MappingKept(c: Cmd, insert: nat, grow: nat, size: nat, addr: nat, off: nat)
    requires CmdSound(c, insert, size) && 0 < insert <= off && size + grow < TWO32 && Maps(c, addr, off)
    requires HoldsHeader(c) ==> grow <= c.vmaddr && c.filesize + grow < TWO64
    ensures Maps(BumpCmd(c, insert, grow), addr, off + grow)
  {}

  /**
   * Every file-backed address whose old offset is at or past the insertion point still reads
   * the same byte, initializer entries and the leading function-starts delta apart.
   */
  lemma AddressKeepsByte(b: Bytes, cmds: seq<Cmd>, grow: nat, insert: nat, i: nat, addr: nat, off: nat)
    requires Sound(cmds, |b|, grow, insert) && InitsOk(cmds, |b|) && Readable(b, cmds) && StartsFit(b, cmds, grow)
    requires i < |cmds| && Maps(cmds[i], addr, off) && insert <= off < |b|
    requires HoldsHeader(cmds[i]) ==> grow <= cmds[i].vmaddr && cmds[i].filesize + grow < TWO64
    requires !InEntry(cmds, off) && !InDelta(b, cmds, off)
    ensures Maps(BumpAll(cmds, insert, grow)[i], addr, off + grow)
    ensures Grown(b, cmds, grow, insert)[off + grow] == b[off]
  {
    hide Grown, Maps, BumpCmd, BlobsApart, InitsOk, StartsFit, Readable, InEntry, InDelta, CmdSound;
    MappingKept(cmds[i], insert, grow, |b|, addr, off);
    ByteKept(b, cmds, grow, insert, off);
  }

  /** Each initializer entry gains grow exactly once, so base plus entry is unchanged. */
  lemma InitializersKept(b: Bytes, cmds: seq<Cmd>, grow: nat, insert: nat, i: nat, base: nat)
    requires Sound(cmds, |b|, grow, insert) && AuditOk(b, cmds, grow) && Readable(b, cmds) && StartsFit(b, cmds, grow)
    requires i < |Entries(cmds)| && grow <= base < TWO64
    ensures |Entries(BumpAll(cmds, insert, grow))| == |Entries(cmds)|
    ensures var p := Entries(cmds)[i];
      && Entries(BumpAll(cmds, insert, grow))[i] == p + grow && p + 4 <= |b|
      && Sub64(base, grow) + Word(Grown(b, cmds, grow, insert), p + grow, 4) == base + Word(b, p, 4)
  {
    hide Entries, AddAll, CmdsSound, InitsOk, FromLE, BumpAll, Opened, StartsFit, Readable, Grown, Repointed,
        BlobsApart, Word;
    EntriesShifted(cmds, insert, grow, |b|);
    EntriesIn(cmds, |b|);
    var p := Entries(cmds)[i];
    assert p in Entries(cmds);
    EntryPast(cmds, insert, |b|, p);
    RepointedEntry(b, cmds, grow, insert, i);
    SpliceApart(b, cmds, grow, insert, p);
  }

  lemma RepointedEntry(b: Bytes, cmds: seq<Cmd>, grow: nat, insert: nat, i: nat)
    requires Sound(cmds, |b|, grow, insert) && InitsOk(cmds, |b|) && i < |Entries(cmds)|
    requires insert <= Entries(cmds)[i] && Entries(cmds)[i] + 4 <= |b|
    ensures var p := Entries(cmds)[i];
      Word(Repointed(b, cmds, grow, insert), p + grow, 4) == (Word(b, p, 4) + grow) % TWO32
  {
    hide Entries, AddAll, CmdsSound, InitsOk, Word, Opened, Power256;
    var ps := Shift(Entries(cmds), grow);
    ShiftedInFile(cmds, |b|, grow, insert);
    PowerValues();
    SpreadShift(Entries(cmds), grow);
    AddAllAt(Opened(b, insert, grow), ps, 4, TWO32, grow, i);
    WordOpened(b, insert, grow, Entries(cmds)[i]);
  }

  lemma WordOpened(b: Bytes, insert: nat, grow: nat, p: nat)
    requires insert <= p && p + 4 <= |b|
    ensures Word(Opened(b, insert, grow), p + grow, 4) == Word(b, p, 4)
  {
    hide Opened, FromLE;
    OpenedSlice(b, insert, grow, p, 4);
  }

  lemma SpreadShift(ps: seq<nat>, grow: nat)
    requires SpreadWords(ps, 4)
    ensures SpreadWords(Shift(ps, grow), 4)
  {}

  lemma SpliceApart(b: Bytes, cmds: seq<Cmd>, grow: nat, insert: nat, p: nat)
    requires Sound(cmds, |b|, grow, insert) && InitsOk(cmds, |b|) && Readable(b, cmds) && StartsFit(b, cmds, grow)
    requires p in Entries(cmds) && p + 4 <= |b|
    ensures Word(Grown(b, cmds, grow, insert), p + grow, 4) == Word(Repointed(b, cmds, grow, insert), p + grow, 4)
  {
    hide Entries, Repointed, CmdsSound, InitsOk, FromLE, FunctionStarts.Reencode;
    var x, y := Grown(b, cmds, grow, insert), Repointed(b, cmds, grow, insert);
    assert x[p + grow..p + grow + 4] == y[p + grow..p + grow + 4];
  }

  lemma {:induction false} EntryPast(cmds: seq<Cmd>, insert: nat, size: nat, p: nat)
    requires CmdsSound(cmds, insert, size) && InitsOk(cmds, size) && p in Entries(cmds) && insert > 0
    ensures insert <= p
  {
    hide CmdSound, CmdEntries, SectsOk;
    if p in CmdEntries(cmds[0]) {
      CmdEntryPast(cmds[0], insert, size, p);
    } else {
      EntryPast(cmds[1..], insert, size, p);
    }
  }

  lemma CmdEntryPast(c: Cmd, insert: nat, size: nat, p: nat)
    requires CmdSound(c, insert, size) && (c.Segment? ==> SectsOk(c.sects, size)) && p in CmdEntries(c)
    ensures insert <= p
  {
    SectEntryPast(c.sects, insert, size, p);
  }

  lemma {:induction false} SectEntryPast(sects: seq<Sect>, insert: nat, size: nat, p: nat)
    requires forall i :: 0 <= i < |sects| ==> SectSound(sects[i], insert, size)
    requires SectsOk(sects, size) && p in EntriesOfSects(sects)
    ensures insert <= p
  {
    hide SectOk;
    if p !in SectEntries(sects[0]) { SectEntryPast(sects[1..], insert, size, p); }
  }

  /** The function starts read from the lowered base are the old ones, nonzero deltas given. */
  lemma FunctionsKept(b: Bytes, cmds: seq<Cmd>, grow: nat, insert: nat, base: nat, max: nat)
    requires Sound(cmds, |b|, grow, insert) && InitsOk(cmds, |b|) && Readable(b, cmds) && StartsFit(b, cmds, grow)
    requires Present(StartsOf(cmds)) && grow > 0 && max > 0 && grow <= base < TWO64
    requires Uleb.Decode(Blob(b, StartsOf(cmds))).Decoded?
    ensures var d := StartsOf(cmds);
      && d.0 + grow + d.1 <= |Grown(b, cmds, grow, insert)|
      && var first := Uleb.Decode(Blob(b, d)).value;
         FunctionStarts.ReadStarts(Blob(Grown(b, cmds, grow, insert), (d.0 + grow, d.1)), base - grow, max)
           == FunctionStarts.ReadStarts(Blob(b, d), base, max)
         <==> first != 0 && (first + grow) % TWO64 != 0
  {
    hide Entries, Repointed, CmdsSound, InitsOk, FunctionStarts.Reencode, FunctionStarts.ReadStarts, Uleb.Decode;
    var d := StartsOf(cmds);
    var g := FunctionStarts.Reencode(Blob(b, d), grow).blob;
    assert Blob(Grown(b, cmds, grow, insert), (d.0 + grow, d.1)) == g;
    FunctionStarts.StartsKeptIff(Blob(b, d), grow, base, max);
    assert FunctionStarts.Lowered(base, grow) == base - grow;
  }

  /** The entry point's address, base plus file offset, does not move. */
  lemma EntryKept(c: Cmd, insert: nat, grow: nat, size: nat, base: nat)
    requires c.EntryPoint? && CmdSound(c, insert, size) && size + grow < TWO32 && grow <= base < TWO64
    ensures Sub64(base, grow) + BumpCmd(c, insert, grow).entryoff == base + c.entryoff
  {}

  /** __PAGEZERO gives up as much as __TEXT takes: it still ends at or below it. */
  lemma PagezeroBelow(z: Cmd, t: Cmd, insert: nat, grow: nat)
    requires IsPagezero(z) && HoldsHeader(t) && grow < TWO32 && z.vmsize < TWO64
    requires grow <= z.vmsize && z.vmaddr + z.vmsize <= t.vmaddr < TWO64
    ensures var z', t' := BumpCmd(z, insert, grow), BumpCmd(t, insert, grow);
      && z'.vmaddr + z'.vmsize <= t'.vmaddr
      && t'.vmaddr + grow == t.vmaddr && z'.vmaddr + z'.vmsize + grow == z.vmaddr + z.vmsize
  {}

  /** A bumped file offset still points at the same byte, and zero stays zero. */
  lemma FieldKept(b: Bytes, cmds: seq<Cmd>, grow: nat, insert: nat, field: nat)
    requires Sound(cmds, |b|, grow, insert) && InitsOk(cmds, |b|) && Readable(b, cmds) && StartsFit(b, cmds, grow)
    requires FieldSound(field, insert, |b|)
    ensures field == 0 ==> Bump(field, insert, grow) == 0
    ensures 0 < field < |b| && !InEntry(cmds, field) && !InDelta(b, cmds, field) ==>
      Bump(field, insert, grow) < |Grown(b, cmds, grow, insert)|
      && Grown(b, cmds, grow, insert)[Bump(field, insert, grow)] == b[field]
  {
    hide Grown, BlobsApart, InitsOk, StartsFit, Readable, InEntry, InDelta, CmdSound;
    if 0 < field < |b| && !InEntry(cmds, field) && !InDelta(b, cmds, field) {
      ByteKept(b, cmds, grow, insert, field);
    }
  }
}
