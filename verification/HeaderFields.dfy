/**
 * What the header walk makes of each field of each load command, field by field: every file
 * offset follows its data, and everything that is no file offset stays as it was.
 */
module HeaderFields {
  import opened ByteStrings
  import opened Words
  import opened HeaderGrowth
  import FunctionStarts

  /** The file offsets a load command may hold, by the names of their structures. */
  datatype Field =
    | SectionOffset(j: nat) | SectionReloff(j: nat)
    | Symoff | Stroff
    | Tocoff | Modtaboff | Extrefsymoff | Indirectsymoff | Extreloff | Locreloff
    | RebaseOff | BindOff | WeakBindOff | LazyBindOff | ExportOff
    | Entryoff
    | StartsData | TrieData | OtherData

  predicate Has(c: Cmd, n: Field) {
    match n
    case SectionOffset(j) => c.Segment? && j < |c.sects|
    case SectionReloff(j) => c.Segment? && j < |c.sects|
    case Symoff => c.Symtab?
    case Stroff => c.Symtab?
    case Tocoff => c.Dysymtab?
    case Modtaboff => c.Dysymtab?
    case Extrefsymoff => c.Dysymtab?
    case Indirectsymoff => c.Dysymtab?
    case Extreloff => c.Dysymtab?
    case Locreloff => c.Dysymtab?
    case RebaseOff => c.DyldInfo?
    case BindOff => c.DyldInfo?
    case WeakBindOff => c.DyldInfo?
    case LazyBindOff => c.DyldInfo?
    case ExportOff => c.DyldInfo?
    case Entryoff => c.EntryPoint?
    case StartsData => c.Starts?
    case TrieData => c.Trie?
    case OtherData => c.LinkeditData?
  }

  function Value(c: Cmd, n: Field): nat
    requires Has(c, n)
  {
    match n
    case SectionOffset(j) => c.sects[j].offset
    case SectionReloff(j) => c.sects[j].reloff
    case Symoff => c.symoff
    case Stroff => c.stroff
    case Tocoff => c.tocoff
    case Modtaboff => c.modtaboff
    case Extrefsymoff => c.extrefsymoff
    case Indirectsymoff => c.indirectsymoff
    case Extreloff => c.extreloff
    case Locreloff => c.locreloff
    case RebaseOff => c.rebaseOff
    case BindOff => c.bindOff
    case WeakBindOff => c.weakOff
    case LazyBindOff => c.lazyOff
    case ExportOff => c.exportOff
    case Entryoff => c.entryoff
    case StartsData => c.dataoff
    case TrieData => c.dataoff
    case OtherData => c.dataoff
  }

  /** Zero means absent and stays zero. */
  predicate Moved(was: nat, now: nat, grow: nat) { now == if was == 0 then 0 else was + grow }

  lemma SectionFields(s: Sect, insert: nat, grow: nat, size: nat)
    requires SectSound(s, insert, size) && 0 < insert && size + grow < TWO32
    ensures var t := BumpSect(s, insert, grow);
      && Moved(s.offset, t.offset, grow) && Moved(s.reloff, t.reloff, grow)
      && t == s.(offset := t.offset, reloff := t.reloff)
  {}

  /** Each file offset of the command is where it was, plus grow. */
  lemma FieldMoves(c: Cmd, n: Field, insert: nat, grow: nat, size: nat)
    requires CmdSound(c, insert, size) && Has(c, n) && 0 < insert && size + grow < TWO32
    ensures var d := BumpCmd(c, insert, grow); Has(d, n) && Moved(Value(c, n), Value(d, n), grow)
  {
    if c.Segment? {
      SegmentField(c, n, insert, grow, size);
    } else {
      hide Bump, FieldSound, Moved;
      BumpMoves(insert, grow, size);
      if c.EntryPoint? { BumpEntry(c, insert, grow, size); }
    }
  }

  lemma BumpMoves(insert: nat, grow: nat, size: nat)
    requires 0 < insert && size + grow < TWO32
    ensures forall off: nat :: FieldSound(off, insert, size) ==> Moved(off, Bump(off, insert, grow), grow)
  {}

  lemma BumpEntry(c: Cmd, insert: nat, grow: nat, size: nat)
    requires c.EntryPoint? && CmdSound(c, insert, size) && 0 < insert && size + grow < TWO32
    ensures Moved(c.entryoff, Bump(c.entryoff % TWO32, insert, grow), grow)
  {}

  lemma SegmentField(c: Cmd, n: Field, insert: nat, grow: nat, size: nat)
    requires c.Segment? && CmdSound(c, insert, size) && Has(c, n) && 0 < insert && size + grow < TWO32
    ensures var d := BumpCmd(c, insert, grow); Has(d, n) && Moved(Value(c, n), Value(d, n), grow)
  {
    hide BumpSect, SectSound, FieldSound, Moved, IsPagezero, HoldsHeader, Add64, Sub64;
    SectionFields(c.sects[n.j], insert, grow, size);
  }

  /** What is no file offset of a section, table or blob: names, sizes, addresses, kinds. */
  predicate RestKept(c: Cmd, d: Cmd, grow: nat) {
    match c
    case Segment(name, vmaddr, vmsize, fileoff, filesize, sects) =>
      && d.Segment? && d.name == name && |d.sects| == |sects|
      && (forall j :: 0 <= j < |sects| ==>
            d.sects[j].addr == sects[j].addr && d.sects[j].size == sects[j].size
            && d.sects[j].initOffsets == sects[j].initOffsets)
      && SegmentMoved(c, d, grow)
    case Symtab(_, _) => d.Symtab?
    case Dysymtab(_, _, _, _, _, _) => d.Dysymtab?
    case DyldInfo(_, _, _, _, _, n) => d.DyldInfo? && d.exportSize == n
    case EntryPoint(_) => d.EntryPoint?
    case Starts(_, n) => d.Starts? && d.datasize == n
    case Trie(_, n) => d.Trie? && d.datasize == n
    case LinkeditData(_) => d.LinkeditData?
    case Opaque => d.Opaque?
  }

  /**
   * __PAGEZERO shrinks, the segment that holds the header grows downwards in memory and
   * upwards in the file, and any other segment moves in the file alone.
   */
  predicate SegmentMoved(c: Cmd, d: Cmd, grow: nat)
    requires c.Segment? && d.Segment?
  {
    if c.name == "__PAGEZERO" then
      d.vmaddr == c.vmaddr && d.vmsize + grow == c.vmsize && d.fileoff == c.fileoff && d.filesize == c.filesize
    else if c.fileoff == 0 && c.filesize > 0 then
      d.vmaddr + grow == c.vmaddr && d.vmsize == c.vmsize + grow && d.fileoff == 0 && d.filesize == c.filesize + grow
    else
      d.vmaddr == c.vmaddr && d.vmsize == c.vmsize && Moved(c.fileoff, d.fileoff, grow) && d.filesize == c.filesize
  }

  /** The segment has what is taken from it: memory to give, or room below to grow into. */
  predicate CanGive(c: Cmd, grow: nat) {
    c.Segment? ==>
      && (IsPagezero(c) ==> grow <= c.vmsize)
      && (HoldsHeader(c) ==> grow <= c.vmaddr && c.vmsize + grow < TWO64 && c.filesize + grow < TWO64)
  }

  lemma RestMoves(c: Cmd, insert: nat, grow: nat, size: nat)
    requires CmdSound(c, insert, size) && CanGive(c, grow) && 0 < insert && size + grow < TWO32
    ensures RestKept(c, BumpCmd(c, insert, grow), grow)
  {
    hide BumpSect;
    if c.Segment? {
      forall j | 0 <= j < |c.sects|
        ensures var s, t := c.sects[j], BumpCmd(c, insert, grow).sects[j];
          t.addr == s.addr && t.size == s.size && t.initOffsets == s.initOffsets
      {
        SectionFields(c.sects[j], insert, grow, size);
      }
      SegmentMoves(c, insert, grow, size);
    }
  }

  lemma SegmentMoves(c: Cmd, insert: nat, grow: nat, size: nat)
    requires c.Segment? && CmdSound(c, insert, size) && CanGive(c, grow) && 0 < insert && size + grow < TWO32
    ensures SegmentMoved(c, BumpCmd(c, insert, grow), grow)
  {
    hide SectSound, BumpSects;
  }

  /**
   * After the grow each file offset of each command points at the data it pointed at, initializer
   * entries and the leading function-starts delta apart; an absent one stays absent, and the
   * rest of the command is as it was.
   */
  lemma HeaderFollows(b: Bytes, cmds: seq<Cmd>, grow: nat, insert: nat, i: nat, n: Field)
    requires Sound(cmds, |b|, grow, insert) && InitsOk(cmds, |b|) && Readable(b, cmds) && StartsFit(b, cmds, grow)
    requires i < |cmds|
    ensures CanGive(cmds[i], grow) ==> RestKept(cmds[i], BumpAll(cmds, insert, grow)[i], grow)
    ensures Has(cmds[i], n) ==>
      && Has(BumpAll(cmds, insert, grow)[i], n)
      && var was, now := Value(cmds[i], n), Value(BumpAll(cmds, insert, grow)[i], n);
         && Moved(was, now, grow)
         && (0 < was < |b| && !InEntry(cmds, was) && !InDelta(b, cmds, was) ==>
               now < |Grown(b, cmds, grow, insert)| && Grown(b, cmds, grow, insert)[now] == b[was])
  {
    hide BumpCmd, RestKept, Grown, BlobsApart, InitsOk, StartsFit, Readable, InEntry, InDelta, CmdSound, CanGive;
    if CanGive(cmds[i], grow) { RestMoves(cmds[i], insert, grow, |b|); }
    if Has(cmds[i], n) {
      FieldMoves(cmds[i], n, insert, grow, |b|);
      var was := Value(cmds[i], n);
      FieldInside(cmds[i], n, insert, |b|);
      if 0 < was < |b| && !InEntry(cmds, was) && !InDelta(b, cmds, was) {
        ByteKept(b, cmds, grow, insert, was);
      }
    }
  }

  lemma FieldInside(c: Cmd, n: Field, insert: nat, size: nat)
    requires CmdSound(c, insert, size) && Has(c, n)
    ensures Value(c, n) == 0 || insert <= Value(c, n) <= size
  {
    if c.Segment? { assert SectSound(c.sects[n.j], insert, size); }
  }
}
