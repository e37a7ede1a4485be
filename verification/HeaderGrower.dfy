/** mg_grow_header as it runs: refusals before anything changes, then the passes in place. */
module HeaderGrower {
  import opened ByteStrings
  import opened Words
  import opened HeaderGrowth
  import Uleb
  import FunctionStarts
  import ExportTrie

  method FirstSectionOffset(cmds: seq<Cmd>) returns (r: nat)
    ensures r == FirstSection(cmds)
  {
    var first: nat := NO_SECTION;
    var i := 0;
    assert cmds[0..] == cmds;
    while i < |cmds|
      invariant 0 <= i <= |cmds| && LeastOffset(cmds, NO_SECTION) == LeastOffset(cmds[i..], first)
    {
      assert cmds[i..][0] == cmds[i] && cmds[i..][1..] == cmds[i + 1..];
      if cmds[i].Segment? { first := LeastInSegment(cmds[i].sects, first); }
      i := i + 1;
    }
    r := if first == NO_SECTION then 4096 else first;
  }

  method LeastInSegment(sects: seq<Sect>, a: nat) returns (r: nat)
    ensures r == LeastOfSects(sects, a)
  {
    r := a;
    var j := 0;
    assert sects[0..] == sects;
    while j < |sects|
      invariant 0 <= j <= |sects| && LeastOfSects(sects, a) == LeastOfSects(sects[j..], r)
    {
      assert sects[j..][0] == sects[j] && sects[j..][1..] == sects[j + 1..];
      r := Least(r, sects[j].offset);
      j := j + 1;
    }
  }

  /** Finding the donor and the segment that maps the header. */
  method FindDonor(cmds: seq<Cmd>, grow: nat) returns (ok: bool)
    ensures ok == Donor(cmds, grow)
  {
    var pagezero, text := -1, -1;
    var i := 0;
    while i < |cmds|
      invariant 0 <= i <= |cmds| && -1 <= pagezero < i && -1 <= text < i
      invariant text >= 0 ==> HoldsHeader(cmds[text])
      invariant text < 0 ==> forall j :: 0 <= j < i ==> !HoldsHeader(cmds[j])
      invariant pagezero >= 0 ==> IsPagezero(cmds[pagezero])
      invariant forall j :: pagezero < j < i ==> !IsPagezero(cmds[j])
    {
      if IsPagezero(cmds[i]) { pagezero := i; } else if HoldsHeader(cmds[i]) { text := i; }
      i := i + 1;
    }
    ok := text >= 0 && pagezero >= 0 && cmds[pagezero].vmsize >= grow;
    if pagezero >= 0 { assert LastPagezero(cmds, pagezero); }
  }

  method FindStarts(cmds: seq<Cmd>) returns (d: (nat, nat))
    ensures d == StartsOf(cmds)
  {
    var i := 0;
    assert cmds[0..] == cmds;
    while i < |cmds|
      invariant 0 <= i <= |cmds| && StartsOf(cmds) == StartsOf(cmds[i..])
    {
      assert cmds[i..][0] == cmds[i] && cmds[i..][1..] == cmds[i + 1..];
      if cmds[i].Starts? { return (cmds[i].dataoff, cmds[i].datasize); }
      i := i + 1;
    }
    d := (0, 0);
  }

  method FindTrie(cmds: seq<Cmd>) returns (d: (nat, nat))
    ensures d == TrieOf(cmds)
  {
    var i := 0;
    assert cmds[0..] == cmds;
    while i < |cmds|
      invariant 0 <= i <= |cmds| && TrieOf(cmds) == TrieOf(cmds[i..])
    {
      assert cmds[i..][0] == cmds[i] && cmds[i..][1..] == cmds[i + 1..];
      if cmds[i].DyldInfo? { return (cmds[i].exportOff, cmds[i].exportSize); }
      if cmds[i].Trie? { return (cmds[i].dataoff, cmds[i].datasize); }
      i := i + 1;
    }
    d := (0, 0);
  }

  // ------------------------------------------------- the audit of entries

  /** No entry among ps would overflow. */
  ghost predicate NoOverflow(b: Bytes, ps: seq<nat>, grow: nat) {
    forall i :: 0 <= i < |ps| && ps[i] + 4 <= |b| ==> Word(b, ps[i], 4) + grow < TWO32
  }

  lemma NoOverflowJoin(b: Bytes, p: seq<nat>, q: seq<nat>, grow: nat)
    ensures NoOverflow(b, p + q, grow) <==> NoOverflow(b, p, grow) && NoOverflow(b, q, grow)
  {
    hide Word;
    if NoOverflow(b, p + q, grow) {
      assert forall i :: 0 <= i < |p| ==> (p + q)[i] == p[i];
      assert forall i :: 0 <= i < |q| ==> (p + q)[|p| + i] == q[i];
    }
  }

  method AuditSect(buf: array<Byte>, s: Sect, grow: nat) returns (ok: bool)
    ensures ok == (SectOk(s, buf.Length) && NoOverflow(buf[..], SectEntries(s), grow))
  {
    hide Word;
    if !s.initOffsets { return true; }
    if s.size % 4 != 0 || s.offset + s.size > buf.Length { return false; }
    var n := s.size / 4;
    var k := 0;
    while k < n
      invariant 0 <= k <= n && forall j :: 0 <= j < k ==> Word(buf[..], SectEntries(s)[j], 4) + grow < TWO32
    {
      var e := Load(buf, s.offset + 4 * k, 4);
      assert SectEntries(s)[k] == s.offset + 4 * k;
      if e + grow >= TWO32 { return false; }
      k := k + 1;
    }
    ok := true;
  }

  method AuditSects(buf: array<Byte>, sects: seq<Sect>, grow: nat) returns (ok: bool)
    ensures ok == (SectsOk(sects, buf.Length) && NoOverflow(buf[..], EntriesOfSects(sects), grow))
  {
    hide NoOverflow, SectOk, SectEntries;
    var j := 0;
    assert sects[0..] == sects;
    while j < |sects|
      invariant 0 <= j <= |sects| && forall i :: 0 <= i < j ==> SectOk(sects[i], buf.Length)
      invariant NoOverflow(buf[..], EntriesOfSects(sects), grow) ==
          NoOverflow(buf[..], EntriesOfSects(sects[j..]), grow)
    {
      assert sects[j..][0] == sects[j] && sects[j..][1..] == sects[j + 1..];
      NoOverflowJoin(buf[..], SectEntries(sects[j]), EntriesOfSects(sects[j + 1..]), grow);
      ok := AuditSect(buf, sects[j], grow);
      if !ok { return; }
      j := j + 1;
    }
    NoneOverflow(buf[..], EntriesOfSects(sects[j..]), grow);
    ok := true;
  }

  lemma NoneOverflow(b: Bytes, ps: seq<nat>, grow: nat)
    requires |ps| == 0
    ensures NoOverflow(b, ps, grow)
  {}

  /** mg_init_offsets_pass with patch == 0. */
  method Audit(buf: array<Byte>, cmds: seq<Cmd>, grow: nat) returns (ok: bool)
    ensures ok == AuditOk(buf[..], cmds, grow)
  {
    hide NoOverflow, SectsOk, EntriesOfSects;
    var i := 0;
    assert cmds[0..] == cmds;
    while i < |cmds|
      invariant 0 <= i <= |cmds|
      invariant forall j :: 0 <= j < i && cmds[j].Segment? ==> SectsOk(cmds[j].sects, buf.Length)
      invariant NoOverflow(buf[..], Entries(cmds), grow) == NoOverflow(buf[..], Entries(cmds[i..]), grow)
    {
      assert cmds[i..][0] == cmds[i] && cmds[i..][1..] == cmds[i + 1..];
      NoOverflowJoin(buf[..], CmdEntries(cmds[i]), Entries(cmds[i + 1..]), grow);
      AuditMeans(buf[..], cmds, grow);
      if cmds[i].Segment? {
        ok := AuditSects(buf, cmds[i].sects, grow);
        if !ok { return; }
      } else {
        NoneOverflow(buf[..], CmdEntries(cmds[i]), grow);
      }
      i := i + 1;
    }
    NoneOverflow(buf[..], Entries(cmds[i..]), grow);
    AuditMeans(buf[..], cmds, grow);
    ok := true;
  }

  lemma AuditMeans(b: Bytes, cmds: seq<Cmd>, grow: nat)
    ensures AuditOk(b, cmds, grow) <==> InitsOk(cmds, |b|) && NoOverflow(b, Entries(cmds), grow)
  {
    hide Word, Entries, InitsOk;
    if AuditOk(b, cmds, grow) {
      forall i | 0 <= i < |Entries(cmds)| && Entries(cmds)[i] + 4 <= |b|
        ensures Word(b, Entries(cmds)[i], 4) + grow < TWO32
      {
        assert Entries(cmds)[i] in Entries(cmds);
      }
    }
  }

  // ------------------------------------------------------ the patching pass

  /** The entries ps have been re-pointed, in this order. */
  ghost predicate Added(b: Bytes, c: Bytes, ps: seq<nat>, grow: nat) {
    InFile(b, ps, 4) && c == AddAll(b, ps, 4, TWO32, grow)
  }

  lemma AddedOne(b: Bytes, c: Bytes, ps: seq<nat>, p: nat, grow: nat)
    requires Added(b, c, ps, grow) && p + 4 <= |b|
    ensures p + 4 <= |c| && Added(b, Put(c, p, 4, (Word(c, p, 4) + grow) % TWO32), ps + [p], grow)
  {
    AddAllAppend(b, ps, p, 4, TWO32, grow);
  }

  method PatchSect(buf: array<Byte>, s: Sect, grow: nat, ghost b: Bytes, ghost ps: seq<nat>)
    requires SectOk(s, buf.Length) && buf.Length == |b| && Added(b, buf[..], ps, grow)
    modifies buf
    ensures Added(b, buf[..], ps + SectEntries(s), grow)
  {
    hide Added, Word, Put;
    assert ps + [] == ps;
    if !s.initOffsets { return; }
    var n := s.size / 4;
    ghost var all := SectEntries(s);
    var k := 0;
    assert all[..0] == [];
    while k < n
      invariant 0 <= k <= n && Added(b, buf[..], ps + all[..k], grow)
    {
      ghost var c := buf[..];
      var p := s.offset + 4 * k;
      var e := Load(buf, p, 4);
      AddedOne(b, c, ps + all[..k], p, grow);
      Store(buf, p, 4, (e + grow) % TWO32);
      assert ps + all[..k] + [p] == ps + all[..k + 1];
      k := k + 1;
    }
    assert all[..n] == all;
  }

  method PatchSects(buf: array<Byte>, sects: seq<Sect>, grow: nat, ghost b: Bytes, ghost ps: seq<nat>)
    requires SectsOk(sects, buf.Length) && buf.Length == |b| && Added(b, buf[..], ps, grow)
    modifies buf
    ensures Added(b, buf[..], ps + EntriesOfSects(sects), grow)
  {
    hide Added, SectEntries, SectOk;
    ghost var done, all := ps, ps + EntriesOfSects(sects);
    var j := 0;
    assert sects[0..] == sects;
    while j < |sects|
      invariant 0 <= j <= |sects| && Added(b, buf[..], done, grow) && done + EntriesOfSects(sects[j..]) == all
    {
      assert sects[j..][0] == sects[j] && sects[j..][1..] == sects[j + 1..];
      ghost var here := SectEntries(sects[j]);
      assert done + (here + EntriesOfSects(sects[j + 1..])) == done + here + EntriesOfSects(sects[j + 1..]);
      PatchSect(buf, sects[j], grow, b, done);
      done := done + here;
      j := j + 1;
    }
    assert done + [] == done;
  }

  /** mg_init_offsets_pass with patch == 1; its two checks cannot fail after the audit. */
  method PatchInits(buf: array<Byte>, cmds: seq<Cmd>, grow: nat)
    requires InitsOk(cmds, buf.Length)
    modifies buf
    ensures Added(old(buf[..]), buf[..], Entries(cmds), grow)
  {
    hide Added, EntriesOfSects, SectsOk, CmdEntries, Entries, AddAll, InFile;
    ghost var b := buf[..];
    AddedNone(b, grow);
    ghost var done: seq<nat>, all := [], Entries(cmds);
    var i := 0;
    assert cmds[0..] == cmds && done + all == all;
    while i < |cmds|
      invariant 0 <= i <= |cmds| && Added(b, buf[..], done, grow) && done + Entries(cmds[i..]) == all
    {
      ghost var here := CmdEntries(cmds[i]);
      EntriesStep(cmds, i, done);
      if cmds[i].Segment? { PatchSects(buf, cmds[i].sects, grow, b, done); }
      done := done + here;
      i := i + 1;
    }
    EntriesStep(cmds, i, done);
  }

  lemma AddedNone(b: Bytes, grow: nat)
    ensures Added(b, b, [], grow)
  {}

  lemma EntriesStep(cmds: seq<Cmd>, i: nat, done: seq<nat>)
    requires i <= |cmds|
    ensures i == |cmds| ==> done + Entries(cmds[i..]) == done
    ensures i < |cmds| ==> done + Entries(cmds[i..]) == done + CmdEntries(cmds[i]) + Entries(cmds[i + 1..])
    ensures i < |cmds| && cmds[i].Segment? ==> CmdEntries(cmds[i]) == EntriesOfSects(cmds[i].sects)
    ensures i < |cmds| && !cmds[i].Segment? ==> done + CmdEntries(cmds[i]) == done
  {
    hide EntriesOfSects;
    if i < |cmds| {
      assert cmds[i..][0] == cmds[i] && cmds[i..][1..] == cmds[i + 1..];
      assert done + (CmdEntries(cmds[i]) + Entries(cmds[i + 1..])) ==
          done + CmdEntries(cmds[i]) + Entries(cmds[i + 1..]);
    }
  }

  // ------------------------------------------------------------- the grow

  /** realloc, memmove and memset. */
  method OpenGap(buf: array<Byte>, insert: nat, grow: nat) returns (r: array<Byte>)
    requires insert <= buf.Length
    ensures fresh(r) && r[..] == Opened(buf[..], insert, grow)
  {
    r := new Byte[buf.Length + grow];
    forall k | 0 <= k < r.Length {
      r[k] := if k < insert then buf[k] else if k < insert + grow then 0 else buf[k - grow];
    }
    assert r[..insert] == buf[..insert];
    assert r[insert..insert + grow] == Zeros(grow);
    assert r[insert + grow..] == buf[insert..];
    assert r[..] == r[..insert] + r[insert..insert + grow] + r[insert + grow..];
  }

  method WalkHeader(cmds: seq<Cmd>, insert: nat, grow: nat) returns (r: seq<Cmd>)
    requires grow < TWO32
    ensures r == BumpAll(cmds, insert, grow)
  {
    hide BumpCmd;
    r := cmds;
    var i := 0;
    while i < |cmds|
      invariant 0 <= i <= |cmds| == |r|
      invariant forall j :: 0 <= j < i ==> r[j] == BumpCmd(cmds[j], insert, grow)
      invariant forall j :: i <= j < |r| ==> r[j] == cmds[j]
    {
      r := r[i := BumpCmd(r[i], insert, grow)];
      i := i + 1;
    }
  }

  /** The function-starts pass; the audit has shown that it patches. */
  method FixStarts(buf: array<Byte>, at: nat, n: nat, grow: nat)
    requires at + n <= buf.Length && FunctionStarts.Reencode(Blob(buf[..], (at, n)), grow).Patched?
    modifies buf
    ensures buf[..] == Splice(old(buf[..]), at, FunctionStarts.Reencode(Blob(old(buf[..]), (at, n)), grow).blob)
  {
    hide FunctionStarts.Reencode;
    ghost var a := buf[..];
    assert buf[at..at + n] == Blob(a, (at, n));
    var r := FunctionStarts.ReencodeBase(buf, at, at + n, grow);
    assert buf[at..at + n] == buf[..][at..at + n];
    Rejoined(a, buf[..], at, n);
  }

  class Image {
    var data: array<Byte>
    var header: Header

    constructor (data: array<Byte>, header: Header)
      ensures this.data == data && this.header == header
    {
      this.data, this.header := data, header;
    }

    /** The function-starts and trie audits. */
    method AuditBlobs(grow: nat) returns (ok: bool)
      requires Readable(data[..], header.cmds)
      ensures ok == (StartsFit(data[..], header.cmds, grow) && TrieSafe(data[..], header.cmds))
    {
      hide ExportTrie.Scan, FunctionStarts.Reencode;
      ok := true;
      var s := FindStarts(header.cmds);
      if Present(s) {
        assert data[s.0..s.0 + s.1] == Blob(data[..], s);
        var d := Uleb.DecodeAt(data, s.0, s.0 + s.1);
        ReencodeWhen(Blob(data[..], s), grow);
        if d.Malformed? { return false; }
        var least := Uleb.MinLength((d.value + grow) % TWO64);
        if least > d.len { return false; }
      }
      var t := FindTrie(header.cmds);
      if Present(t) {
        assert data[t.0..t.0 + t.1] == Blob(data[..], t);
        var v := ExportTrie.ScanTrie(data, t.0, t.0 + t.1, 0, 0);
        ok := v == ExportTrie.Safe;
      }
    }

    /**
     * mg_grow_header: 0 with nothing to do, -1 with everything as it was, or 0 with the whole
     * change made. There is no failure once the resize has happened.
     */
    method Grow(req: nat) returns (r: int)
      requires Readable(data[..], header.cmds)
      requires var p := PlanFor(header, data[..], req); p.Go? ==> Sound(header.cmds, data.Length, p.grow, p.insert)
      modifies this
      ensures var p := PlanFor(old(header), old(data[..]), req);
        && (p.Go? || (r == (if p.Refuse? then -1 else 0) && data == old(data) && header == old(header)))
        && (p.Go? ==>
              && r == 0 && fresh(data)
              && header == old(header).(cmds := BumpAll(old(header.cmds), p.insert, p.grow))
              && InitsOk(old(header.cmds), old(data.Length))
              && StartsFit(old(data[..]), old(header.cmds), p.grow)
              && data[..] == Grown(old(data[..]), old(header.cmds), p.grow, p.insert))
    {
      hide Sound, AuditOk, StartsFit, TrieSafe, Donor, BumpAll, Grown, Opened, InitsOk, FirstSection, PageRound,
          Readable;
      var grow := PageRound(req);
      if grow == 0 { return 0; }
      if !header.magicOk || !header.execute || !header.pie { return -1; }
      var insert := FirstSectionOffset(header.cmds);
      if insert < (HEADER_SIZE + header.sizeofcmds) % TWO32 { return -1; }
      var donor := FindDonor(header.cmds, grow);
      if !donor { return -1; }
      var blobs := AuditBlobs(grow);
      if !blobs { return -1; }
      var inits := Audit(data, header.cmds, grow);
      if !inits { return -1; }
      Commit(grow, insert);
      r := 0;
    }

    method Commit(grow: nat, insert: nat)
      requires Readable(data[..], header.cmds) && grow < TWO32
      requires Sound(header.cmds, data.Length, grow, insert) && AuditOk(data[..], header.cmds, grow)
      requires StartsFit(data[..], header.cmds, grow)
      modifies this
      ensures fresh(data) && header == old(header).(cmds := BumpAll(old(header.cmds), insert, grow))
      ensures InitsOk(old(header.cmds), old(data.Length))
      ensures data[..] == Grown(old(data[..]), old(header.cmds), grow, insert)
    {
      hide Sound, StartsFit, BumpAll, Grown, Opened, Readable, Added, InitsOk, Repointed, AuditOk, NoOverflow, Entries,
           FunctionStarts.Reencode, Splice, Blob, StartsOf, Shift;
      ghost var b, cmds := data[..], header.cmds;
      GapInside(cmds, |b|, grow, insert);
      AuditMeans(b, cmds, grow);
      var starts := FindStarts(header.cmds);
      var moved := OpenGap(data, insert, grow);
      var walked := WalkHeader(header.cmds, insert, grow);
      MovedInits(cmds, insert, grow, |b|);
      PatchInits(moved, walked, grow);
      AddedRepoints(b, moved[..], cmds, grow, insert);
      GrownParts(b, cmds, grow, insert);
      if Present(starts) { FixStarts(moved, starts.0 + grow, starts.1, grow); }
      data, header := moved, header.(cmds := walked);
    }
  }

  lemma ReencodeWhen(blob: Bytes, grow: nat)
    ensures var d := Uleb.Decode(blob);
      FunctionStarts.Reencode(blob, grow).Patched? <==> d.Decoded? && Uleb.MinLen((d.value + grow) % TWO64) <= d.len
  {
    hide Uleb.Decode, Uleb.MinLen;
  }

  lemma GapInside(cmds: seq<Cmd>, size: nat, grow: nat, insert: nat)
    requires Sound(cmds, size, grow, insert)
    ensures insert <= size && size + grow < TWO32
  {}

  lemma MovedInits(cmds: seq<Cmd>, insert: nat, grow: nat, size: nat)
    requires Sound(cmds, size, grow, insert) && InitsOk(cmds, size) && grow < TWO32
    ensures InitsOk(BumpAll(cmds, insert, grow), size + grow)
    ensures Entries(BumpAll(cmds, insert, grow)) == Shift(Entries(cmds), grow)
  {
    hide BumpAll, Entries, InitsOk, CmdsSound, BlobsApart;
    EntriesShifted(cmds, insert, grow, size);
  }

  lemma AddedRepoints(b: Bytes, c: Bytes, cmds: seq<Cmd>, grow: nat, insert: nat)
    requires Sound(cmds, |b|, grow, insert) && InitsOk(cmds, |b|) && insert <= |b|
    requires Added(Opened(b, insert, grow), c, Shift(Entries(cmds), grow), grow)
    ensures c == Repointed(b, cmds, grow, insert)
  {
    hide Opened, AddAll, Entries, CmdsSound, BlobsApart;
  }

  /** The finished file in terms of the re-pointed one. */
  lemma GrownParts(b: Bytes, cmds: seq<Cmd>, grow: nat, insert: nat)
    requires Sound(cmds, |b|, grow, insert) && InitsOk(cmds, |b|) && Readable(b, cmds) && StartsFit(b, cmds, grow)
    ensures var a, d, g := Repointed(b, cmds, grow, insert), StartsOf(cmds), Grown(b, cmds, grow, insert);
      if !Present(d) then g == a
      else
        && d.0 + d.1 + grow <= |a|
        && FunctionStarts.Reencode(Blob(a, (d.0 + grow, d.1)), grow).Patched?
        && g == Splice(a, d.0 + grow, FunctionStarts.Reencode(Blob(a, (d.0 + grow, d.1)), grow).blob)
  {
    hide Entries, Repointed, CmdsSound, InitsOk, FunctionStarts.Reencode, BlobsApart;
    if Present(StartsOf(cmds)) { StartsArrive(b, cmds, grow, insert); }
  }

  lemma Rejoined(a: Bytes, c: Bytes, at: nat, n: nat)
    requires |a| == |c| && at + n <= |a|
    requires forall k :: 0 <= k < |a| && !(at <= k < at + n) ==> c[k] == a[k]
    ensures c == Splice(a, at, c[at..at + n])
  {}
}
