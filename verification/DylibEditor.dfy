/** change_dylib: build_lcs, the ordinal map, and renumber_ordinals on a loaded image. */
module DylibEditor {
  import opened ByteStrings
  import opened Dylibs
  import Uleb
  import B = BindOpcodes

  // ------------------------------------------------------ the command table

  /** The first change naming the path, as the nested comparison loops find it. */
  method FindChange(ch: seq<Change>, path: string) returns (n: nat)
    ensures n == FirstMatch(ch, path)
  {
    n := 0;
    assert ch[0..] == ch;
    while n < |ch|
      invariant n <= |ch| && FirstMatch(ch, path) == n + FirstMatch(ch[n..], path)
    {
      assert ch[n..][0] == ch[n] && ch[n..][1..] == ch[n + 1..];
      if ch[n].oldPath == path { return; }
      n := n + 1;
    }
  }

  method IsStripped(o: Options, c: Cmd) returns (r: bool)
    ensures r == Stripped(o, c)
  {
    if !c.kind.Other? { return false; }
    var i := 0;
    while i < |o.strip|
      invariant 0 <= i <= |o.strip| && c.kind.cmd !in o.strip[..i]
    {
      if c.kind.cmd == o.strip[i] { return true; }
      i := i + 1;
    }
    r := false;
  }

  /** One command of the walk: what is emitted for it, and whether a change applied. */
  method EmitOne(o: Options, c: Cmd) returns (r: seq<Cmd>, applied: bool)
    requires !Stripped(o, c)
    ensures r == Emitted(o, c) && applied == Touched(o, c)
  {
    var ch: seq<Change> := [];
    if c.kind.Rpath? {
      ch := o.rchanges;
    } else if c.kind.Load? || c.kind.Weak? || c.kind.Reexport? {
      ch := o.changes;
    }
    var n := FindChange(ch, c.path);
    if n == |ch| { return [c], false; }
    if ch[n].newPath.Delete? { return [], true; }
    r, applied := [WithChange(c, ch[n])], true;
  }

  lemma BuildStep(o: Options, cmds: seq<Cmd>, i: nat, placed: bool)
    requires i < |cmds|
    ensures var here := !placed && |o.inserts| > 0 && !Stripped(o, cmds[i]) && IsOrdinal(cmds[i]);
      Build(o, cmds[i..], placed) ==
      (if here then Loads(o.inserts) else []) + Emitted(o, cmds[i]) + Build(o, cmds[i + 1..], placed || here)
  {
    hide Emitted, Stripped, Loads;
    assert cmds[i..][1..] == cmds[i + 1..];
  }

  method EmitLoads(table: seq<Cmd>, off: nat, paths: seq<string>) returns (t: seq<Cmd>, newOff: nat)
    requires off == TotalSize(table)
    ensures t == table + Loads(paths) && |t| == |table| + |paths| && newOff == TotalSize(t)
  {
    hide TotalSize, Loads, Rpaths, Align8;
    t, newOff := table, off;
    var i := 0;
    assert paths[0..] == paths && table + Loads(paths) == t + Loads(paths[0..]);
    while i < |paths|
      invariant 0 <= i <= |paths|
      invariant |t| == |table| + i && table + Loads(paths) == t + Loads(paths[i..]) && newOff == TotalSize(t)
    {
      var c := DylibCmd(paths[i]);
      LoadsStep(t, paths, i);
      SizeOne(t, c);
      t, newOff, i := t + [c], newOff + c.size, i + 1;
    }
    LoadsEnd(paths[i..], t);
  }

  lemma LoadsStep(t: seq<Cmd>, paths: seq<string>, i: nat)
    requires i < |paths|
    ensures t + Loads(paths[i..]) == t + [DylibCmd(paths[i])] + Loads(paths[i + 1..])
  {
    assert paths[i..][1..] == paths[i + 1..];
  }

  lemma LoadsEnd(none: seq<string>, t: seq<Cmd>)
    requires |none| == 0
    ensures t + Loads(none) == t
  {}

  method EmitRpaths(table: seq<Cmd>, off: nat, paths: seq<string>) returns (t: seq<Cmd>, newOff: nat)
    requires off == TotalSize(table)
    ensures t == table + Rpaths(paths) && |t| == |table| + |paths| && newOff == TotalSize(t)
  {
    hide TotalSize, Loads, Rpaths, Align8;
    t, newOff := table, off;
    var i := 0;
    assert paths[0..] == paths && table + Rpaths(paths) == t + Rpaths(paths[0..]);
    while i < |paths|
      invariant 0 <= i <= |paths|
      invariant |t| == |table| + i && table + Rpaths(paths) == t + Rpaths(paths[i..]) && newOff == TotalSize(t)
    {
      var c := RpathCmd(paths[i]);
      RpathsStep(t, paths, i);
      SizeOne(t, c);
      t, newOff, i := t + [c], newOff + c.size, i + 1;
    }
    RpathsEnd(paths[i..], t);
  }

  lemma RpathsStep(t: seq<Cmd>, paths: seq<string>, i: nat)
    requires i < |paths|
    ensures t + Rpaths(paths[i..]) == t + [RpathCmd(paths[i])] + Rpaths(paths[i + 1..])
  {
    assert paths[i..][1..] == paths[i + 1..];
  }

  lemma RpathsEnd(none: seq<string>, t: seq<Cmd>)
    requires |none| == 0
    ensures t + Rpaths(none) == t
  {}

  /** build_lcs: the new table, its size in bytes, its number of commands, and how many changes were made. */
  method BuildLcs(o: Options, cmds: seq<Cmd>) returns (table: seq<Cmd>, off: nat, ncmds: nat, mods: nat)
    ensures table == NewTable(o, cmds) && off == TotalSize(table) && ncmds == |table|
    ensures mods == 0 <==> Unchanging(o, cmds)
  {
    hide Emitted, Stripped, Touched, Build, TotalSize, Loads, Rpaths;
    table, off, ncmds, mods := [], TotalSize([]), |cmds|, 0;
    var placed := false;
    var i := 0;
    assert cmds[0..] == cmds;
    while i < |cmds|
      invariant 0 <= i <= |cmds| && off == TotalSize(table) && ncmds == |table| + |cmds| - i
      invariant placed ==> |o.inserts| > 0
      invariant NewTable(o, cmds) == table + Build(o, cmds[i..], placed)
      invariant mods == 0 <==> !placed && forall j :: 0 <= j < i ==> !Touched(o, cmds[j])
    {
      var c := cmds[i];
      BuildStep(o, cmds, i, placed);
      ghost var done, rest := table, Build(o, cmds[i + 1..], true);
      var stripped := IsStripped(o, c);
      if stripped {
        StrippedEmitsNothing(o, c);
        ncmds, mods := ncmds - 1, mods + 1;
        Regroup(done, [], [], Build(o, cmds[i + 1..], placed));
      } else {
        ghost var front: seq<Cmd> := [];
        if !placed && |o.inserts| > 0 && IsOrdinal(c) {
          table, off := EmitLoads(table, off, o.inserts);
          ncmds, mods := ncmds + |o.inserts|, mods + |o.inserts|;
          placed := true;
          front := Loads(o.inserts);
        }
        var e, applied := EmitOne(o, c);
        if applied { mods := mods + 1; }
        if |e| == 1 {
          SizeOne(table, e[0]);
          assert e == [e[0]];
          off := off + e[0].size;
        } else {
          assert table + e == table;
          ncmds := ncmds - 1;
        }
        Regroup(done, front, e, Build(o, cmds[i + 1..], placed));
        table := table + e;
      }
      i := i + 1;
    }
    BuildEnd(o, cmds[i..], placed, table);
    if !placed {
      table, off := EmitLoads(table, off, o.inserts);
      ncmds, mods := ncmds + |o.inserts|, mods + |o.inserts|;
    }
    table, off := EmitLoads(table, off, o.adds);
    table, off := EmitRpaths(table, off, o.radds);
    ncmds, mods := ncmds + |o.adds| + |o.radds|, mods + |o.adds| + |o.radds|;
  }

  lemma StrippedEmitsNothing(o: Options, c: Cmd)
    requires Stripped(o, c)
    ensures Emitted(o, c) == [] && !IsOrdinal(c) && Touched(o, c)
  {}

  lemma Regroup(a: seq<Cmd>, b: seq<Cmd>, e: seq<Cmd>, d: seq<Cmd>)
    ensures a + (b + e + d) == a + b + e + d
    ensures b == [] && e == [] ==> a + (b + e + d) == a + d
    ensures a + [] == a
  {
    assert b == [] && e == [] ==> b + e + d == d;
  }

  lemma SizeOne(t: seq<Cmd>, c: Cmd)
    ensures TotalSize(t + [c]) == TotalSize(t) + c.size
  {
    TotalAppend(t, [c]);
    assert [c][1..] == [];
  }

  lemma BuildEnd(o: Options, none: seq<Cmd>, placed: bool, t: seq<Cmd>)
    requires |none| == 0
    ensures t + Build(o, none, placed) ==
            (if placed then t else t + Loads(o.inserts)) + Loads(o.adds) + Rpaths(o.radds)
  {
    hide Loads, Rpaths;
    var front, adds, rest := if placed then [] else Loads(o.inserts), Loads(o.adds), Rpaths(o.radds);
    assert Build(o, none, placed) == front + adds + rest;
    hide Build;
    Gather(t, front, adds, rest);
    assert t + [] == t;
  }

  lemma Gather(t: seq<Cmd>, a: seq<Cmd>, b: seq<Cmd>, c: seq<Cmd>)
    ensures t + (a + b + c) == t + a + b + c
  {}

  // ------------------------------------------------------- the ordinal map

  method NamedForDeletion(o: Options, c: Cmd) returns (deleted: bool)
    ensures deleted == MapDeletes(o, c)
  {
    deleted := false;
    var i := 0;
    while i < |o.changes|
      invariant 0 <= i <= |o.changes| && forall j :: 0 <= j < i ==> !Deletion(o.changes[j], c.path)
    {
      if Deletion(o.changes[i], c.path) { return true; }
      i := i + 1;
    }
  }

  /** needs: some ordinal may change. */
  datatype MapResult = TooMany | MapOf(numbering: seq<nat>, needs: bool)

  /** How many ordinals the new table will have, as main counts them. */
  function NewCount(o: Options, cmds: seq<Cmd>): nat {
    |o.inserts| + Count(MapFrom(o, Ordinals(cmds), |o.inserts|)) + |o.adds|
  }

  predicate NeedsRenumber(o: Options, cmds: seq<Cmd>) {
    |o.inserts| > 0 || exists c :: c in Ordinals(cmds) && MapDeletes(o, c)
  }

  lemma {:induction false} CountAppend(a: seq<nat>, x: nat)
    ensures Count(a + [x]) == Count(a) + if x == 0 then 0 else 1
  {
    if |a| == 0 {
      assert (a + [x])[1..] == [];
    } else {
      assert (a + [x])[1..] == a[1..] + [x];
      CountAppend(a[1..], x);
    }
  }

  /** The ordinals before cmds[i] are numbered; n is the last new ordinal given out. */
  ghost predicate Numbered(o: Options, cmds: seq<Cmd>, i: nat, done: seq<nat>, n: nat, needs: bool)
    requires i <= |cmds|
  {
    var ords := Ordinals(cmds[i..]);
    && Ordinals(cmds[..i]) + ords == Ordinals(cmds)
    && |done| == |Ordinals(cmds[..i])|
    && done + MapFrom(o, ords, n) == MapFrom(o, Ordinals(cmds), |o.inserts|)
    && n == |o.inserts| + Count(done)
    && needs == (|o.inserts| > 0 || exists c :: c in Ordinals(cmds[..i]) && MapDeletes(o, c))
  }

  lemma NumberedStart(o: Options, cmds: seq<Cmd>)
    ensures Numbered(o, cmds, 0, [], |o.inserts|, |o.inserts| > 0)
  {
    assert cmds[0..] == cmds && cmds[..0] == [];
  }

  lemma PrefixOrdinals(cmds: seq<Cmd>, i: nat)
    requires i < |cmds|
    ensures Ordinals(cmds[..i + 1]) == Ordinals(cmds[..i]) + (if IsOrdinal(cmds[i]) then [cmds[i]] else [])
    ensures Ordinals(cmds[i..]) == (if IsOrdinal(cmds[i]) then [cmds[i]] else []) + Ordinals(cmds[i + 1..])
  {
    assert cmds[..i + 1] == cmds[..i] + [cmds[i]];
    OrdinalsAppend(cmds[..i], [cmds[i]]);
    assert [cmds[i]][1..] == [];
    assert cmds[i..][1..] == cmds[i + 1..];
  }

  lemma NumberedStep(o: Options, cmds: seq<Cmd>, i: nat, done: seq<nat>, n: nat, needs: bool)
    requires i < |cmds| && Numbered(o, cmds, i, done, n, needs)
    ensures var c := cmds[i];
      if !IsOrdinal(c) then Numbered(o, cmds, i + 1, done, n, needs)
      else if MapDeletes(o, c) then Numbered(o, cmds, i + 1, done + [0], n, true)
      else Numbered(o, cmds, i + 1, done + [n + 1], n + 1, needs)
    ensures IsOrdinal(cmds[i]) ==> |done| < |Ordinals(cmds)|
  {
    hide MapDeletes, Count, Ordinals;
    PrefixOrdinals(cmds, i);
    var c, front, rest := cmds[i], Ordinals(cmds[..i]), Ordinals(cmds[i + 1..]);
    if IsOrdinal(c) {
      assert Ordinals(cmds[i..])[0] == c && Ordinals(cmds[i..])[1..] == rest;
      var x, m := if MapDeletes(o, c) then 0 else n + 1, if MapDeletes(o, c) then n else n + 1;
      CountAppend(done, x);
      Shifted(done, x, MapFrom(o, rest, m));
      ShiftedCmd(front, c, rest);
      DeletedSoFar(o, front, c);
    } else {
      assert Ordinals(cmds[..i + 1]) == front && Ordinals(cmds[i..]) == rest;
    }
  }

  lemma Shifted(a: seq<nat>, x: nat, b: seq<nat>)
    ensures a + ([x] + b) == a + [x] + b
  {}

  lemma ShiftedCmd(a: seq<Cmd>, x: Cmd, b: seq<Cmd>)
    ensures a + ([x] + b) == a + [x] + b
  {}

  lemma DeletedSoFar(o: Options, a: seq<Cmd>, c: Cmd)
    ensures (exists x :: x in a + [c] && MapDeletes(o, x)) <==>
        (exists x :: x in a && MapDeletes(o, x)) || MapDeletes(o, c)
  {
    hide MapDeletes;
    if MapDeletes(o, c) { assert c in a + [c]; }
    if x :| x in a && MapDeletes(o, x) { assert x in a + [c]; }
  }

  lemma NumberedEnd(o: Options, cmds: seq<Cmd>, done: seq<nat>, n: nat, needs: bool)
    requires Numbered(o, cmds, |cmds|, done, n, needs)
    ensures [0] + done == FullMap(o, cmds) && n + |o.adds| == NewCount(o, cmds)
    ensures needs == NeedsRenumber(o, cmds)
  {
    assert cmds[..|cmds|] == cmds;
    assert done + [] == done;
  }

  /** The loop of main that fills ord_map, and its limits. */
  method ComputeMap(o: Options, cmds: seq<Cmd>) returns (r: MapResult)
    ensures r.TooMany? <==> |Ordinals(cmds)| > MAX_DYLIBS || NewCount(o, cmds) > MAX_DYLIBS
    ensures r.MapOf? ==> r.numbering == FullMap(o, cmds) && r.needs == NeedsRenumber(o, cmds)
  {
    hide Numbered, MapDeletes, NewCount, NeedsRenumber, Ordinals, MapFrom;
    var ordMap := new nat[MAX_DYLIBS + 1](_ => 0);
    var nold: nat, nnew: nat, needs := 0, |o.inserts|, |o.inserts| > 0;
    assert ordMap[1..nold + 1] == [];
    var i := 0;
    NumberedStart(o, cmds);
    while i < |cmds|
      invariant 0 <= i <= |cmds| && 0 <= nold <= MAX_DYLIBS && ordMap[0] == 0
      invariant Numbered(o, cmds, i, ordMap[1..nold + 1], nnew, needs)
    {
      var c := cmds[i];
      ghost var done := ordMap[1..nold + 1];
      NumberedStep(o, cmds, i, done, nnew, needs);
      if IsOrdinal(c) {
        var deleted := NamedForDeletion(o, c);
        nold := nold + 1;
        if nold > MAX_DYLIBS { return TooMany; }
        if deleted {
          ordMap[nold] := 0;
          needs := true;
        } else {
          nnew := nnew + 1;
          ordMap[nold] := nnew;
        }
        assert ordMap[1..nold + 1] == done + [ordMap[nold]];
      }
      i := i + 1;
    }
    NumberedEnd(o, cmds, ordMap[1..nold + 1], nnew, needs);
    if nnew + |o.adds| > MAX_DYLIBS { return TooMany; }
    assert ordMap[..nold + 1] == [0] + ordMap[1..nold + 1];
    r := MapOf(ordMap[..nold + 1], needs);
  }

  lemma {:induction false} MapBounded(o: Options, ords: seq<Cmd>, n: nat)
    ensures forall k :: 0 <= k < |ords| ==> MapFrom(o, ords, n)[k] <= n + Count(MapFrom(o, ords, n))
  {
    hide MapDeletes;
    if |ords| > 0 {
      var m := if MapDeletes(o, ords[0]) then n else n + 1;
      MapBounded(o, ords[1..], m);
      assert MapFrom(o, ords, n)[1..] == MapFrom(o, ords[1..], m);
    }
  }

  // ------------------------------------------------------- the symbol table

  type Half = x: int | 0 <= x < 0x1_0000

  datatype Nlist = Nlist(strx: nat, typ: Byte, sect: Byte, desc: Half, value: nat)

  /** Undefined or prebound, and no debugging entry. */
  predicate Undefined(n: Nlist) { n.typ / 0x20 == 0 && ((n.typ / 2) % 8 == 0 || (n.typ / 2) % 8 == 6) }

  /** The library ordinal of an undefined symbol, or 0 if it names no library. */
  function SymOrdinal(n: Nlist): (r: nat)
    ensures r <= MAX_DYLIBS
  {
    if Undefined(n) && n.desc / 0x100 <= MAX_DYLIBS then n.desc / 0x100 else 0
  }

  predicate Accepted(n: Nlist, numbering: seq<nat>) { SymOrdinal(n) == 0 || B.Usable(numbering, SymOrdinal(n)) }

  predicate InRange(numbering: seq<nat>) { forall k :: 0 <= k < |numbering| ==> numbering[k] <= MAX_DYLIBS }

  function RenumberedSym(n: Nlist, numbering: seq<nat>): Nlist
    requires Accepted(n, numbering) && InRange(numbering)
  {
    if SymOrdinal(n) == 0 then n else n.(desc := n.desc % 0x100 + 0x100 * numbering[SymOrdinal(n)])
  }

  /** Only the library ordinal changes, to the mapped one. */
  lemma SymKept(n: Nlist, numbering: seq<nat>)
    requires Accepted(n, numbering) && InRange(numbering)
    ensures var m := RenumberedSym(n, numbering);
      && SymOrdinal(m) == (if SymOrdinal(n) == 0 then 0 else numbering[SymOrdinal(n)])
      && m == n.(desc := m.desc) && m.desc % 0x100 == n.desc % 0x100 && Undefined(m) == Undefined(n)
  {}

  /** The type and descriptor fields of an entry, one by one. */
  function Entry(stab: nat, private: bool, kind: nat, ext: bool, library: nat, low: nat, n: Nlist): Nlist
    requires stab < 8 && kind < 8 && library < 0x100 && low < 0x100
  {
    n.(typ := 0x20 * stab + (if private then 0x10 else 0) + 2 * kind + (if ext then 1 else 0),
       desc := 0x100 * library + low)
  }

  const UNDEFINED := 0
  const PREBOUND := 6

  lemma EntryFields(stab: nat, private: bool, kind: nat, ext: bool, library: nat, low: nat, n: Nlist)
    requires stab < 8 && kind < 8 && library < 0x100 && low < 0x100
    ensures var e := Entry(stab, private, kind, ext, library, low, n);
      && (Undefined(e) <==> stab == 0 && (kind == UNDEFINED || kind == PREBOUND))
      && e.desc / 0x100 == library && e.desc % 0x100 == low
  {
    TypeBits(stab, if private then 1 else 0, kind, if ext then 1 else 0);
  }

  lemma TypeBits(stab: nat, private: nat, kind: nat, ext: nat)
    requires stab < 8 && private <= 1 && kind < 8 && ext <= 1
    ensures var t := 0x20 * stab + 0x10 * private + 2 * kind + ext; t / 0x20 == stab && t / 2 % 8 == kind
  {}

  /**
   * An undefined symbol that is no debugging entry and names library 1..253 gets the mapped library
   * in the high byte of its descriptor; special libraries and other symbols keep theirs.
   */
  lemma EntryRenumbered(private: bool, stab: nat, kind: nat, ext: bool, library: nat, low: nat, n: Nlist,
                        numbering: seq<nat>)
    requires stab < 8 && kind < 8 && library < 0x100 && low < 0x100 && InRange(numbering)
    ensures var e := Entry(stab, private, kind, ext, library, low, n);
      var bound := stab == 0 && (kind == UNDEFINED || kind == PREBOUND) && 1 <= library <= 253;
      && (Accepted(e, numbering) <==> (bound ==> library < |numbering| && numbering[library] != 0))
      && (Accepted(e, numbering) && bound ==>
            RenumberedSym(e, numbering) == Entry(stab, private, kind, ext, numbering[library], low, n))
      && (!bound ==> RenumberedSym(e, numbering) == e)
  {
    EntryFields(stab, private, kind, ext, library, low, n);
    hide Undefined;
  }

  method RenumberSymtab(syms: array<Nlist>, numbering: seq<nat>) returns (ok: bool)
    requires InRange(numbering)
    modifies syms
    ensures ok == forall i :: 0 <= i < syms.Length ==> Accepted(old(syms[i]), numbering)
    ensures ok ==> forall i :: 0 <= i < syms.Length ==> syms[i] == RenumberedSym(old(syms[i]), numbering)
  {
    var i := 0;
    while i < syms.Length
      invariant 0 <= i <= syms.Length
      invariant forall j :: 0 <= j < i ==>
          Accepted(old(syms[j]), numbering) && syms[j] == RenumberedSym(old(syms[j]), numbering)
      invariant forall j :: i <= j < syms.Length ==> syms[j] == old(syms[j])
    {
      var ord := SymOrdinal(syms[i]);
      if ord != 0 {
        if ord >= |numbering| || numbering[ord] == 0 {
          assert !Accepted(old(syms[i]), numbering);
          return false;
        }
        if numbering[ord] != ord { syms[i] := syms[i].(desc := syms[i].desc % 0x100 + 0x100 * numbering[ord]); }
      }
      i := i + 1;
    }
    ok := true;
  }

  // -------------------------------------------------------------- the image

  datatype Range = Range(start: nat, end: nat)

  predicate Apart(a: Range, b: Range) { a.end <= b.start || b.end <= a.start }

  predicate InBounds(a: Bytes, r: Range) { r.start <= r.end <= |a| }

  function Part(a: Bytes, r: Range): Bytes
    requires InBounds(a, r)
  {
    a[r.start..r.end]
  }

  lemma PartKept(a: Bytes, b: Bytes, changed: Range, r: Range)
    requires |a| == |b| && InBounds(a, changed) && InBounds(a, r) && Apart(changed, r)
    requires forall k :: 0 <= k < |a| && !(changed.start <= k < changed.end) ==> b[k] == a[k]
    ensures Part(b, r) == Part(a, r)
  {}

  method RenumberPart(buf: array<Byte>, r: Range, numbering: seq<nat>) returns (ok: bool)
    requires InBounds(buf[..], r) && InRange(numbering)
    modifies buf
    ensures ok == B.Renumber(Part(old(buf[..]), r), numbering).Rewritten?
    ensures ok ==> B.Renumber(Part(old(buf[..]), r), numbering) == B.Rewritten(Part(buf[..], r))
    ensures forall q :: InBounds(old(buf[..]), q) && Apart(r, q) ==> Part(buf[..], q) == Part(old(buf[..]), q)
  {
    hide B.Renumber;
    assert buf[r.start..r.end] == Part(buf[..], r);
    ok := B.RenumberStream(buf, r.start, r.end, numbering);
    assert buf[r.start..r.end] == Part(buf[..], r);
    forall q | InBounds(old(buf[..]), q) && Apart(r, q)
      ensures Part(buf[..], q) == Part(old(buf[..]), q)
    {
      PartKept(old(buf[..]), buf[..], r, q);
    }
  }

  class Image {
    var table: seq<Cmd>
    var room: nat
    const twoLevel: bool
    const chained: bool
    const syms: array<Nlist>
    const linkedit: array<Byte>
    const bind: Range
    const weak: Range
    const lazy: Range

    constructor (table: seq<Cmd>, room: nat, twoLevel: bool, chained: bool, syms: array<Nlist>, linkedit: array<Byte>,
                 bind: Range, weak: Range, lazy: Range)
      requires bind.start <= bind.end <= linkedit.Length && weak.start <= weak.end <= linkedit.Length
      requires lazy.start <= lazy.end <= linkedit.Length
      requires Apart(bind, weak) && Apart(bind, lazy) && Apart(weak, lazy)
      ensures Valid() && this.table == table && this.syms == syms && this.linkedit == linkedit
      ensures this.room == room && this.twoLevel == twoLevel && this.chained == chained
      ensures this.bind == bind && this.weak == weak && this.lazy == lazy
    {
      this.table, this.room, this.twoLevel, this.chained := table, room, twoLevel, chained;
      this.syms, this.linkedit, this.bind, this.weak, this.lazy := syms, linkedit, bind, weak, lazy;
    }

    /** The bind streams are separate parts of the file. */
    predicate Valid()
      reads linkedit
    {
      && InBounds(linkedit[..], bind) && InBounds(linkedit[..], weak) && InBounds(linkedit[..], lazy)
      && Apart(bind, weak) && Apart(bind, lazy) && Apart(weak, lazy)
    }

    function Stream(r: Range): Bytes
      requires InBounds(linkedit[..], r)
      reads linkedit
    {
      Part(linkedit[..], r)
    }

    predicate Renumberable(numbering: seq<nat>)
      requires Valid()
      reads linkedit, syms
    {
      && (forall i :: 0 <= i < syms.Length ==> Accepted(syms[i], numbering))
      && B.Renumber(Stream(bind), numbering).Rewritten? && B.Renumber(Stream(weak), numbering).Rewritten?
      && B.Renumber(Stream(lazy), numbering).Rewritten?
    }

    /** renumber_ordinals. */
    method RenumberOrdinals(numbering: seq<nat>) returns (ok: bool)
      requires Valid() && InRange(numbering)
      modifies linkedit, syms
      ensures ok == (!chained && (!twoLevel || old(Renumberable(numbering))))
      ensures ok && !twoLevel ==> linkedit[..] == old(linkedit[..]) && syms[..] == old(syms[..])
      ensures ok && twoLevel ==>
        && (forall i :: 0 <= i < syms.Length ==>
              Accepted(old(syms[i]), numbering) && syms[i] == RenumberedSym(old(syms[i]), numbering))
        && B.Rewritten(Stream(bind)) == B.Renumber(old(Stream(bind)), numbering)
        && B.Rewritten(Stream(weak)) == B.Renumber(old(Stream(weak)), numbering)
        && B.Rewritten(Stream(lazy)) == B.Renumber(old(Stream(lazy)), numbering)
    {
      hide B.Renumber, RenumberedSym, Accepted, Part;
      if chained { return false; }
      if !twoLevel { return true; }
      ok := RenumberSymtab(syms, numbering);
      if !ok { return; }
      ok := RenumberPart(linkedit, bind, numbering);
      if !ok { return; }
      ok := RenumberPart(linkedit, weak, numbering);
      if !ok { return; }
      ok := RenumberPart(linkedit, lazy, numbering);
    }

    /** What main asks of the image besides the room for the table. */
    predicate Renamable(o: Options)
      requires Valid()
      reads this, linkedit, syms
    {
      NeedsRenumber(o, table) ==> !chained && (!twoLevel || Renumberable(FullMap(o, table)))
    }

    /**
     * main. grown is what asking for more header room yields: a refusal, or how many bytes were
     * opened (HeaderGrower.Image.Grow). After a refusal the file is not written, whatever the
     * buffer holds.
     */
    method Rewrite(o: Options, allowGrow: bool, grown: nat -> int) returns (ok: bool)
      requires Valid() && forall n: nat :: grown(n) < 0 || grown(n) >= n
      modifies this, linkedit, syms
      ensures ok == (Countable(o, old(table))
                     && (Unchanging(o, old(table))
                         || (RoomFor(TotalSize(NewTable(o, old(table))), old(room), allowGrow, grown)
                             && old(Renamable(o)))))
      ensures ok ==> table == NewTable(o, old(table)) && (Unchanging(o, old(table)) || TotalSize(table) <= room)
      ensures ok && twoLevel && Consistent(o, Ordinals(old(table))) ==>
        && BindsKept(o, old(table), old(Stream(bind)), Stream(bind))
        && BindsKept(o, old(table), old(Stream(weak)), Stream(weak))
        && BindsKept(o, old(table), old(Stream(lazy)), Stream(lazy))
        && forall i :: 0 <= i < syms.Length ==> SymbolKept(o, old(table), old(syms[i]), syms[i])
    {
      hide BindsKept, SymbolKept, NewTable, FullMap, NewCount, NeedsRenumber, B.Renumber, Accepted, RenumberedSym,
           Consistent, Ordinals, Unchanging, Renumberable;
      ghost var cmds := table;
      var m := ComputeMap(o, table);
      if m.TooMany? { return false; }
      var t, off, n, mods := BuildLcs(o, table);
      MapInRange(o, cmds);
      ok := true;
      if mods == 0 {
        UnchangingSame(o, cmds);
      } else {
        if off > room {
          if !allowGrow { return false; }
          var g := grown(off - room);
          if g < 0 { return false; }
          room := room + g;
        }
        table := t;
        if m.needs { ok := RenumberOrdinals(m.numbering); }
      }
      if ok && twoLevel && Consistent(o, Ordinals(cmds)) {
        if m.needs && mods != 0 {
          ImageKept(o, cmds, old(Stream(bind)), Stream(bind), old(Stream(weak)), Stream(weak), old(Stream(lazy)),
                    Stream(lazy));
          SymbolsKept(o, cmds, old(syms[..]), syms[..]);
        } else {
          UntouchedKept(o, cmds, Stream(bind));
          UntouchedKept(o, cmds, Stream(weak));
          UntouchedKept(o, cmds, Stream(lazy));
          SymbolsUntouched(o, cmds, syms[..]);
        }
      }
    }
  }

  /** Neither table names too many libraries. */
  predicate Countable(o: Options, cmds: seq<Cmd>) {
    |Ordinals(cmds)| <= MAX_DYLIBS && NewCount(o, cmds) <= MAX_DYLIBS
  }

  predicate RoomFor(size: nat, room: nat, allowGrow: bool, grown: nat -> int) {
    size <= room || (allowGrow && grown(size - room) >= 0)
  }

  /** With nothing to change, a map that agrees with the table changes no ordinal. */
  lemma UnchangingSame(o: Options, cmds: seq<Cmd>)
    requires Unchanging(o, cmds)
    ensures NewTable(o, cmds) == cmds
    ensures Consistent(o, Ordinals(cmds)) ==> !NeedsRenumber(o, cmds)
  {
    hide TotalSize, Build, MapDeletes, Chosen, Stripped;
    UnchangingBuild(o, cmds);
    if Consistent(o, Ordinals(cmds)) {
      forall c | c in Ordinals(cmds)
        ensures !MapDeletes(o, c)
      {
        var i :| 0 <= i < |cmds| && cmds[i] == c;
        assert !Touched(o, cmds[i]) && DeletionTakes(o, c);
      }
    }
  }

  lemma ImageKept(o: Options, cmds: seq<Cmd>, a: Bytes, a': Bytes, b: Bytes, b': Bytes, c: Bytes, c': Bytes)
    requires Consistent(o, Ordinals(cmds)) && InRange(FullMap(o, cmds))
    requires B.Rewritten(a') == B.Renumber(a, FullMap(o, cmds))
    requires B.Rewritten(b') == B.Renumber(b, FullMap(o, cmds))
    requires B.Rewritten(c') == B.Renumber(c, FullMap(o, cmds))
    ensures BindsKept(o, cmds, a, a') && BindsKept(o, cmds, b, b') && BindsKept(o, cmds, c, c')
  {
    hide BindsKept, FullMap, Consistent, Ordinals, B.Renumber;
    StreamKept(o, cmds, a, a');
    StreamKept(o, cmds, b, b');
    StreamKept(o, cmds, c, c');
  }

  lemma SymbolsKept(o: Options, cmds: seq<Cmd>, a: seq<Nlist>, b: seq<Nlist>)
    requires Consistent(o, Ordinals(cmds)) && InRange(FullMap(o, cmds)) && |a| == |b|
    requires forall i :: 0 <= i < |a| ==>
      Accepted(a[i], FullMap(o, cmds)) && b[i] == RenumberedSym(a[i], FullMap(o, cmds))
    ensures forall i :: 0 <= i < |a| ==> SymbolKept(o, cmds, a[i], b[i])
  {
    hide Consistent, Ordinals, FullMap, Accepted, RenumberedSym, SymbolKept;
    forall i | 0 <= i < |a|
      ensures SymbolKept(o, cmds, a[i], b[i])
    {
      EntryKept(o, cmds, a[i]);
    }
  }

  lemma SymbolsUntouched(o: Options, cmds: seq<Cmd>, a: seq<Nlist>)
    requires !NeedsRenumber(o, cmds)
    ensures forall i :: 0 <= i < |a| ==> SymbolKept(o, cmds, a[i], a[i])
  {
    hide NeedsRenumber, SymbolKept;
    forall i | 0 <= i < |a|
      ensures SymbolKept(o, cmds, a[i], a[i])
    {
      SymbolUntouched(o, cmds, a[i]);
    }
  }

  // ------------------------------------------------- the meaning is kept

  /** The same bind operation, of the same library under its new ordinal. */
  ghost predicate SameBind(o: Options, cmds: seq<Cmd>, a: B.State, b: B.State) {
    b == a.(ordinal := b.ordinal) && SameLibrary(o, cmds, a.ordinal, b.ordinal)
  }

  /** From every operation on, t performs the bind operations s performed. */
  ghost predicate BindsKept(o: Options, cmds: seq<Cmd>, s: Bytes, t: Bytes) {
    && |t| == |s|
    && forall p: nat, st: B.State :: B.StartsAt(s, p) && st == B.START ==> BindsKeptFrom(o, cmds, s, t, p, st)
  }

  ghost predicate BindsKeptFrom(o: Options, cmds: seq<Cmd>, s: Bytes, t: Bytes, p: nat, st: B.State) {
    && p <= |s| && p <= |t| && B.StartsAt(t, p)
    && var a, b := B.Binds(s[p..], st), B.Binds(t[p..], st);
       |a| == |b| && forall i :: 0 <= i < |a| ==> SameBind(o, cmds, a[i], b[i])
  }

  ghost predicate SymbolKept(o: Options, cmds: seq<Cmd>, a: Nlist, b: Nlist) {
    && b == a.(desc := b.desc) && b.desc % 0x100 == a.desc % 0x100
    && SameLibrary(o, cmds, SymOrdinal(a), SymOrdinal(b))
  }

  lemma MapInRange(o: Options, cmds: seq<Cmd>)
    requires NewCount(o, cmds) <= MAX_DYLIBS
    ensures InRange(FullMap(o, cmds))
  {
    MapBounded(o, Ordinals(cmds), |o.inserts|);
  }

  lemma KnownNames(o: Options, cmds: seq<Cmd>, was: int)
    requires Consistent(o, Ordinals(cmds)) && B.Known(FullMap(o, cmds), was)
    ensures SameLibrary(o, cmds, was, B.MapOrdinal(FullMap(o, cmds), was))
  {
    hide Consistent, Ordinals, MapFrom;
    if was >= 1 { MapNamesSameLibrary(o, cmds, was); }
  }

  lemma StreamKept(o: Options, cmds: seq<Cmd>, s: Bytes, t: Bytes)
    requires Consistent(o, Ordinals(cmds)) && InRange(FullMap(o, cmds))
    requires B.Renumber(s, FullMap(o, cmds)) == B.Rewritten(t)
    ensures BindsKept(o, cmds, s, t)
  {
    hide Consistent, Ordinals, FullMap, B.Renumber, BindsKeptFrom;
    forall p: nat, st: B.State | B.StartsAt(s, p) && st == B.START
      ensures BindsKeptFrom(o, cmds, s, t, p, st)
    {
      StreamKeptFrom(o, cmds, s, t, p, st);
    }
  }

  lemma StreamKeptFrom(o: Options, cmds: seq<Cmd>, s: Bytes, t: Bytes, p: nat, st: B.State)
    requires Consistent(o, Ordinals(cmds)) && InRange(FullMap(o, cmds))
    requires B.Renumber(s, FullMap(o, cmds)) == B.Rewritten(t)
    requires B.StartsAt(s, p) && st == B.START
    ensures BindsKeptFrom(o, cmds, s, t, p, st)
  {
    hide Consistent, Ordinals, FullMap, B.Renumber, B.StartsAt, B.Binds, SameLibrary, B.MapOrdinal;
    var m := FullMap(o, cmds);
    B.RenumberSuffix(s, p, m);
    B.RenumberKeepsLazyBinds(s, p, st, m);
    StartMapped(m, st);
    B.BindsKnown(s[p..], st, m);
    var a := B.Binds(s[p..], st);
    forall i | 0 <= i < |a|
      ensures SameBind(o, cmds, a[i], B.Mapped(m, a[i]))
    {
      KnownNames(o, cmds, a[i].ordinal);
    }
  }

  lemma StartMapped(m: seq<nat>, st: B.State)
    requires st == B.START
    ensures B.Mapped(m, st) == st && B.Known(m, st.ordinal)
  {}

  lemma EntryKept(o: Options, cmds: seq<Cmd>, a: Nlist)
    requires Consistent(o, Ordinals(cmds)) && InRange(FullMap(o, cmds)) && Accepted(a, FullMap(o, cmds))
    ensures SymbolKept(o, cmds, a, RenumberedSym(a, FullMap(o, cmds)))
  {
    hide Consistent, Ordinals, FullMap, SameLibrary;
    SymKept(a, FullMap(o, cmds));
    KnownNames(o, cmds, SymOrdinal(a));
  }

  lemma {:induction false} MapIdentity(o: Options, ords: seq<Cmd>, n: nat)
    requires forall c :: c in ords ==> !MapDeletes(o, c)
    ensures forall k :: 0 <= k < |ords| ==> MapFrom(o, ords, n)[k] == n + k + 1
  {
    hide MapDeletes;
    if |ords| > 0 { MapIdentity(o, ords[1..], n + 1); }
  }

  /** With nothing to renumber every ordinal already names the same library. */
  lemma UnneededSame(o: Options, cmds: seq<Cmd>, k: int)
    requires !NeedsRenumber(o, cmds)
    ensures SameLibrary(o, cmds, k, k)
  {
    hide Ordinals, MapDeletes, Emitted, NewTable;
    var ords := Ordinals(cmds);
    MapIdentity(o, ords, 0);
    if 1 <= k <= |ords| { MapNamesSameLibrary(o, cmds, k); }
  }

  lemma UntouchedKept(o: Options, cmds: seq<Cmd>, s: Bytes)
    requires !NeedsRenumber(o, cmds)
    ensures BindsKept(o, cmds, s, s)
  {
    hide NeedsRenumber, SameLibrary, B.Binds;
    forall p: nat, st: B.State | B.StartsAt(s, p) && st == B.START
      ensures BindsKeptFrom(o, cmds, s, s, p, st)
    {
      B.StartInside(s, p);
      forall i | 0 <= i < |B.Binds(s[p..], st)|
        ensures SameBind(o, cmds, B.Binds(s[p..], st)[i], B.Binds(s[p..], st)[i])
      {
        UnneededSame(o, cmds, B.Binds(s[p..], st)[i].ordinal);
      }
    }
  }

  lemma SymbolUntouched(o: Options, cmds: seq<Cmd>, a: Nlist)
    requires !NeedsRenumber(o, cmds)
    ensures SymbolKept(o, cmds, a, a)
  {
    hide NeedsRenumber, SameLibrary;
    UnneededSame(o, cmds, SymOrdinal(a));
  }
}
