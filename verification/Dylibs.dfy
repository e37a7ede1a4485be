/**
 * change_dylib's load-command table and library ordinals: what build_lcs emits, what the
 * ordinal map says, and when the two agree.
 */
module Dylibs {

  const MAX_DYLIBS := 253
  const DYLIB_HEADER := 24
  const RPATH_HEADER := 12

  datatype Kind = Load | Weak | Reexport | Upward | Id | Rpath | Other(cmd: nat)

  /** path sits at offset base of a command of size bytes; body is everything else in it. */
  datatype Cmd = Cmd(kind: Kind, path: string, base: nat, size: nat, body: seq<int>)

  /** Load commands that consume a library ordinal. */
  predicate IsOrdinal(c: Cmd) { c.kind.Load? || c.kind.Weak? || c.kind.Reexport? || c.kind.Upward? }

  /** To(""): keep the path. */
  datatype NewPath = Delete | To(path: string)

  datatype Change = Change(oldPath: string, newPath: NewPath, reexport: bool)

  /** strip holds raw command numbers of kinds that carry no ordinal. */
  datatype Options = Options(changes: seq<Change>, adds: seq<string>, inserts: seq<string>,
                             strip: seq<nat>, rchanges: seq<Change>, radds: seq<string>)

  function Align8(n: nat): (r: nat)
    ensures r >= n && r % 8 == 0 && r < n + 8
  {
    (n + 7) / 8 * 8
  }

  function DylibCmd(path: string): Cmd {
    Cmd(Load, path, DYLIB_HEADER, Align8(DYLIB_HEADER + |path| + 1), [2, 0, 0])
  }

  function RpathCmd(path: string): Cmd {
    Cmd(Rpath, path, RPATH_HEADER, Align8(RPATH_HEADER + |path| + 1), [])
  }

  /** The first change naming the path, or |ch|. */
  function FirstMatch(ch: seq<Change>, path: string): (n: nat)
    ensures n <= |ch|
    ensures n < |ch| ==> ch[n].oldPath == path
  {
    if |ch| == 0 || ch[0].oldPath == path then 0 else 1 + FirstMatch(ch[1..], path)
  }

  predicate Stripped(o: Options, c: Cmd) { c.kind.Other? && c.kind.cmd in o.strip }

  /** The change build_lcs applies to c, if any. */
  datatype Choice = Keep | Apply(change: Change)

  function Chosen(ch: seq<Change>, path: string): Choice {
    var n := FirstMatch(ch, path);
    if n < |ch| then Apply(ch[n]) else Keep
  }

  function Choose(o: Options, c: Cmd): Choice {
    if c.kind.Load? || c.kind.Weak? || c.kind.Reexport? then Chosen(o.changes, c.path)
    else if c.kind.Rpath? then Chosen(o.rchanges, c.path)
    else Keep
  }

  function WithChange(c: Cmd, ch: Change): Cmd
    requires ch.newPath.To?
  {
    var needed := Align8(c.base + |ch.newPath.path| + 1);
    var size := if needed < c.size then c.size else needed;
    if c.kind.Rpath? then c.(path := ch.newPath.path, size := size)
    else c.(kind := if ch.reexport then Reexport else c.kind,
            path := if ch.newPath.path == "" then c.path else ch.newPath.path, size := size)
  }

  /** What the command becomes, or nothing. */
  function Emitted(o: Options, c: Cmd): (r: seq<Cmd>)
    ensures |r| <= 1
  {
    if Stripped(o, c) then []
    else
      match Choose(o, c)
      case Keep => [c]
      case Apply(ch) => if ch.newPath.Delete? then [] else [WithChange(c, ch)]
  }

  function Loads(paths: seq<string>): (r: seq<Cmd>)
    ensures |r| == |paths| && forall i :: 0 <= i < |r| ==> r[i] == DylibCmd(paths[i])
  {
    if |paths| == 0 then [] else [DylibCmd(paths[0])] + Loads(paths[1..])
  }

  function Rpaths(paths: seq<string>): (r: seq<Cmd>)
    ensures |r| == |paths| && forall i :: 0 <= i < |r| ==> r[i] == RpathCmd(paths[i])
  {
    if |paths| == 0 then [] else [RpathCmd(paths[0])] + Rpaths(paths[1..])
  }

  function Build(o: Options, cmds: seq<Cmd>, placed: bool): seq<Cmd> {
    if |cmds| == 0 then (if placed then [] else Loads(o.inserts)) + Loads(o.adds) + Rpaths(o.radds)
    else
      var here := !placed && |o.inserts| > 0 && !Stripped(o, cmds[0]) && IsOrdinal(cmds[0]);
      (if here then Loads(o.inserts) else []) + Emitted(o, cmds[0]) + Build(o, cmds[1..], placed || here)
  }

  /** Change i is the first to name the path. */
  ghost predicate FirstNaming(ch: seq<Change>, path: string, i: nat) {
    i < |ch| && ch[i].oldPath == path && forall j :: 0 <= j < i ==> ch[j].oldPath != path
  }

  lemma {:induction false} FirstFound(ch: seq<Change>, path: string, i: nat)
    requires FirstNaming(ch, path, i)
    ensures FirstMatch(ch, path) == i
  {
    if i > 0 { FirstFound(ch[1..], path, i - 1); }
  }

  /**
   * What the first option naming a library makes of its command: nothing if it deletes it, else
   * a command of the new path, or of the old one if none is given, re-exported if asked; the rest
   * of its bytes are kept, and it is the least multiple of eight that holds the path, or as long
   * as it was.
   */
  lemma LibraryChanged(o: Options, c: Cmd, i: nat)
    requires (c.kind.Load? || c.kind.Weak? || c.kind.Reexport?) && FirstNaming(o.changes, c.path, i)
    ensures var p := o.changes[i].newPath;
      if p.Delete? then Emitted(o, c) == []
      else
        var end := c.base + |p.path| + 1;
        exists d :: Emitted(o, c) == [d]
          && d.path == (if |p.path| == 0 then c.path else p.path)
          && d.kind == (if o.changes[i].reexport then Reexport else c.kind)
          && d.base == c.base && d.body == c.body
          && (d.size == c.size || (end <= d.size < end + 8 && d.size % 8 == 0)) && d.size >= end && d.size >= c.size
  {
    FirstFound(o.changes, c.path, i);
    if o.changes[i].newPath.To? {
      var d := WithChange(c, o.changes[i]);
      assert Emitted(o, c) == [d];
    }
  }

  /** The same for a run path, which has no kind to change. */
  lemma RpathChanged(o: Options, c: Cmd, i: nat)
    requires c.kind.Rpath? && FirstNaming(o.rchanges, c.path, i)
    ensures var p := o.rchanges[i].newPath;
      if p.Delete? then Emitted(o, c) == []
      else
        var end := c.base + |p.path| + 1;
        exists d :: Emitted(o, c) == [d]
          && d.path == p.path && d.kind == c.kind && d.base == c.base && d.body == c.body
          && (d.size == c.size || (end <= d.size < end + 8 && d.size % 8 == 0)) && d.size >= end && d.size >= c.size
  {
    FirstFound(o.rchanges, c.path, i);
    if o.rchanges[i].newPath.To? {
      var d := WithChange(c, o.rchanges[i]);
      assert Emitted(o, c) == [d];
    }
  }

  /** A command that no option names and that is not stripped is copied. */
  lemma Untouched(o: Options, c: Cmd)
    requires forall j :: 0 <= j < |o.changes| ==> o.changes[j].oldPath != c.path
    requires forall j :: 0 <= j < |o.rchanges| ==> o.rchanges[j].oldPath != c.path
    ensures Emitted(o, c) == if c.kind.Other? && c.kind.cmd in o.strip then [] else [c]
  {
    NoMatch(o.changes, c.path);
    NoMatch(o.rchanges, c.path);
  }

  lemma {:induction false} NoMatch(ch: seq<Change>, path: string)
    requires forall j :: 0 <= j < |ch| ==> ch[j].oldPath != path
    ensures FirstMatch(ch, path) == |ch|
  {
    if |ch| > 0 { NoMatch(ch[1..], path); }
  }

  /** build_lcs counts a modification for the command. */
  predicate Touched(o: Options, c: Cmd) { Stripped(o, c) || Choose(o, c).Apply? }

  /** No option applies to anything. */
  predicate Unchanging(o: Options, cmds: seq<Cmd>) {
    o.inserts == [] && o.adds == [] && o.radds == [] && forall i :: 0 <= i < |cmds| ==> !Touched(o, cmds[i])
  }

  lemma {:induction false} UnchangingBuild(o: Options, cmds: seq<Cmd>)
    requires Unchanging(o, cmds)
    ensures Build(o, cmds, false) == cmds
  {
    if |cmds| > 0 {
      UnchangingBuild(o, cmds[1..]);
      UntouchedEmitted(o, cmds[0]);
      hide Emitted, Stripped, Touched;
      assert cmds == [] + [cmds[0]] + cmds[1..];
    }
  }

  lemma UntouchedEmitted(o: Options, c: Cmd)
    requires !Touched(o, c)
    ensures Emitted(o, c) == [c] && !Stripped(o, c)
  {}

  // ------------------------------------------------------------- ordinals

  /** The commands library ordinals 1, 2, ... of a table name. */
  function Ordinals(cmds: seq<Cmd>): (r: seq<Cmd>)
    ensures forall c :: c in r ==> IsOrdinal(c) && c in cmds
  {
    if |cmds| == 0 then [] else (if IsOrdinal(cmds[0]) then [cmds[0]] else []) + Ordinals(cmds[1..])
  }

  lemma {:induction false} OrdinalsAppend(a: seq<Cmd>, b: seq<Cmd>)
    ensures Ordinals(a + b) == Ordinals(a) + Ordinals(b)
  {
    if |a| == 0 {
      assert a + b == b;
    } else {
      assert (a + b)[1..] == a[1..] + b;
      OrdinalsAppend(a[1..], b);
    }
  }

  lemma {:induction false} OrdinalsOfLoads(paths: seq<string>)
    ensures Ordinals(Loads(paths)) == Loads(paths)
  {
    if |paths| > 0 {
      OrdinalsOfLoads(paths[1..]);
      assert Loads(paths)[1..] == Loads(paths[1..]);
    }
  }

  lemma {:induction false} OrdinalsOfRpaths(paths: seq<string>)
    ensures Ordinals(Rpaths(paths)) == []
  {
    if |paths| > 0 {
      OrdinalsOfRpaths(paths[1..]);
      assert Rpaths(paths)[1..] == Rpaths(paths[1..]);
    }
  }

  /** What survives of the old ordinal-bearing commands, in order. */
  function Survivors(o: Options, ords: seq<Cmd>): seq<Cmd> {
    if |ords| == 0 then [] else Emitted(o, ords[0]) + Survivors(o, ords[1..])
  }

  lemma EmittedOrdinal(o: Options, c: Cmd)
    ensures Ordinals(Emitted(o, c)) == if IsOrdinal(c) then Emitted(o, c) else []
  {
    var e := Emitted(o, c);
    if |e| == 1 { assert e == [e[0]] && e[1..] == []; }
  }

  lemma ThreeParts(a: seq<Cmd>, b: seq<Cmd>, c: seq<Cmd>)
    ensures Ordinals(a + b + c) == Ordinals(a) + Ordinals(b) + Ordinals(c)
  {
    OrdinalsAppend(a + b, c);
    OrdinalsAppend(a, b);
  }

  lemma SurvivorsStep(o: Options, cmds: seq<Cmd>)
    requires |cmds| > 0
    ensures Survivors(o, Ordinals(cmds)) == Ordinals(Emitted(o, cmds[0])) + Survivors(o, Ordinals(cmds[1..]))
  {
    hide Emitted, Ordinals;
    EmittedOrdinal(o, cmds[0]);
    OrdinalsHead(cmds);
  }

  lemma OrdinalsHead(cmds: seq<Cmd>)
    requires |cmds| > 0
    ensures var ords, rest := Ordinals(cmds), Ordinals(cmds[1..]);
      if IsOrdinal(cmds[0]) then |ords| > 0 && ords[0] == cmds[0] && ords[1..] == rest else ords == rest
  {}

  /** The new table's ordinals: inserts first, then the survivors in order, then the adds. */
  lemma {:induction false} BuiltOrdinals(o: Options, cmds: seq<Cmd>, placed: bool)
    ensures Ordinals(Build(o, cmds, placed)) ==
            (if placed then [] else Loads(o.inserts)) + Survivors(o, Ordinals(cmds)) + Loads(o.adds)
  {
    hide Stripped, Emitted, Survivors, Loads;
    if |cmds| == 0 {
      BuiltTail(o, placed);
      NoSurvivors(o);
    } else {
      var c := cmds[0];
      var here := !placed && |o.inserts| > 0 && !Stripped(o, c) && IsOrdinal(c);
      BuiltOrdinals(o, cmds[1..], placed || here);
      var front := if here then Loads(o.inserts) else [];
      ThreeParts(front, Emitted(o, c), Build(o, cmds[1..], placed || here));
      OrdinalsOfLoads(o.inserts);
      SurvivorsStep(o, cmds);
      EmittedOrdinal(o, c);
      StrippedNotOrdinal(o, c);
      Reassociate(front, Ordinals(Emitted(o, c)), if placed || here then [] else Loads(o.inserts),
                  Survivors(o, Ordinals(cmds[1..])), Loads(o.adds));
    }
  }

  lemma NoSurvivors(o: Options)
    ensures Survivors(o, Ordinals([])) == []
  {}

  /** Either nothing was emitted before the inserts, or they are in front already. */
  lemma Reassociate(a: seq<Cmd>, e: seq<Cmd>, b: seq<Cmd>, s: seq<Cmd>, d: seq<Cmd>)
    ensures b == [] ==> a + e + (b + s + d) == a + (e + s) + d
    ensures a == [] && e == [] ==> a + e + (b + s + d) == b + (e + s) + d
  {
    assert b == [] ==> b + s + d == s + d;
  }

  lemma StrippedNotOrdinal(o: Options, c: Cmd)
    ensures Stripped(o, c) ==> !IsOrdinal(c)
  {}

  lemma BuiltTail(o: Options, placed: bool)
    ensures Ordinals(Build(o, [], placed)) == (if placed then [] else Loads(o.inserts)) + Loads(o.adds)
  {
    var front := if placed then [] else Loads(o.inserts);
    OrdinalsAppend(front + Loads(o.adds), Rpaths(o.radds));
    OrdinalsAppend(front, Loads(o.adds));
    OrdinalsOfLoads(o.inserts);
    OrdinalsOfLoads(o.adds);
    OrdinalsOfRpaths(o.radds);
  }

  // ------------------------------------------------------ the ordinal map

  predicate Deletion(ch: Change, path: string) { ch.newPath.Delete? && ch.oldPath == path }

  /** main's test: some deletion names the path. */
  predicate MapDeletes(o: Options, c: Cmd) {
    exists i :: 0 <= i < |o.changes| && Deletion(o.changes[i], c.path)
  }

  /** main's loop: the new ordinal of each old one, 0 where the map says deleted. */
  function MapFrom(o: Options, ords: seq<Cmd>, n: nat): (r: seq<nat>)
    ensures |r| == |ords|
  {
    if |ords| == 0 then []
    else if MapDeletes(o, ords[0]) then [0] + MapFrom(o, ords[1..], n)
    else [n + 1] + MapFrom(o, ords[1..], n + 1)
  }

  /** Where build_lcs puts each old ordinal's command: its new ordinal, or 0 if it is gone. */
  function PlaceFrom(o: Options, ords: seq<Cmd>, n: nat): (r: seq<nat>)
    ensures |r| == |ords|
  {
    if |ords| == 0 then []
    else if Emitted(o, ords[0]) == [] then [0] + PlaceFrom(o, ords[1..], n)
    else [n + 1] + PlaceFrom(o, ords[1..], n + 1)
  }

  /** A place is the position of the command, as changed, among the survivors. */
  lemma {:induction false} PlaceIsPosition(o: Options, ords: seq<Cmd>, n: nat, k: nat)
    requires k < |ords| && PlaceFrom(o, ords, n)[k] != 0
    ensures var p := PlaceFrom(o, ords, n)[k];
      && n < p <= n + |Survivors(o, ords)|
      && Emitted(o, ords[k]) == [Survivors(o, ords)[p - n - 1]]
  {
    hide Emitted;
    var gone := Emitted(o, ords[0]) == [];
    if k > 0 {
      PlaceIsPosition(o, ords[1..], if gone then n else n + 1, k - 1);
      assert ords[1..][k - 1] == ords[k];
    }
  }

  lemma {:induction false} PlaceCounts(o: Options, ords: seq<Cmd>, n: nat, k: nat)
    requires k < |ords|
    ensures PlaceFrom(o, ords, n)[k] == 0 <==> Emitted(o, ords[k]) == []
    ensures MapFrom(o, ords, n)[k] == 0 <==> MapDeletes(o, ords[k])
  {
    hide Emitted, MapDeletes;
    if k > 0 {
      PlaceCounts(o, ords[1..], if Emitted(o, ords[0]) == [] then n else n + 1, k - 1);
      PlaceCounts(o, ords[1..], if MapDeletes(o, ords[0]) then n else n + 1, k - 1);
    }
  }

  /**
   * A deletion takes effect on the command: it is not an upward link, which build_lcs never
   * matches, and no change of the same path comes before the deletion.
   */
  predicate DeletionTakes(o: Options, c: Cmd) {
    MapDeletes(o, c) ==> !c.kind.Upward? && Chosen(o.changes, c.path).Apply?
                         && Chosen(o.changes, c.path).change.newPath.Delete?
  }

  predicate Consistent(o: Options, ords: seq<Cmd>) {
    forall c :: c in ords ==> DeletionTakes(o, c)
  }

  lemma {:induction false} FirstMatchFirst(ch: seq<Change>, path: string, i: nat)
    requires i < |ch| && ch[i].oldPath == path
    ensures FirstMatch(ch, path) <= i
  {
    if ch[0].oldPath != path { FirstMatchFirst(ch[1..], path, i - 1); }
  }

  lemma DropsAgree(o: Options, c: Cmd)
    requires IsOrdinal(c)
    ensures Emitted(o, c) == [] ==> MapDeletes(o, c)
    ensures DeletionTakes(o, c) <==> (MapDeletes(o, c) <==> Emitted(o, c) == [])
  {
    var n := FirstMatch(o.changes, c.path);
    if n < |o.changes| && o.changes[n].newPath.Delete? { assert Deletion(o.changes[n], c.path); }
  }

  lemma {:induction false} ConsistentAgrees(o: Options, ords: seq<Cmd>, n: nat)
    requires forall c :: c in ords ==> IsOrdinal(c)
    requires Consistent(o, ords)
    ensures MapFrom(o, ords, n) == PlaceFrom(o, ords, n)
  {
    hide DeletionTakes, MapDeletes, Emitted;
    if |ords| > 0 {
      DropsAgree(o, ords[0]);
      ConsistentAgrees(o, ords[1..], n);
      ConsistentAgrees(o, ords[1..], n + 1);
    }
  }

  /** The map agrees with the table build_lcs emits exactly when every deletion takes. */
  lemma MapAgreesIff(o: Options, ords: seq<Cmd>, n: nat)
    requires forall c :: c in ords ==> IsOrdinal(c)
    ensures MapFrom(o, ords, n) == PlaceFrom(o, ords, n) <==> Consistent(o, ords)
  {
    hide DeletionTakes, MapDeletes, Emitted;
    if Consistent(o, ords) {
      ConsistentAgrees(o, ords, n);
    } else if MapFrom(o, ords, n) == PlaceFrom(o, ords, n) {
      forall c | c in ords
        ensures DeletionTakes(o, c)
      {
        var k :| 0 <= k < |ords| && ords[k] == c;
        PlaceCounts(o, ords, n, k);
        DropsAgree(o, c);
      }
    }
  }

  predicate Contradict(a: Change, b: Change) {
    a.oldPath == b.oldPath && a.newPath.Delete? && b.newPath.To?
  }

  /** Enough for that: no deleted path is otherwise changed, and no deleted library is upward. */
  lemma DisjointIsConsistent(o: Options, ords: seq<Cmd>)
    requires forall c :: c in ords && MapDeletes(o, c) ==> !c.kind.Upward?
    requires forall a, b :: a in o.changes && b in o.changes ==> !Contradict(a, b)
    ensures Consistent(o, ords)
  {
    forall c | c in ords && MapDeletes(o, c)
      ensures DeletionTakes(o, c)
    {
      var i :| 0 <= i < |o.changes| && Deletion(o.changes[i], c.path);
      FirstMatchFirst(o.changes, c.path, i);
      assert !Contradict(o.changes[i], o.changes[FirstMatch(o.changes, c.path)]);
    }
  }

  /** An upward library keeps its command though the map calls it deleted. */
  lemma UpwardDisagrees()
    ensures exists o: Options, c: Cmd ::
      IsOrdinal(c) && |o.changes| == 1 && MapFrom(o, [c], 0) == [0] && PlaceFrom(o, [c], 0) == [1]
  {
    var o := Options([Change("/a", Delete, false)], [], [], [], [], []);
    var c := Cmd(Upward, "/a", DYLIB_HEADER, 32, []);
    assert Deletion(o.changes[0], c.path);
    assert MapFrom(o, [c][1..], 0) == [];
    assert Emitted(o, c) == [c];
    assert PlaceFrom(o, [c][1..], 1) == [];
  }

  /** With a change before the deletion of the same path, the change wins in the table. */
  lemma ChangeBeforeDeleteDisagrees()
    ensures exists o: Options, c: Cmd ::
      c.kind.Load? && |o.changes| == 2 && MapFrom(o, [c], 0) == [0] && PlaceFrom(o, [c], 0) == [1]
  {
    var o := Options([Change("/a", To("/b"), false), Change("/a", Delete, false)], [], [], [], [], []);
    var c := Cmd(Load, "/a", DYLIB_HEADER, 32, []);
    assert Deletion(o.changes[1], c.path);
    assert MapFrom(o, [c][1..], 0) == [];
    assert FirstMatch(o.changes, "/a") == 0;
    assert Emitted(o, c) == [WithChange(c, o.changes[0])];
    assert PlaceFrom(o, [c][1..], 1) == [];
  }

  // ------------------------------------------------- what an ordinal names

  function NewTable(o: Options, cmds: seq<Cmd>): seq<Cmd> { Build(o, cmds, false) }

  function FullMap(o: Options, cmds: seq<Cmd>): (r: seq<nat>)
    ensures |r| == |Ordinals(cmds)| + 1
  {
    [0] + MapFrom(o, Ordinals(cmds), |o.inserts|)
  }

  /** Ordinal now of the new table names, as changed, the command that was named in the old one. */
  predicate SameLibrary(o: Options, cmds: seq<Cmd>, was: int, now: int) {
    var before, after := Ordinals(cmds), Ordinals(NewTable(o, cmds));
    if 1 <= was <= |before|
    then 1 <= now <= |after| && Emitted(o, before[was - 1]) == [after[now - 1]]
    else now == was
  }

  lemma MapNamesSameLibrary(o: Options, cmds: seq<Cmd>, was: nat)
    requires Consistent(o, Ordinals(cmds))
    requires 1 <= was <= |Ordinals(cmds)| && FullMap(o, cmds)[was] != 0
    ensures SameLibrary(o, cmds, was, FullMap(o, cmds)[was])
  {
    hide Emitted, Consistent, Build, MapFrom, PlaceFrom, Survivors, Loads, Ordinals;
    var ords, n := Ordinals(cmds), |o.inserts|;
    ConsistentAgrees(o, ords, n);
    PlaceIsPosition(o, ords, n, was - 1);
    BuiltOrdinals(o, cmds, false);
  }

  /** The number of ordinals checked against the limit is the number the new table has. */
  lemma {:induction false} LastOrdinal(o: Options, ords: seq<Cmd>, n: nat)
    requires forall c :: c in ords ==> IsOrdinal(c)
    requires Consistent(o, ords)
    ensures Count(MapFrom(o, ords, n)) == |Survivors(o, ords)|
  {
    hide DeletionTakes, MapDeletes, Emitted;
    if |ords| > 0 {
      DropsAgree(o, ords[0]);
      assert MapFrom(o, ords, n)[1..] == MapFrom(o, ords[1..], if MapDeletes(o, ords[0]) then n else n + 1);
      LastOrdinal(o, ords[1..], if MapDeletes(o, ords[0]) then n else n + 1);
    }
  }

  function Count(numbering: seq<nat>): nat {
    if |numbering| == 0 then 0 else (if numbering[0] == 0 then 0 else 1) + Count(numbering[1..])
  }

  // --------------------------------------------------------------- sizes

  predicate Fits(c: Cmd) {
    c.kind.Other? || (c.base + |c.path| + 1 <= c.size && c.size % 8 == 0)
  }

  /** Every string still fits in its command, and commands stay eight-byte multiples. */
  lemma {:induction false} BuildFits(o: Options, cmds: seq<Cmd>, placed: bool)
    requires forall c :: c in cmds ==> Fits(c)
    ensures forall c :: c in Build(o, cmds, placed) ==> Fits(c)
  {
    hide Emitted, Stripped;
    LoadsFit(o.inserts);
    LoadsFit(o.adds);
    RpathsFit(o.radds);
    if |cmds| > 0 {
      EmittedFits(o, cmds[0]);
      BuildFits(o, cmds[1..], placed);
      BuildFits(o, cmds[1..], true);
    }
  }

  lemma EmittedFits(o: Options, c: Cmd)
    requires Fits(c)
    ensures forall e :: e in Emitted(o, c) ==> Fits(e)
  {}

  lemma LoadsFit(paths: seq<string>)
    ensures forall c :: c in Loads(paths) ==> Fits(c)
  {}

  lemma RpathsFit(paths: seq<string>)
    ensures forall c :: c in Rpaths(paths) ==> Fits(c)
  {}

  function TotalSize(cmds: seq<Cmd>): nat {
    if |cmds| == 0 then 0 else cmds[0].size + TotalSize(cmds[1..])
  }

  lemma {:induction false} TotalAppend(a: seq<Cmd>, b: seq<Cmd>)
    ensures TotalSize(a + b) == TotalSize(a) + TotalSize(b)
  {
    if |a| == 0 {
      assert a + b == b;
    } else {
      assert (a + b)[1..] == a[1..] + b;
      TotalAppend(a[1..], b);
    }
  }

  // ------------------------------------------------- the scratch buffer

  const SLACK := 64

  function AddedSize(o: Options): nat {
    TotalSize(Loads(o.inserts)) + TotalSize(Loads(o.adds)) + TotalSize(Rpaths(o.radds))
  }

  /** What main allocates for build_lcs to write to; firstSect is the first section's file offset. */
  function Scratch(o: Options, firstSect: nat): nat { firstSect + AddedSize(o) + SLACK }

  /** By how much the options lengthen the old commands altogether; negative if they shorten them. */
  function Lengthened(o: Options, cmds: seq<Cmd>): int {
    if |cmds| == 0 then 0 else TotalSize(Emitted(o, cmds[0])) - cmds[0].size + Lengthened(o, cmds[1..])
  }

  lemma {:induction false} BuildSize(o: Options, cmds: seq<Cmd>, placed: bool)
    ensures TotalSize(Build(o, cmds, placed)) ==
            TotalSize(cmds) + Lengthened(o, cmds) + AddedSize(o) - if placed then TotalSize(Loads(o.inserts)) else 0
  {
    hide Emitted, Stripped, Loads, Rpaths, TotalSize;
    var front := if placed then [] else Loads(o.inserts);
    if |cmds| == 0 {
      NoSize();
      TotalAppend(front + Loads(o.adds), Rpaths(o.radds));
      TotalAppend(front, Loads(o.adds));
      assert cmds == [];
    } else {
      var here := !placed && |o.inserts| > 0 && !Stripped(o, cmds[0]) && IsOrdinal(cmds[0]);
      var a, rest := if here then Loads(o.inserts) else [], Build(o, cmds[1..], placed || here);
      BuildSize(o, cmds[1..], placed || here);
      NoSize();
      TotalAppend(a + Emitted(o, cmds[0]), rest);
      TotalAppend(a, Emitted(o, cmds[0]));
      HeadSize(cmds);
    }
  }

  lemma NoSize()
    ensures TotalSize([]) == 0
  {}

  lemma HeadSize(cmds: seq<Cmd>)
    requires |cmds| > 0
    ensures TotalSize(cmds) == cmds[0].size + TotalSize(cmds[1..])
  {}

  /**
   * The new table fits the buffer it is built in exactly if the changes do not lengthen the old
   * commands by more than the slack and the room they had.
   */
  lemma ScratchFitsIff(o: Options, cmds: seq<Cmd>, firstSect: nat)
    ensures TotalSize(NewTable(o, cmds)) <= Scratch(o, firstSect) <==>
            TotalSize(cmds) + Lengthened(o, cmds) <= firstSect + SLACK
  {
    hide TotalSize, Lengthened, Build;
    BuildSize(o, cmds, false);
  }

  /** A path made two hundred characters long in a header with no room left: 232 bytes for a buffer of 128. */
  lemma LongPathOverruns(path: string)
    requires |path| == 200
    ensures var o := Options([Change("/a", To(path), false)], [], [], [], [], []);
      var cmds := [Cmd(Load, "/a", DYLIB_HEADER, 32, [])];
      TotalSize(cmds) == 32 && TotalSize(NewTable(o, cmds)) == 232 && Scratch(o, 64) == 128
  {
    var o := Options([Change("/a", To(path), false)], [], [], [], [], []);
    var c := Cmd(Load, "/a", DYLIB_HEADER, 32, []);
    var cmds := [c];
    NoSize();
    assert cmds[1..] == [];
    assert FirstMatch(o.changes, "/a") == 0;
    var e := WithChange(c, o.changes[0]);
    assert Emitted(o, c) == [e] && e.size == 232;
    assert [e][1..] == [] && TotalSize([e]) == 232;
    assert Lengthened(o, []) == 0 && Lengthened(o, cmds) == 200;
    BuildSize(o, cmds, false);
  }
}
