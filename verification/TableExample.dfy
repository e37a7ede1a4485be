/**
 * A function for which scan_function writes a jump over a switch table: the pass that patches
 * walks on into the table that the pass before it recognized.
 */
module TableExample {
  import opened ByteStrings
  import opened X86Len
  import opened ControlFlow
  import opened Trampoline
  import opened Patcher
  import opened SwitchTables
  import JumpTable
  import VexDecode

  /** A dispatch over a table of two entries, whose first five bytes decode as andn. */
  const DISPATCH: Bytes := [
    0x83, 0xF8, 0x01,                           // cmp eax, 1
    0x77, 0x7F,                                 // ja past the function
    0x48, 0x8D, 0x0D, 0x09, 0x00, 0x00, 0x00,   // lea rcx, [rip+9]
    0x48, 0x63, 0x14, 0x81,                     // movsxd rdx, [rcx+rax*4]
    0x48, 0x01, 0xCA,                           // add rdx, rcx
    0xFF, 0xE2,                                 // jmp rdx
    0xC4, 0xE2, 0x70, 0xF2, 0xC2, 0x90, 0x90, 0x90]

  predicate Example(f: Func) {
    f.text == DISPATCH && f.fstart == 0 && f.fend == 29 && |f.text| == 29
  }

  // ------------------------------------------------- its instructions

  lemma Opens(s: Bytes)
    requires |s| > 0 && !IsPrefix(s[0])
    ensures ScanPrefixes(s, 0, false, -1) == Prefixes(0, false, -1)
  {}

  /** What both passes ask about an instruction. */
  ghost predicate Plain(s: Bytes, n: nat) { Length(s).len == n && !VexDecode.Decode(s).Ok? }

  lemma NoVex(s: Bytes)
    requires |s| > 1
    requires s[0] == 0x83 || s[0] == 0x77 || s[0] == 0xFF
      || (s[0] == 0x48 && (s[1] == 0x8D || s[1] == 0x63 || s[1] == 0x01))
    ensures !VexDecode.Decode(s).Ok?
  {
    hide VexDecode.DecodeVex, VexDecode.DecodeLegacy;
    var l := VexDecode.Legacy(0, 0, false, false, false);
    assert VexDecode.ScanPadding(s, 0, 0) == VexDecode.Padding(0, 0);
    if s[0] == 0x48 {
      var r := VexDecode.AfterRex(l, s[0]);
      assert VexDecode.LegacyScan(s, l, 0) == VexDecode.LegacyScan(s, r, 0) == r;
    } else {
      assert VexDecode.LegacyScan(s, l, 0) == l;
    }
  }

  lemma CmpReads(s: Bytes)
    requires |s| > 3 && s[0] == 0x83 && s[1] == 0xF8
    ensures Plain(s, 3) && !IsJmpIndirect(s)
  {
    Opens(s);
    NoVex(s);
  }

  lemma JaReads(s: Bytes)
    requires |s| > 2 && s[0] == 0x77
    ensures Plain(s, 2) && !IsJmpIndirect(s)
  {
    Opens(s);
    NoVex(s);
  }

  lemma LeaReads(s: Bytes)
    requires |s| > 7 && s[0] == 0x48 && s[1] == 0x8D && s[2] == 0x0D
    ensures Plain(s, 7) && !IsJmpIndirect(s)
  {
    Opens(s);
    NoVex(s);
  }

  lemma MovsxdReads(s: Bytes)
    requires |s| > 4 && s[0] == 0x48 && s[1] == 0x63 && s[2] == 0x14 && s[3] == 0x81
    ensures Plain(s, 4) && !IsJmpIndirect(s)
  {
    Opens(s);
    NoVex(s);
  }

  lemma AddReads(s: Bytes)
    requires |s| > 3 && s[0] == 0x48 && s[1] == 0x01 && s[2] == 0xCA
    ensures Plain(s, 3) && !IsJmpIndirect(s)
  {
    Opens(s);
    NoVex(s);
  }

  lemma JmpReads(s: Bytes)
    requires |s| > 2 && s[0] == 0xFF && s[1] == 0xE2
    ensures Plain(s, 2) && IsJmpIndirect(s)
  {
    Opens(s);
    NoVex(s);
  }

  lemma EntryReads(s: Bytes)
    requires |s| == 8 && s[0] == 0xC4 && s[1] == 0xE2 && s[2] == 0x70 && s[3] == 0xF2 && s[4] == 0xC2
    ensures Length(s).len == 5 && VexDecode.Decode(s).Ok?
  {
    Opens(s);
    assert VexDecode.ScanPadding(s, 0, 0) == VexDecode.Padding(0, 0);
  }

  ghost predicate Walks(f: Func, x: int, n: nat)
    requires Valid(f)
  {
    InFunc(f, x) && Len(f, x) == n && !PadTail(f, x) && !Faulting(f, x)
  }

  lemma WalkOne(f: Func, x: nat, n: nat)
    requires Example(f) && x < 29 && n > 0 && Plain(f.text[x..], n) && !PadByte(f.text[x])
    ensures Walks(f, x, n) && IndirectAt(f, x) == IsJmpIndirect(f.text[x..])
  {
    hide Length, VexDecode.Decode, IsJmpIndirect;
    assert f.text[x..f.fend] == f.text[x..];
  }

  lemma CmpWalks(f: Func)
    requires Example(f)
    ensures Walks(f, 0, 3) && !IndirectAt(f, 0)
  {
    hide Length, VexDecode.Decode, IsJmpIndirect, Plain, Walks, IndirectAt;
    var s := f.text[0..];
    assert s[0] == 0x83 && s[1] == 0xF8;
    CmpReads(s);
    WalkOne(f, 0, 3);
  }

  lemma JaWalks(f: Func)
    requires Example(f)
    ensures Walks(f, 3, 2) && !IndirectAt(f, 3)
  {
    hide Length, VexDecode.Decode, IsJmpIndirect, Plain, Walks, IndirectAt;
    var s := f.text[3..];
    assert s[0] == 0x77;
    JaReads(s);
    WalkOne(f, 3, 2);
  }

  lemma LeaWalks(f: Func)
    requires Example(f)
    ensures Walks(f, 5, 7) && !IndirectAt(f, 5)
  {
    hide Length, VexDecode.Decode, IsJmpIndirect, Plain, Walks, IndirectAt;
    var s := f.text[5..];
    assert s[0] == 0x48 && s[1] == 0x8D && s[2] == 0x0D;
    LeaReads(s);
    WalkOne(f, 5, 7);
  }

  lemma MovsxdWalks(f: Func)
    requires Example(f)
    ensures Walks(f, 12, 4) && !IndirectAt(f, 12)
  {
    hide Length, VexDecode.Decode, IsJmpIndirect, Plain, Walks, IndirectAt;
    var s := f.text[12..];
    assert s[0] == 0x48 && s[1] == 0x63 && s[2] == 0x14 && s[3] == 0x81;
    MovsxdReads(s);
    WalkOne(f, 12, 4);
  }

  lemma AddWalks(f: Func)
    requires Example(f)
    ensures Walks(f, 16, 3) && !IndirectAt(f, 16)
  {
    hide Length, VexDecode.Decode, IsJmpIndirect, Plain, Walks, IndirectAt;
    var s := f.text[16..];
    assert s[0] == 0x48 && s[1] == 0x01 && s[2] == 0xCA;
    AddReads(s);
    WalkOne(f, 16, 3);
  }

  lemma JmpWalks(f: Func)
    requires Example(f)
    ensures Walks(f, 19, 2) && IndirectAt(f, 19)
  {
    hide Length, VexDecode.Decode, IsJmpIndirect, Plain, Walks, IndirectAt;
    var s := f.text[19..];
    assert s[0] == 0xFF && s[1] == 0xE2;
    JmpReads(s);
    WalkOne(f, 19, 2);
  }

  // ------------------------------------------------------ the first pass

  /** The bytes of the compare and the guard. */
  lemma BoundBytes(f: Func)
    requires Example(f)
    ensures var t := AsText(f.text);
      t(0) == 0x83 && t(1) == 0xF8 && t(2) == 0x01 && t(3) == 0x77 && t(4) == 0x7F
  {
    ByteAt(f, 0);
    ByteAt(f, 1);
    ByteAt(f, 2);
    ByteAt(f, 3);
    ByteAt(f, 4);
    hide AsText;
  }

  lemma ByteAt(f: Func, k: nat)
    requires Example(f) && k < 29
    ensures AsText(f.text)(k) == DISPATCH[k]
  {}

  lemma LeaBytes(f: Func)
    requires Example(f)
    ensures var t := AsText(f.text);
      t(5) == 0x48 && t(6) == 0x8D && t(7) == 0x0D && t(8) == 9 && t(9) == 0 && t(10) == 0 && t(11) == 0
  {
    hide AsText, Example;
    LeaDisplacement(f);
    ByteAt(f, 5);
    ByteAt(f, 6);
    ByteAt(f, 7);
  }

  lemma LeaDisplacement(f: Func)
    requires Example(f)
    ensures var t := AsText(f.text); t(8) == 9 && t(9) == 0 && t(10) == 0 && t(11) == 0
  {
    hide AsText, Example;
    ByteAt(f, 8);
    ByteAt(f, 9);
    ByteAt(f, 10);
    ByteAt(f, 11);
  }

  lemma LoadBytes(f: Func)
    requires Example(f)
    ensures var t := AsText(f.text);
      && t(12) == 0x48 && t(13) == 0x63 && t(14) == 0x14 && t(15) == 0x81
      && t(16) == 0x48 && t(17) == 0x01 && t(18) == 0xCA && t(19) == 0xFF && t(20) == 0xE2
  {}

  lemma JumpMatched(t: JumpTable.Text)
    requires t(16) == 0x48 && t(17) == 0x01 && t(18) == 0xCA && t(19) == 0xFF && t(20) == 0xE2
    ensures JumpTable.JumpOf(t, 19, 2) == 2 && JumpTable.AddendOf(t, 16, 2) == 1
  {}

  lemma LoadMatched(t: JumpTable.Text)
    requires t(12) == 0x48 && t(13) == 0x63 && t(14) == 0x14 && t(15) == 0x81
    ensures JumpTable.IndexOf(t, 12, 2, 1) == 0
  {}

  lemma LeaMatched(t: JumpTable.Text)
    requires t(5) == 0x48 && t(6) == 0x8D && t(7) == 0x0D && t(8) == 9 && t(9) == 0 && t(10) == 0 && t(11) == 0
    ensures JumpTable.LeaLoads(t, 5, 1) && JumpTable.LeaTarget(t, 5) == 21
  {}

  lemma BoundMatched(t: JumpTable.Text)
    requires t(0) == 0x83 && t(1) == 0xF8 && t(2) == 0x01 && t(3) == 0x77 && t(4) == 0x7F
    ensures JumpTable.IsJa(t, 3) && JumpTable.JaTarget(t, 3) == 132
    ensures !JumpTable.IsJa(t, 0) && JumpTable.CmpBound(t, 0, 0) == 1
  {}

  lemma WindowMatches(f: Func)
    requires Example(f)
    ensures JumpTable.MatchWindow(AsText(f.text), 0, 29, [0, 3, 5, 12, 16], 19, 2) == JumpTable.Dispatch(2, 1, 0, 21)
  {
    hide AsText, JumpTable.JumpOf, JumpTable.AddendOf, JumpTable.IndexOf, JumpTable.LeaLoads, JumpTable.LeaTarget;
    LeaBytes(f);
    LoadBytes(f);
    JumpMatched(AsText(f.text));
    LoadMatched(AsText(f.text));
    LeaMatched(AsText(f.text));
  }

  lemma BoundFound(f: Func)
    requires Example(f)
    ensures JumpTable.SearchBound(AsText(f.text), [0, 3, 5, 12, 16], 19, 0, 1, false) == JumpTable.Bounded(2, 0)
  {
    BoundBytes(f);
    hide AsText;
    var t := AsText(f.text);
    var ring := [0, 3, 5, 12, 16];
    BoundMatched(t);
    hide JumpTable.IsJa, JumpTable.JaTarget, JumpTable.CmpBound;
    assert JumpTable.SearchBound(t, ring, 19, 0, 0, true) == JumpTable.Bounded(2, 0);
  }

  lemma TableFound(f: Func)
    requires Example(f)
    ensures Walks(f, 19, 2) && TableFor(f, 19, [0, 3, 5, 12, 16], []) == JumpTable.Table(21, 2, 0)
  {
    hide Walks, Length, IsJmpIndirect, JumpTable.MatchWindow, JumpTable.SearchBound, AsText;
    JmpWalks(f);
    WindowMatches(f);
    BoundFound(f);
    WalkLen(f, 19, 2);
  }

  lemma WalkLen(f: Func, x: int, n: nat)
    requires Valid(f) && Walks(f, x, n)
    ensures InFunc(f, x) && Len(f, x) == n && !PadTail(f, x)
  {
    hide Len, PadTail, Faulting;
  }

  /** An instruction that is no indirect jump only joins the others. */
  lemma StepOver(f: Func, x: nat, n: nat, ring: seq<int>)
    requires Example(f) && Walks(f, x, n) && n > 0 && !IndirectAt(f, x)
    ensures PassFrom(f, x, ring, []) == Then(x, JumpTable.NoTable, false, PassFrom(f, x + n, Pushed(ring, x), []))
  {
    hide Walks, IndirectAt, Len, PadTail, TableFor, Then, PassFrom;
    WalkLen(f, x, n);
    PassStep(f, x, ring, []);
    NoJumpNoTable(f, x, ring);
    assert [] + RangeOf(JumpTable.NoTable) == [];
  }

  lemma NoJumpNoTable(f: Func, x: int, ring: seq<int>)
    requires Valid(f) && InFunc(f, x) && !IndirectAt(f, x)
    ensures TableFor(f, x, ring, []).NoTable?
  {
    hide IndirectAt, Len;
  }

  /** From the jump on: its table is recorded, and stepped over. */
  lemma JumpPassed(f: Func)
    requires Example(f)
    ensures PassFrom(f, 19, [0, 3, 5, 12, 16], []) == Pass([19], [Dispatch(19, 21, 2)], false, true)
  {
    hide Walks, IndirectAt, Len, PadTail, TableFor;
    var ring := [0, 3, 5, 12, 16];
    TableFound(f);
    WalkLen(f, 19, 2);
    PassStep(f, 19, ring, []);
    var tab := [] + RangeOf(JumpTable.Table(21, 2, 0));
    assert tab == [JumpTable.Range(21, 29)];
    assert Inside(tab, 21) == 0;
    assert PassFrom(f, 21, Pushed(ring, 19), tab) == PassFrom(f, 29, [], tab) == Pass([], [], false, true);
  }

  lemma Rings()
    ensures Pushed([], 0) == [0] && Pushed([0], 3) == [0, 3] && Pushed([0, 3], 5) == [0, 3, 5]
    ensures Pushed([0, 3, 5], 12) == [0, 3, 5, 12] && Pushed([0, 3, 5, 12], 16) == [0, 3, 5, 12, 16]
  {}

  lemma FirstPassFinds(f: Func)
    requires Example(f)
    ensures FirstPass(f) == Pass([0, 3, 5, 12, 16, 19], [Dispatch(19, 21, 2)], false, true)
  {
    hide Walks, IndirectAt, PassFrom, Pushed;
    Rings();
    CmpWalks(f);
    JaWalks(f);
    LeaWalks(f);
    MovsxdWalks(f);
    AddWalks(f);
    StepOver(f, 0, 3, []);
    StepOver(f, 3, 2, [0]);
    StepOver(f, 5, 7, [0, 3]);
    StepOver(f, 12, 4, [0, 3, 5]);
    StepOver(f, 16, 3, [0, 3, 5, 12]);
    JumpPassed(f);
  }

  // ----------------------------------------------------- the second pass

  lemma EntryFaults(f: Func)
    requires Example(f) && forall d :: f.faults(d)
    ensures Len(f, 21) == 5 && !PadTail(f, 21) && Faulting(f, 21) && PadTail(f, 26)
  {
    hide Length, VexDecode.Decode;
    var s := f.text[21..];
    assert f.text[21..f.fend] == s;
    assert s[0] == 0xC4 && s[1] == 0xE2 && s[2] == 0x70 && s[3] == 0xF2 && s[4] == 0xC2;
    EntryReads(s);
    assert !PadByte(f.text[21]);
  }

  lemma StartsStep(f: Func, x: nat, n: nat)
    requires Example(f) && Walks(f, x, n) && n > 0
    ensures Starts(f, x) == [x] + Starts(f, x + n) && !Faulting(f, x)
  {
    hide Len, PadTail, Faulting;
  }

  /** It walks on into the table. */
  lemma SecondPassWalks(f: Func)
    requires Example(f) && forall d :: f.faults(d)
    ensures Starts(f, 0) == [0, 3, 5, 12, 16, 19, 21]
    ensures forall x :: Boundary(f, x) && Faulting(f, x) <==> x == 21
  {
    hide Walks, IndirectAt, Starts, Faulting, Len, PadTail;
    CmpWalks(f);
    JaWalks(f);
    LeaWalks(f);
    MovsxdWalks(f);
    AddWalks(f);
    JmpWalks(f);
    StartsStep(f, 0, 3);
    StartsStep(f, 3, 2);
    StartsStep(f, 5, 7);
    StartsStep(f, 12, 4);
    StartsStep(f, 16, 3);
    StartsStep(f, 19, 2);
    EntryFaults(f);
    LastStarts(f);
  }

  lemma LastStarts(f: Func)
    requires Example(f) && forall d :: f.faults(d)
    ensures Starts(f, 21) == [21] && Starts(f, 26) == []
  {
    hide Len, PadTail, Faulting;
    EntryFaults(f);
    assert Starts(f, 26) == [];
    assert Starts(f, 21) == [21] + Starts(f, 26);
  }

  /**
   * The function decodes cleanly and has no unresolved jump, so it is patched: with the thunk
   * in reach the only run is the table's first entry, and whatever the thunk's address the jump
   * written over it changes where the entry leads.
   */
  lemma TablePatched(f: Func, base: int, thunkFor: (int, int) -> Thunk)
    requires Example(f) && (forall d :: f.faults(d)) && Reachable(base, 21, thunkFor(21, 26))
    ensures Clean(f) && !HasIndirect(f) && FirstPass(f).dispatches == [Dispatch(19, 21, 2)]
    ensures RunsUpTo(f, [Run([21], 21, 26)], 29)
    ensures JumpsOf(f, base, thunkFor, [Run([21], 21, 26)]) == [Jump(Patch(21, 26), thunkFor(21, 26).addr)]
    ensures forall t :: PatchedText(f, base, [Jump(Patch(21, 26), thunkFor(21, 26).addr)], t) ==>
      JumpTable.Entry(AsText(t), 21, 0) != JumpTable.Entry(AsText(f.text), 21, 0)
  {
    assert thunkFor(21, 26).At?;
    hide RunsUpTo, GoodPatch, FirstPass, Reachable, PatchedText, JumpTable.Entry, AsText;
    FirstPassFinds(f);
    OneRun(f);
    var r := Run([21], 21, 26);
    var one := [r];
    FirstGoodIs(f, r, 0, 0);
    assert one[..0] == [] && JumpsOf(f, base, thunkFor, one[..0]) == [];
    forall t | PatchedText(f, base, [Jump(Patch(21, 26), thunkFor(21, 26).addr)], t)
      ensures JumpTable.Entry(AsText(t), 21, 0) != JumpTable.Entry(AsText(f.text), 21, 0)
    {
      EntryChanges(f, base, Jump(Patch(21, 26), thunkFor(21, 26).addr), t);
    }
  }

  lemma EntryChanges(f: Func, base: int, j: Jump, t: Bytes)
    requires Example(f) && (forall d :: f.faults(d)) && j.patch == Patch(21, 26) && PatchedText(f, base, [j], t)
    ensures JumpTable.Entry(AsText(t), 21, 0) != JumpTable.Entry(AsText(f.text), 21, 0)
  {
    hide PatchedText, GoodPatch, JumpTable.Entry, AsText;
    OneRun(f);
    assert Patches([j])[0] == Patch(21, 26);
    SiteChanges(f, base, [j], t, 0);
    EntryIff(AsText(t), AsText(f.text), 21, 0);
    assert 21 + 4 * 0 + 0 == 21;
  }

  lemma OneRun(f: Func)
    requires Example(f) && forall d :: f.faults(d)
    ensures RunsUpTo(f, [Run([21], 21, 26)], 29) && GoodPatch(f, Patch(21, 26))
  {
    hide MaximalRun, Faulting, Starts, SafeStart, AllFault;
    SecondPassWalks(f);
    EntryRun(f);
    var one := [Run([21], 21, 26)];
    assert one[0].offs[0] == 21 && InRuns(one, 21);
    EntrySafe(f);
  }

  lemma EntrySafe(f: Func)
    requires Example(f) && forall d :: f.faults(d)
    ensures SafeStart(f, 21)
  {
    hide Len, HasIndirect, Marked;
    EntryFaults(f);
  }

  lemma EntryRun(f: Func)
    requires Example(f) && forall d :: f.faults(d)
    ensures MaximalRun(f, Run([21], 21, 26)) && AllFault(f, 21, 26)
  {
    hide Len, Faulting, Starts, PadTail;
    SecondPassWalks(f);
    LastStarts(f);
    EntryFaults(f);
    assert AllFault(f, 26, 26) && AllFault(f, 21, 26);
    assert OnWalk(f, 26);
    assert [21][0] == 21;
    assert !Faulting(f, 26) by { if Faulting(f, 26) { FaultNotPadding(f, 26); } }
  }
}
