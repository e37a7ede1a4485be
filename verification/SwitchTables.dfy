/**
 * The second pass against the switch tables that the first one recorded: which jumps leave every
 * table entry as it was.
 */
module SwitchTables {
  import opened ByteStrings
  import opened Trampoline
  import opened Patcher
  import JumpTable
  import VexDecode

  // --------------------------------------------------- the jumps of a scan

  /** The jumps written are those called for by the runs that can be patched. */
  lemma {:induction false} JumpsAre(f: Func, base: int, thunkFor: (int, int) -> Thunk, runs: seq<Run>, j: Jump)
    requires Valid(f)
    ensures j in JumpsOf(f, base, thunkFor, runs) <==>
      exists i :: 0 <= i < |runs| && Patchable(f, base, thunkFor, runs[i]) && j == Called(f, base, thunkFor, runs[i])
  {
    hide Patchable, Called;
    if |runs| > 0 {
      var n := |runs| - 1;
      var front := runs[..n];
      JumpsAre(f, base, thunkFor, front, j);
      assert forall i :: 0 <= i < n ==> front[i] == runs[i];
      assert forall i :: 0 <= i < |runs| ==> i < n || runs[i] == runs[n];
    }
  }

  /** They stay in code exactly if each run that is patched does. */
  lemma InCodeIff(f: Func, base: int, thunkFor: (int, int) -> Thunk, runs: seq<Run>)
    requires Valid(f)
    ensures AllInCode(f, JumpsOf(f, base, thunkFor, runs)) <==>
      forall i :: 0 <= i < |runs| && Patchable(f, base, thunkFor, runs[i]) ==>
        InCode(f, Called(f, base, thunkFor, runs[i]).patch)
  {
    hide Patchable, Called, JumpsOf, InCode;
    var js := JumpsOf(f, base, thunkFor, runs);
    forall i | 0 <= i < |runs| && Patchable(f, base, thunkFor, runs[i])
      ensures Called(f, base, thunkFor, runs[i]) in js
    {
      JumpsAre(f, base, thunkFor, runs, Called(f, base, thunkFor, runs[i]));
    }
    forall k | 0 <= k < |js|
      ensures exists i ::
        0 <= i < |runs| && Patchable(f, base, thunkFor, runs[i]) && js[k] == Called(f, base, thunkFor, runs[i])
    {
      JumpsAre(f, base, thunkFor, runs, js[k]);
    }
  }

  // ------------------------------------------------------- table entries

  predicate InTable(d: Dispatch, k: int) { d.tbl <= k < d.tbl + 4 * d.n }

  /** Every entry of every resolved dispatch reads in t as it did before. */
  ghost predicate TablesKept(f: Func, t: Bytes)
    requires Valid(f)
  {
    forall d :: d in FirstPass(f).dispatches ==> EntriesKept(AsText(f.text), AsText(t), d)
  }

  ghost predicate EntriesKept(t: JumpTable.Text, u: JumpTable.Text, d: Dispatch) {
    forall i: nat :: i < d.n ==> JumpTable.Entry(u, d.tbl, i) == JumpTable.Entry(t, d.tbl, i)
  }

  ghost predicate BytesKept(t: JumpTable.Text, u: JumpTable.Text, d: Dispatch) {
    forall k :: InTable(d, k) ==> u(k) == t(k)
  }

  /**
   * What can be told of a jump before it is written: it starts in no table, and if it reaches
   * into one, the bytes of its displacement that fall there are there already.
   */
  ghost predicate Harmless(f: Func, base: int, j: Jump)
    requires Valid(f)
  {
    forall d :: d in FirstPass(f).dispatches ==> Spares(f, base, j, d)
  }

  ghost predicate Spares(f: Func, base: int, j: Jump, d: Dispatch) {
    && !InTable(d, j.patch.site)
    && forall k :: 0 < k < JMP && InTable(d, j.patch.site + k) ==>
         JumpBytes(Rel(base, j))[k] == AsText(f.text)(j.patch.site + k)
  }

  predicate SameFour(t: JumpTable.Text, u: JumpTable.Text, p: int) {
    t(p) == u(p) && t(p + 1) == u(p + 1) && t(p + 2) == u(p + 2) && t(p + 3) == u(p + 3)
  }

  /** An entry is its four bytes. */
  lemma EntryIff(t: JumpTable.Text, u: JumpTable.Text, tbl: int, i: nat)
    ensures JumpTable.Entry(t, tbl, i) == JumpTable.Entry(u, tbl, i) <==> SameFour(t, u, tbl + 4 * i)
  {
    var p := tbl + 4 * i;
    Unwrapped(t, p);
    Unwrapped(u, p);
    if JumpTable.Entry(t, tbl, i) == JumpTable.Entry(u, tbl, i) {
      LittleEndian(t(p), t(p + 1), t(p + 2), t(p + 3), u(p), u(p + 1), u(p + 2), u(p + 3));
    }
  }

  function Unsigned(a: Byte, b: Byte, c: Byte, d: Byte): (v: int)
    ensures 0 <= v < 0x1_0000_0000
  {
    a + 0x100 * (b + 0x100 * (c + 0x100 * d))
  }

  lemma Unwrapped(t: JumpTable.Text, p: int)
    ensures JumpTable.Int32At(t, p) % 0x1_0000_0000 == Unsigned(t(p), t(p + 1), t(p + 2), t(p + 3))
  {}

  lemma LittleEndian(a: Byte, b: Byte, c: Byte, d: Byte, a': Byte, b': Byte, c': Byte, d': Byte)
    requires Unsigned(a, b, c, d) == Unsigned(a', b', c', d')
    ensures a == a' && b == b' && c == c' && d == d'
  {}

  /** A table's entries are kept exactly if its bytes are. */
  lemma KeptBytes(t: JumpTable.Text, u: JumpTable.Text, d: Dispatch)
    ensures EntriesKept(t, u, d) <==> BytesKept(t, u, d)
  {
    hide JumpTable.Entry;
    if EntriesKept(t, u, d) {
      forall k | InTable(d, k)
        ensures u(k) == t(k)
      {
        var i: nat := (k - d.tbl) / 4;
        EntryIff(t, u, d.tbl, i);
      }
    }
    if BytesKept(t, u, d) {
      forall i: nat | i < d.n
        ensures JumpTable.Entry(u, d.tbl, i) == JumpTable.Entry(t, d.tbl, i)
      {
        EntryIff(t, u, d.tbl, i);
      }
    }
  }

  // -------------------------------------------------------- the condition

  /** The bytes of a written jump, one by one. */
  lemma WrittenByte(f: Func, base: int, js: seq<Jump>, t: Bytes, i: nat, k: nat)
    requires PatchedText(f, base, js, t) && i < |js| && k < JMP
    ensures AsText(t)(js[i].patch.site + k) == JumpBytes(Rel(base, js[i]))[k]
  {
    hide JumpBytes, InInt32;
    var site := js[i].patch.site;
    assert t[site..site + JMP][k] == t[site + k];
  }

  /** The opcode of the jump is a byte that was not there: no faulting instruction starts like that. */
  lemma SiteChanges(f: Func, base: int, js: seq<Jump>, t: Bytes, i: nat)
    requires Valid(f) && GoodPatches(f, Patches(js)) && PatchedText(f, base, js, t) && i < |js|
    ensures AsText(t)(js[i].patch.site) == 0xE9 != AsText(f.text)(js[i].patch.site)
  {
    hide PatchedText, VexDecode.Decode, SafeStart, Boundary;
    var p := js[i].patch;
    assert Patches(js)[i] == p;
    GoodPatchRange(f, p);
    assert Faulting(f, p.site);
    VexDecode.NotNearJump(f.text[p.site..]);
    assert f.text[p.site..][0] == f.text[p.site];
    WrittenByte(f, base, js, t, i, 0);
    assert p.site + 0 == p.site;
  }

  lemma KeptSpares(f: Func, base: int, js: seq<Jump>, t: Bytes, i: nat, d: Dispatch)
    requires Valid(f) && GoodPatches(f, Patches(js)) && PatchedText(f, base, js, t) && i < |js|
    requires BytesKept(AsText(f.text), AsText(t), d)
    ensures Spares(f, base, js[i], d)
  {
    hide GoodPatches, PatchedText, AsText, JumpBytes, Rel, InTable;
    SiteChanges(f, base, js, t, i);
    forall k | 0 < k < JMP && InTable(d, js[i].patch.site + k)
      ensures JumpBytes(Rel(base, js[i]))[k] == AsText(f.text)(js[i].patch.site + k)
    {
      WrittenByte(f, base, js, t, i, k);
    }
  }

  lemma SparedByte(f: Func, base: int, js: seq<Jump>, t: Bytes, d: Dispatch, k: int)
    requires PatchedText(f, base, js, t) && InTable(d, k)
    requires forall i :: 0 <= i < |js| ==> Spares(f, base, js[i], d)
    ensures AsText(t)(k) == AsText(f.text)(k)
  {
    hide JumpBytes, InInt32, Rel, InTable, Spares;
    if i :| 0 <= i < |js| && js[i].patch.site <= k < js[i].patch.site + JMP {
      var b := k - js[i].patch.site;
      WrittenByte(f, base, js, t, i, b);
      SparesByte(f, base, js[i], d, b);
    }
  }

  lemma SparesByte(f: Func, base: int, j: Jump, d: Dispatch, b: nat)
    requires Spares(f, base, j, d) && b < JMP && InTable(d, j.patch.site + b)
    ensures JumpBytes(Rel(base, j))[b] == AsText(f.text)(j.patch.site + b)
  {
    hide JumpBytes, AsText, InTable;
    assert b == 0 ==> j.patch.site + b == j.patch.site;
  }

  /** A patched text keeps every table exactly if every jump in it is harmless. */
  lemma KeptIff(f: Func, base: int, js: seq<Jump>, t: Bytes)
    requires Valid(f) && GoodPatches(f, Patches(js)) && PatchedText(f, base, js, t)
    ensures TablesKept(f, t) <==> forall i :: 0 <= i < |js| ==> Harmless(f, base, js[i])
  {
    hide GoodPatches, PatchedText, AsText, Spares, FirstPass, EntriesKept, BytesKept;
    forall d | d in FirstPass(f).dispatches
      ensures EntriesKept(AsText(f.text), AsText(t), d) <==> forall i :: 0 <= i < |js| ==> Spares(f, base, js[i], d)
    {
      KeptBytes(AsText(f.text), AsText(t), d);
      BytesIff(f, base, js, t, d);
    }
  }

  lemma BytesIff(f: Func, base: int, js: seq<Jump>, t: Bytes, d: Dispatch)
    requires Valid(f) && GoodPatches(f, Patches(js)) && PatchedText(f, base, js, t)
    ensures BytesKept(AsText(f.text), AsText(t), d) <==> forall i :: 0 <= i < |js| ==> Spares(f, base, js[i], d)
  {
    hide GoodPatches, PatchedText, AsText, Spares, InTable;
    if BytesKept(AsText(f.text), AsText(t), d) {
      forall i | 0 <= i < |js|
        ensures Spares(f, base, js[i], d)
      {
        KeptSpares(f, base, js, t, i, d);
      }
    }
    if forall i :: 0 <= i < |js| ==> Spares(f, base, js[i], d) {
      forall k | InTable(d, k)
        ensures AsText(t)(k) == AsText(f.text)(k)
      {
        SparedByte(f, base, js, t, d, k);
      }
    }
  }

  /**
   * scan_function leaves the switch tables as they were exactly if for each run it patches the
   * jump from the first safe start is harmless, which can be told from the text and the thunk's
   * address before anything is written.
   */
  lemma TablesKeptIff(f: Func, base: int, thunkFor: (int, int) -> Thunk, runs: seq<Run>, t: Bytes)
    requires Valid(f) && GoodPatches(f, Patches(JumpsOf(f, base, thunkFor, runs)))
    requires PatchedText(f, base, JumpsOf(f, base, thunkFor, runs), t)
    ensures TablesKept(f, t) <==>
      forall i :: 0 <= i < |runs| && Patchable(f, base, thunkFor, runs[i]) ==>
        Harmless(f, base, Called(f, base, thunkFor, runs[i]))
  {
    hide GoodPatches, PatchedText, Harmless, JumpsOf, Patchable, Called, TablesKept;
    var js := JumpsOf(f, base, thunkFor, runs);
    KeptIff(f, base, js, t);
    forall i | 0 <= i < |runs| && Patchable(f, base, thunkFor, runs[i])
      ensures Called(f, base, thunkFor, runs[i]) in js
    {
      JumpsAre(f, base, thunkFor, runs, Called(f, base, thunkFor, runs[i]));
    }
    forall k | 0 <= k < |js|
      ensures exists i ::
        0 <= i < |runs| && Patchable(f, base, thunkFor, runs[i]) && js[k] == Called(f, base, thunkFor, runs[i])
    {
      JumpsAre(f, base, thunkFor, runs, js[k]);
    }
  }

  /** Jumps that stay in code are harmless, so they leave every table entry as it was. */
  lemma TablesIntact(f: Func, base: int, js: seq<Jump>, t: Bytes)
    requires Valid(f) && GoodPatches(f, Patches(js)) && PatchedText(f, base, js, t) && AllInCode(f, js)
    ensures TablesKept(f, t)
  {
    hide GoodPatches, PatchedText, TablesKept, FirstPass, CodeRun, AsText, JumpBytes;
    KeptIff(f, base, js, t);
    forall i, d | 0 <= i < |js| && d in FirstPass(f).dispatches
      ensures Spares(f, base, js[i], d)
    {
      assert InCode(f, js[i].patch);
    }
  }
}
