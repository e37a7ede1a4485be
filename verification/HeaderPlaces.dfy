/**
 * Where the header's commands say things are, stated from the list of commands alone: the
 * insertion point, the initializer entries, the function starts and the export trie.
 */
module HeaderPlaces {
  import opened Words
  import opened HeaderGrowth

  // ----------------------------------------------------- the insertion point

  /** off is the file offset of section j of command i. */
  predicate SectionAt(cmds: seq<Cmd>, i: nat, j: nat, off: nat) {
    i < |cmds| && cmds[i].Segment? && j < |cmds[i].sects| && cmds[i].sects[j].offset == off
  }

  ghost predicate HasOffset(cmds: seq<Cmd>, off: nat) { exists i: nat, j: nat :: SectionAt(cmds, i, j, off) }

  lemma {:induction false} LeastSectFrom(sects: seq<Sect>, a: nat)
    ensures var r := LeastOfSects(sects, a);
      && r <= a && (r < a ==> r != 0 && exists j :: 0 <= j < |sects| && sects[j].offset == r)
      && forall j :: 0 <= j < |sects| && sects[j].offset != 0 ==> r <= sects[j].offset
  {
    if |sects| > 0 {
      LeastSectFrom(sects[1..], Least(a, sects[0].offset));
      assert sects == [sects[0]] + sects[1..];
    }
  }

  predicate InHead(c: Cmd, off: nat) {
    c.Segment? && exists j :: 0 <= j < |c.sects| && c.sects[j].offset == off
  }

  lemma TailOffsets(cmds: seq<Cmd>, off: nat)
    requires |cmds| > 0
    ensures HasOffset(cmds, off) <==> (HasOffset(cmds[1..], off) || InHead(cmds[0], off))
  {
    if HasOffset(cmds[1..], off) {
      var i: nat, j: nat :| SectionAt(cmds[1..], i, j, off);
      assert SectionAt(cmds, i + 1, j, off);
    }
    if InHead(cmds[0], off) {
      var j :| 0 <= j < |cmds[0].sects| && cmds[0].sects[j].offset == off;
      assert SectionAt(cmds, 0, j, off);
    }
    if HasOffset(cmds, off) {
      var i: nat, j: nat :| SectionAt(cmds, i, j, off);
      if i > 0 { assert SectionAt(cmds[1..], i - 1, j, off); }
    }
  }

  lemma {:induction false} LeastFrom(cmds: seq<Cmd>, a: nat)
    ensures var r := LeastOffset(cmds, a);
      && r <= a && (r < a ==> r != 0 && HasOffset(cmds, r))
      && forall off: nat :: HasOffset(cmds, off) && off != 0 ==> r <= off
  {
    hide HasOffset;
    if |cmds| == 0 {
      NoOffsets(cmds);
    } else {
      var b := if cmds[0].Segment? then LeastOfSects(cmds[0].sects, a) else a;
      if cmds[0].Segment? { LeastSectFrom(cmds[0].sects, a); }
      LeastFrom(cmds[1..], b);
      forall off: nat
        ensures HasOffset(cmds, off) <==> (HasOffset(cmds[1..], off) || InHead(cmds[0], off))
      {
        TailOffsets(cmds, off);
      }
    }
  }

  lemma NoOffsets(cmds: seq<Cmd>)
    requires |cmds| == 0
    ensures forall off: nat :: !HasOffset(cmds, off)
  {}

  /** The insertion point is the smallest offset of a section with data, or one page where none has. */
  lemma FirstSectionLeast(cmds: seq<Cmd>)
    requires forall off: nat :: HasOffset(cmds, off) ==> off < NO_SECTION
    ensures var r := FirstSection(cmds);
      && (forall off: nat :: HasOffset(cmds, off) && off != 0 ==> r <= off)
      && if exists off: nat :: HasOffset(cmds, off) && off != 0 then r != 0 && HasOffset(cmds, r) else r == 4096
  {
    hide HasOffset, LeastOffset;
    LeastFrom(cmds, NO_SECTION);
  }

  /** The gap is the smallest number of whole pages that holds the request. */
  lemma GapLeast(req: nat)
    requires req + 4095 < TWO32
    ensures req <= PageRound(req) < req + 4096 && PageRound(req) % 4096 == 0
  {
    GapCovers(req);
  }

  // ------------------------------------------------------ initializer entries

  /** p is entry k of section j of command i. */
  predicate EntryAt(cmds: seq<Cmd>, i: nat, j: nat, k: nat, p: nat) {
    && i < |cmds| && cmds[i].Segment? && j < |cmds[i].sects|
    && cmds[i].sects[j].initOffsets && k < cmds[i].sects[j].size / 4 && p == cmds[i].sects[j].offset + 4 * k
  }

  ghost predicate IsEntry(cmds: seq<Cmd>, p: nat) { exists i: nat, j: nat, k: nat :: EntryAt(cmds, i, j, k, p) }

  /** p is entry k of section j of the list. */
  predicate SectEntryAt(sects: seq<Sect>, j: nat, k: nat, p: nat) {
    j < |sects| && sects[j].initOffsets && k < sects[j].size / 4 && p == sects[j].offset + 4 * k
  }

  ghost predicate IsSectEntry(sects: seq<Sect>, p: nat) { exists j: nat, k: nat :: SectEntryAt(sects, j, k, p) }

  lemma {:induction false} SectEntriesExact(sects: seq<Sect>, p: nat)
    ensures p in EntriesOfSects(sects) <==> IsSectEntry(sects, p)
  {
    if |sects| > 0 {
      SectEntriesExact(sects[1..], p);
      if p in SectEntries(sects[0]) {
        var k :| 0 <= k < sects[0].size / 4 && SectEntries(sects[0])[k] == p;
        assert SectEntryAt(sects, 0, k, p);
      }
      if IsSectEntry(sects[1..], p) {
        var j: nat, k: nat :| SectEntryAt(sects[1..], j, k, p);
        assert SectEntryAt(sects, j + 1, k, p);
      }
      if IsSectEntry(sects, p) {
        var j: nat, k: nat :| SectEntryAt(sects, j, k, p);
        if j > 0 {
          assert SectEntryAt(sects[1..], j - 1, k, p);
        } else {
          assert SectEntries(sects[0])[k] == p;
        }
      }
    }
  }

  /** The entries are every fourth byte of every initializer section, and nothing else. */
  lemma {:induction false} EntriesExact(cmds: seq<Cmd>, p: nat)
    ensures p in Entries(cmds) <==> IsEntry(cmds, p)
  {
    hide EntriesOfSects;
    if |cmds| > 0 {
      EntriesExact(cmds[1..], p);
      if cmds[0].Segment? { SectEntriesExact(cmds[0].sects, p); }
      if p in CmdEntries(cmds[0]) {
        var j: nat, k: nat :| SectEntryAt(cmds[0].sects, j, k, p);
        assert EntryAt(cmds, 0, j, k, p);
      }
      if IsEntry(cmds[1..], p) {
        var i: nat, j: nat, k: nat :| EntryAt(cmds[1..], i, j, k, p);
        assert EntryAt(cmds, i + 1, j, k, p);
      }
      if IsEntry(cmds, p) {
        var i: nat, j: nat, k: nat :| EntryAt(cmds, i, j, k, p);
        if i > 0 {
          assert EntryAt(cmds[1..], i - 1, j, k, p);
        } else {
          assert SectEntryAt(cmds[0].sects, j, k, p);
        }
      }
    }
  }

  // ---------------------------------------------------------------- the blobs

  predicate NamesTrie(c: Cmd) { c.DyldInfo? || c.Trie? }

  /** The first command of the kind speaks for the file, and zeros where there is none. */
  lemma {:induction false} BlobsFound(cmds: seq<Cmd>, i: nat)
    ensures i < |cmds| && cmds[i].Starts? && (forall j :: 0 <= j < i ==> !cmds[j].Starts?) ==>
      StartsOf(cmds) == (cmds[i].dataoff, cmds[i].datasize)
    ensures i < |cmds| && NamesTrie(cmds[i]) && (forall j :: 0 <= j < i ==> !NamesTrie(cmds[j])) ==>
      TrieOf(cmds) ==
        if cmds[i].DyldInfo? then (cmds[i].exportOff, cmds[i].exportSize) else (cmds[i].dataoff, cmds[i].datasize)
    ensures (forall j :: 0 <= j < |cmds| ==> !cmds[j].Starts?) ==> !Present(StartsOf(cmds))
    ensures (forall j :: 0 <= j < |cmds| ==> !NamesTrie(cmds[j])) ==> !Present(TrieOf(cmds))
  {
    if |cmds| > 0 {
      BlobsFound(cmds[1..], if i == 0 then 0 else i - 1);
      assert forall j :: 0 < j < |cmds| ==> cmds[j] == cmds[1..][j - 1];
      assert forall j :: 0 <= j < |cmds| - 1 ==> cmds[1..][j] == cmds[j + 1];
    }
  }
}
