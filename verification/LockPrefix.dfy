/**
 * Rewriting the F3 of lzcnt and tzcnt to F0, so that they fault: lde_scan_zcnt, and why
 * later scans still see the same program.
 */
module LockPrefix {
  import opened ByteStrings
  import opened X86Len
  import VexDecode

  // -------------------------------------------------- one patched instruction

  /** t is s with the byte at j turned from F3 into F0. */
  ghost predicate Flipped(s: Bytes, t: Bytes, j: nat) {
    j < |s| && s[j] == 0xF3 && t == s[j := 0xF0]
  }

  lemma {:induction false} PrefixesFlipped(s: Bytes, t: Bytes, j: nat, i: nat, opsz: bool, f3: int, g3: int)
    requires Flipped(s, t, j) && i <= |s|
    ensures ScanPrefixes(t, i, opsz, g3).n == ScanPrefixes(s, i, opsz, f3).n
    ensures ScanPrefixes(t, i, opsz, g3).opsz == ScanPrefixes(s, i, opsz, f3).opsz
    decreases |s| - i
  {
    if i < |s| && IsPrefix(s[i]) {
      PrefixesFlipped(s, t, j, i + 1, opsz || s[i] == 0x66,
                      if s[i] == 0xF3 then i else f3, if t[i] == 0xF3 then i else g3);
    }
  }

  ghost predicate SameFrom(s: Bytes, t: Bytes, i: nat) {
    |s| == |t| && forall k :: i <= k < |s| ==> s[k] == t[k]
  }

  lemma ModrmFrom(s: Bytes, t: Bytes, i: nat)
    requires SameFrom(s, t, i)
    ensures AfterModrm(s, i) == AfterModrm(t, i)
  {}

  lemma VexFrom(s: Bytes, t: Bytes, i: nat, opMap: int, vop: Byte, hasModrm: bool)
    requires SameFrom(s, t, i)
    ensures AfterVex(s, i, opMap, vop, hasModrm) == AfterVex(t, i, opMap, vop, hasModrm)
  {
    hide AfterModrm, Imm0F;
    ModrmFrom(s, t, i);
  }

  lemma MapsFrom(s: Bytes, t: Bytes, i: nat, op: Byte, opsz: bool, rexw: bool)
    requires SameFrom(s, t, i)
    ensures After0F(s, i, opsz, rexw) == After0F(t, i, opsz, rexw)
    ensures AfterOne(s, i, op, opsz, rexw) == AfterOne(t, i, op, opsz, rexw)
  {
    hide AfterModrm, HasModrm1, HasModrm0F, Imm1, Imm0F, ImmSize;
    ModrmFrom(s, t, i);
    ModrmFrom(s, t, i + 1);
    ModrmFrom(s, t, i + 2);
  }

  lemma OpcodeFrom(s: Bytes, t: Bytes, i: nat, opsz: bool, rexw: bool)
    requires SameFrom(s, t, i) && i < |s|
    ensures AfterOpcode(s, i, opsz, rexw) == AfterOpcode(t, i, opsz, rexw)
  {
    hide AfterVex, After0F, AfterOne;
    MapsFrom(s, t, i + 1, s[i], opsz, rexw);
    if i + 2 < |s| { VexFrom(s, t, i + 3, 1, s[i + 2], s[i + 2] != 0x77); }
    if i + 3 < |s| {
      var opMap := s[i + 1] % 32;
      VexFrom(s, t, i + 4, opMap, s[i + 3], !(opMap == 1 && s[i + 3] == 0x77));
    }
    if i + 4 < |s| { VexFrom(s, t, i + 5, s[i + 1] % 4, s[i + 4], true); }
  }

  /** The length decoder accepts the patched instruction with the same length. */
  lemma LengthFlipped(s: Bytes, t: Bytes, j: nat)
    requires Length(s).zk != 0 && j == Length(s).pfx && Flipped(s, t, j)
    ensures Length(t).len == Length(s).len
  {
    hide ScanPrefixes, AfterOpcode;
    var p := ScanPrefixes(s, 0, false, -1);
    PrefixesFlipped(s, t, j, 0, false, -1, -1);
    OpcodeFrom(s, t, p.n + if IsRex(s[p.n]) then 1 else 0, p.opsz, IsRex(s[p.n]) && (s[p.n] / 8) % 2 == 1);
  }

  /** The legacy scans of s and t run in step; only which of F3 and F0 was seen may differ. */
  ghost predicate InStep(l: VexDecode.Legacy, m: VexDecode.Legacy, j: nat) {
    && l.q == m.q && l.rex == m.rex && l.has66 == m.has66
    && (l.hasF3 || l.hasLock) == (m.hasF3 || m.hasLock)
  }

  lemma {:induction false} LegacyFlipped(s: Bytes, t: Bytes, j: nat,
                                         l: VexDecode.Legacy, m: VexDecode.Legacy, prefixes: nat)
    requires Flipped(s, t, j) && l.q <= |s| && InStep(l, m, j)
    ensures InStep(VexDecode.LegacyScan(s, l, prefixes), VexDecode.LegacyScan(t, m, prefixes), j)
    decreases |s| - l.q
  {
    if l.q < |s| {
      var c, d := s[l.q], t[l.q];
      if c == 0x66 || c == 0xF3 || c == 0xF2 || c == 0xF0 {
        if prefixes + 1 <= 8 {
          LegacyFlipped(s, t, j, VexDecode.AfterLegacyPrefix(l, c), VexDecode.AfterLegacyPrefix(m, d), prefixes + 1);
        }
      } else if IsRex(c) {
        LegacyFlipped(s, t, j, VexDecode.AfterRex(l, c), VexDecode.AfterRex(m, d), prefixes);
      }
    }
  }

  lemma ParseFrom(s: Bytes, t: Bytes, i: nat, x: bool, b: bool)
    requires SameFrom(s, t, i)
    ensures VexDecode.ParseModrm(s, i, x, b) == VexDecode.ParseModrm(t, i, x, b)
  {
    hide VexDecode.Extend, VexDecode.Scale, VexDecode.WithDisp;
    DispFrom(s, t, i);
  }

  lemma DispFrom(s: Bytes, t: Bytes, i: nat)
    requires SameFrom(s, t, i)
    ensures forall mod, d32, n, base, index, scale, rip ::
      VexDecode.WithDisp(s, i, mod, d32, n, base, index, scale, rip)
      == VexDecode.WithDisp(t, i, mod, d32, n, base, index, scale, rip)
  {}

  lemma LegacyResultFlipped(s: Bytes, t: Bytes, j: nat, l: VexDecode.Legacy, m: VexDecode.Legacy)
    requires Flipped(s, t, j) && InStep(l, m, j)
    requires forall k :: 0 <= k <= j ==> IsPrefix(s[k])
    ensures VexDecode.LegacyKindAt(s, l) == VexDecode.LegacyKindAt(t, m)
    ensures VexDecode.LegacyKindAt(s, l) != VexDecode.NotLegacy ==>
      VexDecode.DecodeLegacy(s, l) == VexDecode.DecodeLegacy(t, m)
  {
    hide VexDecode.ParseModrm;
    if VexDecode.LegacyKindAt(s, l) != VexDecode.NotLegacy {
      assert l.q > j;
      var at := l.q + if s[l.q + 1] == 0x38 then 3 else 2;
      ParseFrom(s, t, at, VexDecode.RexX(l.rex), VexDecode.RexB(l.rex));
    }
  }

  lemma {:induction false} PaddingFlipped(s: Bytes, t: Bytes, j: nat, n: nat, seg: nat)
    requires Flipped(s, t, j) && n <= 8 && n <= j
    ensures VexDecode.ScanPadding(s, n, seg) == VexDecode.ScanPadding(t, n, seg)
    ensures VexDecode.ScanPadding(s, n, seg).n <= j
    decreases 8 - n
  {
    if n < 8 && n < j && (s[n] == 0x67 || IsSegment(s[n])) {
      PaddingFlipped(s, t, j, n + 1, if s[n] == 0x65 then 1 else if s[n] == 0x64 then 2 else seg);
    }
  }

  /** The emulator decodes the patched instruction to the identical descriptor. */
  lemma DecodeFlipped(s: Bytes, t: Bytes, j: nat)
    requires Length(s).zk != 0 && j == Length(s).pfx && Flipped(s, t, j)
    ensures VexDecode.Decode(t) == VexDecode.Decode(s)
  {
    hide ScanPrefixes, AfterOpcode, VexDecode.ScanPadding, VexDecode.LegacyScan, VexDecode.LegacyKindAt,
      VexDecode.DecodeLegacy, VexDecode.DecodeVex;
    var p := ScanPrefixes(s, 0, false, -1);
    assert j < p.n;
    PaddingFlipped(s, t, j, 0, 0);
    var pad := VexDecode.ScanPadding(s, 0, 0).n;
    var l := VexDecode.Legacy(pad, 0, false, false, false);
    LegacyFlipped(s, t, j, l, l, 0);
    LegacyResultFlipped(s, t, j, VexDecode.LegacyScan(s, l, 0), VexDecode.LegacyScan(t, l, 0));
    assert IsPrefix(s[pad]) && IsPrefix(t[pad]);
  }

  // ----------------------------- what the emulator reads of a patchable site

  lemma {:induction false} LegacyLocal(s: Bytes, t: Bytes, l: VexDecode.Legacy, prefixes: nat, n: int)
    requires l.q <= |s| && l.q <= |t| && SameUpTo(s, t, n)
    requires VexDecode.LegacyScan(s, l, prefixes).q < n
    ensures VexDecode.LegacyScan(t, l, prefixes) == VexDecode.LegacyScan(s, l, prefixes)
    decreases |s| - l.q
  {
    var c := s[l.q];
    if c == 0x66 || c == 0xF3 || c == 0xF2 || c == 0xF0 {
      if prefixes + 1 <= 8 {
        LegacyLocal(s, t, VexDecode.AfterLegacyPrefix(l, c), prefixes + 1, n);
      }
    } else if IsRex(c) {
      LegacyLocal(s, t, VexDecode.AfterRex(l, c), prefixes, n);
    }
  }

  lemma {:induction false} PaddingLocal(s: Bytes, t: Bytes, k: nat, seg: nat, n: int)
    requires k <= 8 && k <= |s| && k <= |t| && SameUpTo(s, t, n)
    requires VexDecode.ScanPadding(s, k, seg).n < n
    ensures VexDecode.ScanPadding(t, k, seg) == VexDecode.ScanPadding(s, k, seg)
    decreases 8 - k
  {
    if k < 8 && (s[k] == 0x67 || IsSegment(s[k])) {
      PaddingLocal(s, t, k + 1, if s[k] == 0x65 then 1 else if s[k] == 0x64 then 2 else seg, n);
    }
  }

  lemma DispLocal(s: Bytes, t: Bytes, i: nat, mod: int, d32: bool, k: nat, base: int, index: int, scale: nat,
                  rip: bool, n: int)
    requires SameUpTo(s, t, n) && i + k + (if d32 then 4 else DispSize(mod)) <= n
    ensures VexDecode.WithDisp(t, i, mod, d32, k, base, index, scale, rip)
         == VexDecode.WithDisp(s, i, mod, d32, k, base, index, scale, rip)
  {}

  lemma ParseLocal(s: Bytes, t: Bytes, i: nat, x: bool, b: bool, n: int)
    requires SameUpTo(s, t, n) && AfterModrm(s, i) != FAIL && AfterModrm(s, i) <= n
    ensures VexDecode.ParseModrm(t, i, x, b) == VexDecode.ParseModrm(s, i, x, b)
  {
    hide VexDecode.WithDisp, VexDecode.Scale, VexDecode.Extend;
    var mod, rm := s[i] / 64, s[i] % 8;
    if mod != 3 && rm == 4 {
      var sib := s[i + 1];
      var noBase := sib % 8 == 5 && mod == 0;
      var idx := (sib / 8) % 8;
      DispLocal(s, t, i, mod, noBase, 2, if noBase then VexDecode.NoBase else VexDecode.Extend(sib % 8, b),
                if idx == 4 && !x then VexDecode.NoBase else VexDecode.Extend(idx, x), VexDecode.Scale(sib / 64),
                    false, n);
    } else if mod == 0 && rm == 5 {
      DispLocal(s, t, i, mod, true, 1, VexDecode.NoBase, VexDecode.NoBase, 1, true, n);
    } else if mod != 3 {
      DispLocal(s, t, i, mod, false, 1, VexDecode.Extend(rm, b), VexDecode.NoBase, 1, false, n);
    }
  }

  /** Where a site's opcode is, and that its ModRM form ends inside the instruction. */
  lemma SiteShape(s: Bytes)
    requires Length(s).zk != 0
    ensures var i := VexDecode.OpcodeAt(s);
      && i + 2 < Length(s).len
      && s[i] == 0x0F && (s[i + 1] == 0xBC || s[i + 1] == 0xBD)
      && AfterModrm(s, i + 2) == Length(s).len
      && Length(s).pfx < i
      && (forall k :: 0 <= k < i ==> IsPrefix(s[k]) || (k == i - 1 && IsRex(s[k])))
      && (forall k :: 0 <= k <= Length(s).pfx ==> IsPrefix(s[k]))
  {
    hide ScanPrefixes, AfterModrm, AfterVex, AfterOne;
    var p := ScanPrefixes(s, 0, false, -1);
    var i := p.n + if IsRex(s[p.n]) then 1 else 0;
    assert Length(s).len == AfterOpcode(s, i, p.opsz, IsRex(s[p.n]) && (s[p.n] / 8) % 2 == 1);
    ModrmProgress(s, i + 2);
  }

  lemma ModrmProgress(s: Bytes, i: nat)
    ensures AfterModrm(s, i) == FAIL || AfterModrm(s, i) > i
  {}

  /** The legacy scan never passes a byte that it does not know. */
  lemma {:induction false} LegacyStopsAt(s: Bytes, l: VexDecode.Legacy, prefixes: nat, i: nat)
    requires l.q <= i < |s| && s[i] == 0x0F
    ensures VexDecode.LegacyScan(s, l, prefixes).q <= i
    decreases |s| - l.q
  {
    var c := s[l.q];
    if c == 0x66 || c == 0xF3 || c == 0xF2 || c == 0xF0 {
      if prefixes + 1 <= 8 { LegacyStopsAt(s, VexDecode.AfterLegacyPrefix(l, c), prefixes + 1, i); }
    } else if IsRex(c) {
      LegacyStopsAt(s, VexDecode.AfterRex(l, c), prefixes, i);
    }
  }

  lemma {:induction false} PaddingStopsAt(s: Bytes, k: nat, seg: nat, j: nat)
    requires k <= 8 && k <= j < |s| && s[j] == 0xF3
    ensures VexDecode.ScanPadding(s, k, seg).n <= j
    decreases 8 - k
  {
    if k < 8 && (s[k] == 0x67 || IsSegment(s[k])) {
      PaddingStopsAt(s, k + 1, if s[k] == 0x65 then 1 else if s[k] == 0x64 then 2 else seg, j);
    }
  }

  /** At a site the emulator's decoder reads nothing beyond the instruction. */
  lemma SiteLocal(s: Bytes, t: Bytes)
    requires Length(s).zk != 0 && SameUpTo(s, t, Length(s).len)
    ensures VexDecode.Decode(t) == VexDecode.Decode(s)
  {
    hide Length, AfterModrm, VexDecode.OpcodeAt, VexDecode.LegacyScan, VexDecode.ScanPadding,
      VexDecode.ParseModrm, VexDecode.DecodeVex;
    var n, i, j := Length(s).len, VexDecode.OpcodeAt(s), Length(s).pfx;
    SiteShape(s);
    PaddingStopsAt(s, 0, 0, j);
    PaddingLocal(s, t, 0, 0, n);
    var pad := VexDecode.ScanPadding(s, 0, 0).n;
    var l := VexDecode.Legacy(pad, 0, false, false, false);
    LegacyStopsAt(s, l, 0, i);
    LegacyLocal(s, t, l, 0, n);
    var r := VexDecode.LegacyScan(s, l, 0);
    ParseLocal(s, t, i + 2, VexDecode.RexX(r.rex), VexDecode.RexB(r.rex), n);
    assert r.q < i ==> s[r.q] != 0x0F;
    assert IsPrefix(s[pad]);
  }

  // ------------------------------------------------------------- whole scan

  function ReadAt(s: Bytes, p: nat): (r: Sized)
    requires p <= |s|
    ensures p + r.len <= |s|
    ensures r.zk != 0 ==> 0 <= r.pfx < r.len && s[p + r.pfx] == 0xF3
  {
    Length(s[p..])
  }

  predicate IsSite(s: Bytes, p: nat)
    requires p <= |s|
  {
    ReadAt(s, p).zk != 0
  }

  /** The last F3 of the instruction at p, if it is an lzcnt or tzcnt, turned into F0. */
  function PatchOne(s: Bytes, p: nat): (r: Bytes)
    requires p <= |s|
    ensures |r| == |s|
    ensures forall k :: 0 <= k < |s| && !(p <= k < p + ReadAt(s, p).len) ==> r[k] == s[k]
  {
    if IsSite(s, p) then s[p + ReadAt(s, p).pfx := 0xF0] else s
  }

  /** The instruction starts of the linear walk from p on; the walk stops where it cannot decode. */
  function Starts(s: Bytes, p: nat): (r: seq<nat>)
    requires p <= |s|
    ensures forall at :: at in r ==> p <= at < |s|
    decreases |s| - p
  {
    if p == |s| || ReadAt(s, p).len == 0 then [] else [p] + Starts(s, p + ReadAt(s, p).len)
  }

  /** Every instruction from p on patched. */
  function Patched(s: Bytes, p: nat): (r: Bytes)
    requires p <= |s|
    ensures |r| == |s|
    ensures forall k :: 0 <= k < p ==> r[k] == s[k]
    decreases |s| - p
  {
    if p == |s| || ReadAt(s, p).len == 0 then s
    else Patched(PatchOne(s, p), p + ReadAt(s, p).len)
  }

  /** What lde_scan_zcnt returns: the number of sites, or -1 if the walk stops early. */
  function SiteCount(s: Bytes, p: nat): int
    requires p <= |s|
    decreases |s| - p
  {
    if p == |s| then 0
    else if ReadAt(s, p).len == 0 then -1
    else
      var rest := SiteCount(s, p + ReadAt(s, p).len);
      if rest < 0 then -1 else rest + if IsSite(s, p) then 1 else 0
  }

  lemma ReadSuffix(s: Bytes, t: Bytes, q: nat, at: nat)
    requires |s| == |t| && q <= at <= |s|
    requires forall k :: q <= k < |s| ==> s[k] == t[k]
    ensures s[at..] == t[at..] && ReadAt(s, at) == ReadAt(t, at)
  {
    hide Length;
  }

  /** Changing bytes before q does not change the walk from q on. */
  lemma {:induction false} StartsFrom(s: Bytes, t: Bytes, q: nat, at: nat)
    requires |s| == |t| && q <= at <= |s|
    requires forall k :: q <= k < |s| ==> s[k] == t[k]
    ensures Starts(s, at) == Starts(t, at)
    decreases |s| - at
  {
    hide ReadAt;
    ReadSuffix(s, t, q, at);
    if at < |s| && ReadAt(s, at).len > 0 {
      StartsFrom(s, t, q, at + ReadAt(s, at).len);
    }
  }

  /** The instruction at p, wholly before q, reads the same if later bytes change. */
  lemma ReadBefore(s: Bytes, t: Bytes, p: nat, q: nat)
    requires |s| == |t| && p <= q <= |s|
    requires ReadAt(s, p).len > 0 && p + ReadAt(s, p).len <= q
    requires forall k :: 0 <= k < q ==> s[k] == t[k]
    ensures ReadAt(t, p) == ReadAt(s, p)
  {
    SelfDelimiting(s[p..], t[p..]);
  }

  /** A patched instruction keeps its length. */
  lemma PatchOneLength(s: Bytes, p: nat)
    requires p <= |s|
    ensures ReadAt(PatchOne(s, p), p).len == ReadAt(s, p).len
  {
    hide Length;
    if IsSite(s, p) {
      var t, j := PatchOne(s, p), ReadAt(s, p).pfx;
      assert t[p..] == s[p..][j := 0xF0];
      LengthFlipped(s[p..], t[p..], j);
    }
  }

  /** Patching keeps every instruction boundary of the walk. */
  lemma {:induction false} PatchKeepsStarts(s: Bytes, p: nat)
    requires p <= |s|
    ensures Starts(Patched(s, p), p) == Starts(s, p)
    decreases |s| - p
  {
    hide ReadAt, PatchOne;
    if p < |s| && ReadAt(s, p).len > 0 {
      var t, q := PatchOne(s, p), p + ReadAt(s, p).len;
      PatchOneLength(s, p);
      PatchKeepsStarts(t, q);
      StartsFrom(s, t, q, q);
      ReadBefore(t, Patched(t, q), p, q);
    }
  }

  /**
   * Once patched, a site decodes, for the emulator, to the identical descriptor, whatever
   * bytes after the instruction become.
   */
  lemma PatchedSiteDecodes(s: Bytes, u: Bytes, p: nat)
    requires p <= |s| && IsSite(s, p) && |u| == |s|
    requires forall k :: 0 <= k < p + ReadAt(s, p).len ==> u[k] == PatchOne(s, p)[k]
    ensures VexDecode.Decode(u[p..]) == VexDecode.Decode(s[p..])
    ensures u[p + ReadAt(s, p).pfx] == 0xF0
  {
    hide Length, VexDecode.Decode;
    var j := ReadAt(s, p).pfx;
    // undo the flip in u: s and v agree on the whole instruction
    var v := u[p..][j := 0xF3];
    assert SameUpTo(s[p..], v, ReadAt(s, p).len);
    SiteLocal(s[p..], v);
    SelfDelimiting(s[p..], v);
    assert u[p..] == v[j := 0xF0];
    DecodeFlipped(v, u[p..], j);
  }

  /** After the whole scan every site of the walk decodes to the descriptor it had before. */
  lemma {:induction false} PatchKeepsSites(s: Bytes, p: nat, at: nat)
    requires p <= |s| && at in Starts(s, p) && IsSite(s, at)
    ensures Patched(s, p)[at + ReadAt(s, at).pfx] == 0xF0
    ensures VexDecode.Decode(Patched(s, p)[at..]) == VexDecode.Decode(s[at..])
    decreases |s| - p
  {
    hide ReadAt, PatchOne, VexDecode.Decode;
    var t, q := PatchOne(s, p), p + ReadAt(s, p).len;
    if at == p {
      PatchedSiteDecodes(s, Patched(t, q), p);
    } else {
      StartsFrom(s, t, q, q);
      assert at in Starts(s, q);
      ReadSuffix(s, t, q, at);
      PatchKeepsSites(t, q, at);
    }
  }

  /** A byte that the scan changes is the last F3 of a site of the walk. */
  lemma {:induction false} PatchChangesOnlySites(s: Bytes, p: nat, k: nat) returns (at: nat)
    requires p <= |s| && k < |s| && Patched(s, p)[k] != s[k]
    ensures at in Starts(s, p) && IsSite(s, at) && k == at + ReadAt(s, at).pfx
    ensures s[k] == 0xF3 && Patched(s, p)[k] == 0xF0
    decreases |s| - p
  {
    hide ReadAt, PatchOne;
    var t, q := PatchOne(s, p), p + ReadAt(s, p).len;
    if k < q {
      OnlyTheF3(s, p, k);
      at := p;
    } else {
      at := PatchChangesOnlySites(t, q, k);
      StartsFrom(s, t, q, q);
      ReadSuffix(s, t, q, at);
    }
  }

  lemma OnlyTheF3(s: Bytes, p: nat, k: nat)
    requires p <= |s| && k < |s| && PatchOne(s, p)[k] != s[k]
    ensures IsSite(s, p) && k == p + ReadAt(s, p).pfx
    ensures s[k] == 0xF3 && PatchOne(s, p)[k] == 0xF0
  {}

  /** lde_scan_zcnt over the whole text, in place. */
  method ScanZcnt(text: array<Byte>, patch: bool) returns (count: int)
    modifies text
    ensures count == SiteCount(old(text[..]), 0)
    ensures text[..] == if patch then Patched(old(text[..]), 0) else old(text[..])
  {
    hide Length, ReadAt, PatchOne;
    count := 0;
    var p := 0;
    ghost var s := text[..];
    while p < text.Length
      invariant 0 <= p <= text.Length && |s| == text.Length && count >= 0
      invariant Unchanged(s, text[..], p)
      invariant SiteCount(s, 0) == (var rest := SiteCount(s, p); if rest < 0 then -1 else count + rest)
      invariant if patch then Patched(s, 0) == Patched(text[..], p) else text[..] == s
    {
      ghost var before := text[..];
      ReadSuffix(s, before, p, p);
      var x := ReadAt(text[..], p);
      if x.len == 0 {
        return -1;
      }
      PatchOneIs(before, p);
      if x.zk != 0 {
        count := count + 1;
        if patch { PutByte(text, p + x.pfx, 0xF0); }
      }
      assert patch ==> text[..] == PatchOne(before, p);
      SameAfter(s, before, p);
      p := p + x.len;
    }
  }

  ghost predicate Unchanged(s: Bytes, t: Bytes, p: nat) {
    |s| == |t| && forall k :: p <= k < |s| ==> s[k] == t[k]
  }

  /** Neither patching nor not patching the instruction at p touches what follows it. */
  lemma SameAfter(s: Bytes, t: Bytes, p: nat)
    requires p <= |s| && Unchanged(s, t, p)
    ensures Unchanged(s, t, p + ReadAt(t, p).len) && Unchanged(s, PatchOne(t, p), p + ReadAt(t, p).len)
  {
    hide ReadAt, PatchOne;
  }

  method PutByte(text: array<Byte>, at: nat, v: Byte)
    requires at < text.Length
    modifies text
    ensures text[..] == old(text[..])[at := v]
  {
    text[at] := v;
  }

  lemma PatchOneIs(s: Bytes, p: nat)
    requires p <= |s|
    ensures PatchOne(s, p) == if ReadAt(s, p).zk != 0 then s[p + ReadAt(s, p).pfx := 0xF0] else s
  {}
}
