/** Control flow of one decoded instruction: cflow, is_lea_rip and is_jmp_indirect. */
module ControlFlow {
  import opened ByteStrings
  import opened X86Len
  import VexDecode

  /** Position of the first byte that is not a legacy prefix. */
  function AfterPrefixes(s: Bytes): (q: nat)
    ensures q <= |s|
  {
    ScanPrefixes(s, 0, false, -1).n
  }

  function OpcodePos(s: Bytes): (q: nat)
    ensures q <= |s|
  {
    var q := AfterPrefixes(s);
    if q < |s| && IsRex(s[q]) then q + 1 else q
  }

  /** term: no fall-through; tgt: direct branch target, or -1. */
  datatype Flow = Flow(term: bool, tgt: int)

  predicate Near(s: Bytes, q: nat)
    requires q < |s|
  {
    s[q] == 0xE9 || (s[q] == 0x0F && q + 1 < |s| && 0x80 <= s[q + 1] <= 0x8F)
  }

  /** cflow, for the instruction at the start of s, whose offset in the text is off. */
  function Classify(s: Bytes, off: int): Flow
    requires Length(s).len > 0
  {
    var q, len := OpcodePos(s), Length(s).len;
    if q >= |s| then Flow(false, -1)
    else
      var op := s[q];
      var next := off + len;
      if op == 0xEB then Flow(true, next + VexDecode.Signed8(s[len - 1]))
      else if Near(s, q) then
        NearHasDisplacement(s);
        Flow(op == 0xE9, next + VexDecode.Signed32(s, len - 4))
      else if 0x70 <= op <= 0x7F then Flow(false, next + VexDecode.Signed8(s[len - 1]))
      else
        Flow(op == 0xC3 || op == 0xC2 || op == 0xCB || op == 0xCA || op == 0xF4
             || (op == 0x0F && q + 1 < |s| && s[q + 1] == 0x0B), -1)
  }

  /** loopne, loope, loop and jrcxz. */
  predicate IsLoop(s: Bytes) {
    var q := OpcodePos(s);
    q < |s| && 0xE0 <= s[q] <= 0xE3
  }

  /** Where the processor goes if it takes such a branch. */
  function LoopTarget(s: Bytes, off: int): int
    requires Length(s).len > 0
  {
    off + Length(s).len + VexDecode.Signed8(s[Length(s).len - 1])
  }

  /** cflow takes these branches for instructions that only fall through. */
  lemma LoopUnreported(s: Bytes, off: int)
    requires Length(s).len > 0 && IsLoop(s)
    ensures Classify(s, off) == Flow(false, -1)
  {
    hide Length;
  }

  /** A near branch is at least four bytes long, so its last four bytes are its own. */
  lemma NearHasDisplacement(s: Bytes)
    requires Length(s).len > 0 && OpcodePos(s) < |s| && Near(s, OpcodePos(s))
    ensures 4 <= Length(s).len <= |s|
  {
    hide AfterModrm, ScanPrefixes, AfterVex, HasModrm1, HasModrm0F;
    var p := ScanPrefixes(s, 0, false, -1);
    NoOpszNoPrefix(s, 0, false, -1);
    assert p.opsz ==> p.n >= 1;
  }

  lemma {:induction false} NoOpszNoPrefix(s: Bytes, i: nat, opsz: bool, f3: int)
    requires i <= |s|
    ensures ScanPrefixes(s, i, opsz, f3).opsz ==> opsz || ScanPrefixes(s, i, opsz, f3).n > i
    decreases |s| - i
  {
    if i < |s| && IsPrefix(s[i]) {
      NoOpszNoPrefix(s, i + 1, opsz || s[i] == 0x66, if s[i] == 0xF3 then i else f3);
    }
  }

  /** lea disp(%rip), reg with REX.W. */
  predicate IsLeaRip(s: Bytes) {
    var q := AfterPrefixes(s);
    && q + 2 < |s|
    && 0x48 <= s[q] <= 0x4F && s[q + 1] == 0x8D
    && s[q + 2] / 64 == 0 && s[q + 2] % 8 == 5
  }

  function LeaDisp(s: Bytes): int
    requires Length(s).len > 0 && IsLeaRip(s)
  {
    LeaHasDisplacement(s);
    VexDecode.Signed32(s, AfterPrefixes(s) + 3)
  }

  lemma LeaHasDisplacement(s: Bytes)
    requires Length(s).len > 0 && IsLeaRip(s)
    ensures AfterPrefixes(s) + 7 <= Length(s).len
  {
    hide ScanPrefixes;
  }

  /** jmp *reg or jmp *mem: FF /4. */
  predicate IsJmpIndirect(s: Bytes) {
    var q := OpcodePos(s);
    q + 1 < |s| && s[q] == 0xFF && (s[q + 1] / 8) % 8 == 4
  }
}
