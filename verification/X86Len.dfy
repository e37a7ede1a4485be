/**
 * The x86-64 length decoder over the bytes from the instruction to the end of the text.
 * A result of length 0 is a refusal.
 */
module X86Len {
  import opened ByteStrings

  // ------------------------------------------------------------------ tables

  predicate HasModrm1(op: Byte) {
    || (op < 0x40 && op % 8 < 4)
    || op == 0x63 || op == 0x69 || op == 0x6B
    || (0x80 <= op <= 0x8F && op != 0x82)
    || op == 0xC0 || op == 0xC1 || op == 0xC6 || op == 0xC7
    || 0xD0 <= op <= 0xD3 || 0xD8 <= op <= 0xDF
    || op == 0xF6 || op == 0xF7 || op == 0xFE || op == 0xFF
  }

  datatype Imm = NoImm | Imm8 | Imm16 | ImmZ | ImmV | Moffs | Enter

  function Imm1(op: Byte): Imm {
    if op < 0x40 then (if op % 8 == 4 then Imm8 else if op % 8 == 5 then ImmZ else NoImm)
    else if op == 0x68 || op == 0x69 || op == 0x81 || op == 0xA9 || op == 0xC7 || op == 0xE8 || op == 0xE9 then ImmZ
    else if op == 0x6A || op == 0x6B || 0x70 <= op <= 0x7F || op == 0x80 || op == 0x83 || op == 0xA8
      || 0xB0 <= op <= 0xB7 || op == 0xC0 || op == 0xC1 || op == 0xC6 || op == 0xCD
      || 0xE0 <= op <= 0xE7 || op == 0xEB then Imm8
    else if 0xA0 <= op <= 0xA3 then Moffs
    else if 0xB8 <= op <= 0xBF then ImmV
    else if op == 0xC2 || op == 0xCA then Imm16
    else if op == 0xC8 then Enter
    else NoImm
  }

  predicate HasModrm0F(op: Byte) {
    && !(0x05 <= op <= 0x09) && op != 0x0B && op != 0x0E
    && !(0x30 <= op <= 0x35) && op != 0x37 && op != 0x77
    && !(0x80 <= op <= 0x8F) && !(0xA0 <= op <= 0xA2) && !(0xA8 <= op <= 0xAA)
    && !(0xC8 <= op <= 0xCF)
  }

  function Imm0F(op: Byte): Imm {
    if 0x70 <= op <= 0x73 || op == 0xA4 || op == 0xAC || op == 0xBA
      || op == 0xC2 || 0xC4 <= op <= 0xC6 then Imm8
    else if 0x80 <= op <= 0x8F then ImmZ
    else NoImm
  }

  function ImmSize(i: Imm, opsz: bool, rexw: bool): nat {
    match i
    case NoImm => 0
    case Imm8 => 1
    case Imm16 => 2
    case ImmZ => if opsz then 2 else 4
    case ImmV => if rexw then 8 else if opsz then 2 else 4
    case Moffs => 8
    case Enter => 3
  }

  // ----------------------------------------------------------------- decoding

  predicate IsSegment(c: Byte) {
    c == 0x2E || c == 0x36 || c == 0x3E || c == 0x26 || c == 0x64 || c == 0x65
  }

  predicate IsPrefix(c: Byte) {
    c == 0x66 || c == 0x67 || c == 0xF0 || c == 0xF2 || c == 0xF3 || IsSegment(c)
  }

  predicate IsRex(c: Byte) { c / 16 == 4 }

  /** The legacy prefixes of s from i on: where they end, whether 66 is among them, the last F3. */
  datatype Prefixes = Prefixes(n: nat, opsz: bool, f3: int)

  function ScanPrefixes(s: Bytes, i: nat, opsz: bool, f3: int): (r: Prefixes)
    requires i <= |s|
    ensures i <= r.n <= |s|
    ensures r.n < |s| ==> !IsPrefix(s[r.n])
    ensures forall k :: i <= k < r.n ==> IsPrefix(s[k])
    ensures r.f3 == f3 || (i <= r.f3 < r.n && s[r.f3] == 0xF3)
    decreases |s| - i
  {
    if i == |s| || !IsPrefix(s[i]) then Prefixes(i, opsz, f3)
    else ScanPrefixes(s, i + 1, opsz || s[i] == 0x66, if s[i] == 0xF3 then i else f3)
  }

  const FAIL := -1

  /** dmod: the position after ModRM, SIB and displacement. */
  function AfterModrm(s: Bytes, i: int): (r: int)
    requires 0 <= i
    ensures r == FAIL || i < r
  {
    if i >= |s| then FAIL
    else
      var mod, rm := s[i] / 64, s[i] % 8;
      if mod == 3 then i + 1
      else if rm == 4 then
        if i + 1 >= |s| then FAIL
        else i + 2 + (if mod == 0 && s[i + 1] % 8 == 5 then 4 else 0) + DispSize(mod)
      else
        i + 1 + (if mod == 0 && rm == 5 then 4 else 0) + DispSize(mod)
  }

  function DispSize(mod: int): nat {
    if mod == 1 then 1 else if mod == 2 then 4 else 0
  }

  /** A further n bytes at i, if there is an i and they are all there. */
  function Skip(s: Bytes, i: int, n: nat): (r: int)
    ensures r == FAIL || r == i + n
  {
    if i == FAIL || i + n > |s| then FAIL else i + n
  }

  /** VEX and EVEX: map and opcode known, i is the ModRM position. */
  function AfterVex(s: Bytes, i: int, opMap: int, vop: Byte, hasModrm: bool): int
    requires 0 <= i
  {
    var j := if hasModrm then AfterModrm(s, i) else i;
    var imm := opMap == 3 || (opMap == 1 && Imm0F(vop) == Imm8);
    if !imm then j else if j == FAIL || j >= |s| then FAIL else j + 1
  }

  /** The 0F map; i is the position after the 0F byte. */
  function After0F(s: Bytes, i: int, opsz: bool, rexw: bool): int
    requires 0 <= i
  {
    if i >= |s| then FAIL
    else if s[i] == 0x38 then
      if i + 1 >= |s| then FAIL else AfterModrm(s, i + 2)
    else if s[i] == 0x3A then
      if i + 1 >= |s| then FAIL
      else
        var j := AfterModrm(s, i + 2);
        if j == FAIL || j >= |s| then FAIL else j + 1
    else if s[i] == 0x0F then
      var j := AfterModrm(s, i + 1);
      if j == FAIL || j >= |s| then FAIL else j + 1
    else
      var j := if HasModrm0F(s[i]) then AfterModrm(s, i + 1) else i + 1;
      Skip(s, j, ImmSize(Imm0F(s[i]), opsz, rexw))
  }

  /** The one-byte map; i is the position after the opcode. */
  function AfterOne(s: Bytes, i: int, op: Byte, opsz: bool, rexw: bool): int
    requires 0 <= i
  {
    if HasModrm1(op) then
      if i >= |s| then FAIL
      else
        var low := (s[i] / 8) % 8 < 2;
        var imm := if op == 0xF6 then (if low then Imm8 else NoImm)
                   else if op == 0xF7 then (if low then ImmZ else NoImm)
                   else Imm1(op);
        Skip(s, AfterModrm(s, i), ImmSize(imm, opsz, rexw))
    else Skip(s, i, ImmSize(Imm1(op), opsz, rexw))
  }

  /** The position after the instruction whose opcode byte is at i. */
  function AfterOpcode(s: Bytes, i: int, opsz: bool, rexw: bool): int
    requires 0 <= i < |s|
  {
    var op := s[i];
    if op == 0xC5 then
      if i + 1 >= |s| || i + 2 >= |s| then FAIL
      else AfterVex(s, i + 3, 1, s[i + 2], s[i + 2] != 0x77)
    else if op == 0xC4 then
      if i + 2 >= |s| || i + 3 >= |s| then FAIL
      else
        var opMap := s[i + 1] % 32;
        AfterVex(s, i + 4, opMap, s[i + 3], !(opMap == 1 && s[i + 3] == 0x77))
    else if op == 0x62 then
      if i + 3 >= |s| || i + 4 >= |s| then FAIL
      else AfterVex(s, i + 5, s[i + 1] % 4, s[i + 4], true)
    else if op == 0x0F then After0F(s, i + 1, opsz, rexw)
    else AfterOne(s, i + 1, op, opsz, rexw)
  }

  /** zk: 1 for lzcnt, 2 for tzcnt; pfx: offset of the last F3 of such an instruction. */
  datatype Sized = Sized(len: nat, zk: int, pfx: int)

  const REFUSED := Sized(0, 0, -1)

  function Length(s: Bytes): (r: Sized)
    ensures r.len <= |s|
    ensures r.zk != 0 ==> 0 <= r.pfx < r.len && s[r.pfx] == 0xF3
  {
    var p := ScanPrefixes(s, 0, false, -1);
    if p.n == |s| then REFUSED
    else
      var rex := IsRex(s[p.n]);
      var i := p.n + if rex then 1 else 0;
      if i >= |s| then REFUSED
      else
        var e := AfterOpcode(s, i, p.opsz, rex && (s[p.n] / 8) % 2 == 1);
        if e == FAIL || e > |s| then REFUSED
        else
          EndAfterOpcode(s, i, p.opsz, rex && (s[p.n] / 8) % 2 == 1);
          var zk := if p.f3 >= 0 && s[i] == 0x0F && i + 1 < |s|
                    then (if s[i + 1] == 0xBD then 1 else if s[i + 1] == 0xBC then 2 else 0) else 0;
          Sized(e, zk, if zk != 0 then p.f3 else -1)
  }

  lemma EndAfterOpcode(s: Bytes, i: int, opsz: bool, rexw: bool)
    requires 0 <= i < |s|
    ensures var e := AfterOpcode(s, i, opsz, rexw); e == FAIL || e > i
  {}

  // --------------------------------------------------------- self-delimiting

  /** The first n bytes are there and agree. */
  ghost predicate SameUpTo(s: Bytes, t: Bytes, n: int) {
    n <= |s| && n <= |t| && forall k :: 0 <= k < n ==> s[k] == t[k]
  }

  lemma {:induction false} PrefixesLocal(s: Bytes, t: Bytes, i: nat, opsz: bool, f3: int, n: int)
    requires i <= |s| && i <= |t| && SameUpTo(s, t, n)
    requires ScanPrefixes(s, i, opsz, f3).n < n
    ensures ScanPrefixes(t, i, opsz, f3) == ScanPrefixes(s, i, opsz, f3)
    decreases |s| - i
  {
    if i < n && IsPrefix(s[i]) {
      PrefixesLocal(s, t, i + 1, opsz || s[i] == 0x66, if s[i] == 0xF3 then i else f3, n);
    }
  }

  lemma ModrmLocal(s: Bytes, t: Bytes, i: nat, n: int)
    requires SameUpTo(s, t, n)
    requires AfterModrm(s, i) != FAIL && AfterModrm(s, i) <= n
    ensures AfterModrm(t, i) == AfterModrm(s, i)
  {}

  lemma VexLocal(s: Bytes, t: Bytes, i: nat, opMap: int, vop: Byte, hasModrm: bool, n: int)
    requires SameUpTo(s, t, n)
    requires var e := AfterVex(s, i, opMap, vop, hasModrm); e != FAIL && e <= n
    ensures AfterVex(t, i, opMap, vop, hasModrm) == AfterVex(s, i, opMap, vop, hasModrm)
  {
    hide AfterModrm, Imm0F;
    if hasModrm { ModrmLocal(s, t, i, n); }
  }

  lemma Map0FLocal(s: Bytes, t: Bytes, i: nat, opsz: bool, rexw: bool, n: int)
    requires SameUpTo(s, t, n)
    requires var e := After0F(s, i, opsz, rexw); e != FAIL && e <= n
    ensures After0F(t, i, opsz, rexw) == After0F(s, i, opsz, rexw)
  {
    hide AfterModrm, HasModrm0F, Imm0F, ImmSize;
    if AfterModrm(s, i + 1) != FAIL && AfterModrm(s, i + 1) <= n { ModrmLocal(s, t, i + 1, n); }
    if AfterModrm(s, i + 2) != FAIL && AfterModrm(s, i + 2) <= n { ModrmLocal(s, t, i + 2, n); }
  }

  lemma OneLocal(s: Bytes, t: Bytes, i: nat, op: Byte, opsz: bool, rexw: bool, n: int)
    requires SameUpTo(s, t, n)
    requires var e := AfterOne(s, i, op, opsz, rexw); e != FAIL && e <= n
    ensures AfterOne(t, i, op, opsz, rexw) == AfterOne(s, i, op, opsz, rexw)
  {
    hide AfterModrm, HasModrm1, Imm1, ImmSize;
    if AfterModrm(s, i) != FAIL && AfterModrm(s, i) <= n { ModrmLocal(s, t, i, n); }
  }

  lemma OpcodeLocal(s: Bytes, t: Bytes, i: nat, opsz: bool, rexw: bool, n: int)
    requires i < |s| && i < n && SameUpTo(s, t, n)
    requires var e := AfterOpcode(s, i, opsz, rexw); e != FAIL && e <= n
    ensures AfterOpcode(t, i, opsz, rexw) == AfterOpcode(s, i, opsz, rexw)
  {
    hide AfterVex, After0F, AfterOne;
    var op, e := s[i], AfterOpcode(s, i, opsz, rexw);
    if op == 0xC5 {
      VexBeyond(s, i + 3, 1, s[i + 2], s[i + 2] != 0x77);
      VexLocal(s, t, i + 3, 1, s[i + 2], s[i + 2] != 0x77, n);
    } else if op == 0xC4 {
      var opMap := s[i + 1] % 32;
      VexBeyond(s, i + 4, opMap, s[i + 3], !(opMap == 1 && s[i + 3] == 0x77));
      VexLocal(s, t, i + 4, opMap, s[i + 3], !(opMap == 1 && s[i + 3] == 0x77), n);
    } else if op == 0x62 {
      VexBeyond(s, i + 5, s[i + 1] % 4, s[i + 4], true);
      VexLocal(s, t, i + 5, s[i + 1] % 4, s[i + 4], true, n);
    } else if op == 0x0F {
      Map0FLocal(s, t, i + 1, opsz, rexw, n);
    } else {
      OneLocal(s, t, i + 1, op, opsz, rexw, n);
    }
  }

  lemma VexBeyond(s: Bytes, i: nat, opMap: int, vop: Byte, hasModrm: bool)
    ensures var e := AfterVex(s, i, opMap, vop, hasModrm); e == FAIL || e >= i
  {}

  /**
   * The decoder is self-delimiting: the answer depends on the instruction's own bytes only,
   * so it is the same for every text that starts with them.
   */
  lemma SelfDelimiting(s: Bytes, t: Bytes)
    requires Length(s).len > 0 && SameUpTo(s, t, Length(s).len)
    ensures Length(t) == Length(s)
  {
    hide ScanPrefixes, AfterOpcode;
    var p, n := ScanPrefixes(s, 0, false, -1), Length(s).len;
    var i := p.n + if IsRex(s[p.n]) then 1 else 0;
    var rexw := IsRex(s[p.n]) && (s[p.n] / 8) % 2 == 1;
    EndAfterOpcode(s, i, p.opsz, rexw);
    PrefixesLocal(s, t, 0, false, -1, n);
    OpcodeLocal(s, t, i, p.opsz, rexw, n);
    if s[i] == 0x0F { TwoByteEnd(s, i, p.opsz, rexw); }
  }

  lemma TwoByteEnd(s: Bytes, i: nat, opsz: bool, rexw: bool)
    requires i < |s| && s[i] == 0x0F
    ensures var e := AfterOpcode(s, i, opsz, rexw); e == FAIL || e > i + 1
  {}

  /** x86_len's cursor loop over the legacy prefixes. */
  method SkipPrefixes(s: Bytes) returns (p: nat, opsz: bool, f3: int)
    ensures Prefixes(p, opsz, f3) == ScanPrefixes(s, 0, false, -1)
  {
    p, opsz, f3 := 0, false, -1;
    while p < |s|
      invariant 0 <= p <= |s|
      invariant ScanPrefixes(s, p, opsz, f3) == ScanPrefixes(s, 0, false, -1)
    {
      var c := s[p];
      if c == 0x66 { opsz := true; }
      else if c == 0xF3 { f3 := p; }
      else if !(c == 0x67 || c == 0xF0 || c == 0xF2 || IsSegment(c)) { break; }
      p := p + 1;
    }
  }

  /** x86_len on the text from start, which may not read at or past end. */
  method Measure(text: array<Byte>, start: nat, end: nat) returns (r: Sized)
    requires start <= end <= text.Length
    ensures r == Length(text[start..end])
  {
    hide AfterOpcode, ScanPrefixes;
    var s := text[start..end];
    var p, opsz, f3 := SkipPrefixes(s);
    if p >= |s| { return REFUSED; }
    var rexw, rex := false, IsRex(s[p]);
    var i := p;
    if rex { rexw := (s[p] / 8) % 2 == 1; i := p + 1; }
    if i >= |s| { return REFUSED; }
    var e := AfterOpcode(s, i, opsz, rexw);
    if e == FAIL || e > |s| { return REFUSED; }
    EndAfterOpcode(s, i, opsz, rexw);
    var zk := 0;
    if f3 >= 0 && s[i] == 0x0F && i + 1 < |s| {
      if s[i + 1] == 0xBD { zk := 1; }
      if s[i + 1] == 0xBC { zk := 2; }
    }
    r := Sized(e, zk, if zk != 0 then f3 else -1);
  }
}
