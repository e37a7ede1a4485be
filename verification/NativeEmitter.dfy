/** The byte-cursor side of avxemu_emit_native_block, with its fixed buffer and overflow guard. */
module NativeEmitter {
  import opened Decoded
  import opened VecExec
  import opened SseMachine
  import opened NativeBlock

  const MAXRUN := 64
  const BUFFER: nat := MAXRUN * 160

  /** Encoded length: xmm8 and above cost a REX byte, [reg+disp] forms a 32-bit displacement. */
  function Size(i: Instr): nat {
    match i
    case MovdquLoadRf(x, _) => 8 + Rex(x)
    case MovdquStoreRf(x, _) => 8 + Rex(x)
    case MovdLoadRf(x, _) => 8 + Rex(x)
    case MovdquLoad(x, _) => 8 + Rex(x)
    case MovdLoad(x) => 8 + Rex(x)
    case PinsrwLoad(x) => 9 + Rex(x)
    case PmovzxLoad(x, _) => 9 + Rex(x)
    case Movdqa(x, y) => 4 + Rex2(x, y)
    case Packed(_, x, y) => 4 + Rex2(x, y)
    case Pshufd0(x, y) => 5 + Rex2(x, y)
    case Pshuflw0(x, y) => 5 + Rex2(x, y)
    case Pmovzx(x, y) => 5 + Rex2(x, y)
    case Psrldq8(x) => 5 + Rex(x)
    case MovabsRax(_) => 10
    case AddRaxRf(_) => 7
    case MovRcxRf(_) => 7
    case ShlRcx(_) => 4
    case AddRaxRcx => 3
  }

  function Rex(x: Xmm): nat { if x >= 8 then 1 else 0 }

  function Rex2(x: Xmm, y: Xmm): nat { if x >= 8 || y >= 8 then 1 else 0 }

  class CodeBuffer {
    var code: seq<Instr>
    var used: nat
    var prevDst: int

    constructor ()
      ensures code == [] && used == 0 && prevDst == -1
    {
      code, used, prevDst := [], 0, -1;
    }

    /** Every write must fit the buffer. */
    method Put(i: Instr)
      requires used + Size(i) <= BUFFER
      modifies this`code, this`used
      ensures code == old(code) + [i] && used == old(used) + Size(i)
    {
      code, used := code + [i], used + Size(i);
    }

    method PutEa(d: Insn, addr: Address)
      requires used + 31 <= BUFFER
      modifies this`code, this`used
      ensures code == old(code) + EmitEa(d, addr) && used <= old(used) + 31
    {
      hide AddIndex;
      Put(MovabsRax(Wrap(d.disp + if d.ripRel then Wrap(addr + d.len) else 0)));
      if d.base != OPND_NONE { Put(AddRaxRf(RF_GPR_OFF + d.base * 8)); }
      if d.index != OPND_NONE { PutAddIndex(d); }
    }

    method PutAddIndex(d: Insn)
      requires used + 14 <= BUFFER
      modifies this`code, this`used
      ensures code == old(code) + AddIndex(d) && used <= old(used) + 14
    {
      Put(MovRcxRf(RF_GPR_OFF + d.index * 8));
      if ScaleShift(d.scale) > 0 { Put(ShlRcx(ScaleShift(d.scale))); }
      Put(AddRaxRcx);
    }

    method PutLoadSlot(slot: int, lo: Xmm, hi: Xmm, wide: bool)
      requires used + 16 <= BUFFER && lo < 8 && hi < 8
      modifies this`code, this`used
      ensures code == old(code) + LoadSlot(slot, lo, hi, wide, prevDst) && used <= old(used) + 16
    {
      if slot == prevDst { Put(Movdqa(lo, CACHE)); } else { Put(MovdquLoadRf(lo, slot * 32)); }
      if wide { Put(MovdquLoadRf(hi, slot * 32 + 16)); }
    }

    method PutLoadB(d: Insn)
      requires used + 16 <= BUFFER
      modifies this`code, this`used
      ensures code == old(code) + LoadB(d, prevDst) && used <= old(used) + 16
    {
      if d.bSrc == OPND_MEM {
        Put(MovdquLoad(B_LO, 0));
        if d.wide { Put(MovdquLoad(B_HI, 16)); }
      } else {
        PutLoadSlot(d.bSrc, B_LO, B_HI, d.wide);
      }
    }

    method PutCombine(op: VexOp, wide: bool)
      requires used + 8 <= BUFFER
      modifies this`code, this`used
      ensures code == old(code) + Combine(op, wide) && used <= old(used) + 8
    {
      Put(Packed(op, A_LO, B_LO));
      if wide { Put(Packed(op, A_HI, B_HI)); }
    }

    method PutBroadcastTail(wide: bool)
      requires used + 9 <= BUFFER
      modifies this`code, this`used
      ensures code == old(code) + BroadcastTail(wide) && used <= old(used) + 9
    {
      Put(Pshufd0(A_LO, A_LO));
      if wide { Put(Movdqa(A_HI, A_LO)); }
    }

    method PutWiden(d: Insn)
      requires used + 40 <= BUFFER && d.op == VPMOVZXBW
      modifies this`code, this`used
      ensures code == old(code) + EmitValue(d, prevDst) && used <= old(used) + 40
    {
      if d.bSrc == OPND_MEM {
        Put(PmovzxLoad(A_LO, 0));
        if d.wide { Put(PmovzxLoad(A_HI, 8)); }
      } else {
        PutLoadSlot(d.bSrc, B_LO, B_HI, false);
        PutWidenTail(d.wide);
      }
    }

    method PutWidenTail(wide: bool)
      requires used + 24 <= BUFFER
      modifies this`code, this`used
      ensures used <= old(used) + 24
      ensures code == old(code)
          + ([Pmovzx(A_LO, B_LO)] + (if wide then [Movdqa(TMP, B_LO), Psrldq8(TMP), Pmovzx(A_HI, TMP)] else []))
    {
      Put(Pmovzx(A_LO, B_LO));
      if wide {
        Put(Movdqa(TMP, B_LO));
        Put(Psrldq8(TMP));
        Put(Pmovzx(A_HI, TMP));
      }
    }

    method PutDword(d: Insn)
      requires used + 40 <= BUFFER && d.op == VPBROADCASTD
      modifies this`code, this`used
      ensures code == old(code) + EmitValue(d, prevDst) && used <= old(used) + 40
    {
      if d.bSrc == OPND_MEM { Put(MovdLoad(A_LO)); } else { Put(MovdLoadRf(A_LO, d.bSrc * 32)); }
      PutBroadcastTail(d.wide);
    }

    method PutWord(d: Insn)
      requires used + 40 <= BUFFER && d.op == VPBROADCASTW
      modifies this`code, this`used
      ensures code == old(code) + EmitValue(d, prevDst) && used <= old(used) + 40
    {
      if d.bSrc == OPND_MEM { Put(PinsrwLoad(A_LO)); } else { Put(MovdLoadRf(A_LO, d.bSrc * 32)); }
      Put(Pshuflw0(A_LO, A_LO));
      PutBroadcastTail(d.wide);
    }

    method PutBinary(d: Insn)
      requires used + 40 <= BUFFER && BinaryOp(d.op)
      modifies this`code, this`used
      ensures code == old(code) + EmitValue(d, prevDst) && used <= old(used) + 40
    {
      hide LoadSlot, LoadB, Combine;
      PutLoadSlot(d.aSrc, A_LO, A_HI, d.wide);
      PutLoadB(d);
      PutCombine(d.op, d.wide);
    }

    method PutValue(d: Insn)
      requires used + 40 <= BUFFER && Modelled(d.op)
      modifies this`code, this`used
      ensures code == old(code) + EmitValue(d, prevDst) && used <= old(used) + 40
    {
      hide EmitValue;
      match d.op {
        case VPBROADCASTD => PutDword(d);
        case VPBROADCASTW => PutWord(d);
        case VPMOVZXBW => PutWiden(d);
        case _ => PutBinary(d);
      }
    }

    method PutStore(dst: int, wide: bool)
      requires used + 21 <= BUFFER
      modifies this`code, this`used
      ensures code == old(code) + StoreDst(dst, wide) && used <= old(used) + 21
    {
      Put(MovdquStoreRf(A_LO, dst * 32));
      Put(MovdquStoreRf(if wide then A_HI else NX_ZERO, dst * 32 + 16));
      Put(Movdqa(CACHE, A_LO));
    }

    /** emit_one: at most 92 bytes, less than the guard's 128-byte slack. */
    method PutOne(d: Insn, addr: Address)
      requires used + 92 <= BUFFER && Modelled(d.op)
      modifies this
      ensures code == old(code) + EmitOne(d, addr, old(prevDst)) && prevDst == d.dst
      ensures used <= old(used) + 92
    {
      hide EmitEa, EmitValue, StoreDst;
      if d.bSrc == OPND_MEM { PutEa(d, addr); }
      PutValue(d);
      PutStore(d.dst, d.wide);
      prevDst := d.dst;
    }

    /**
     * avxemu_emit_native_block on an empty buffer. The guard keeps every write inside the
     * buffer for a run of any length, and never declines a run of at most MAXRUN.
     */
    method EmitBlock(s: seq<Site>) returns (ok: bool)
      requires code == [] && used == 0 && prevDst == -1
      modifies this
      ensures ok ==> s != [] && AllSupported(s) && code == Block(s)
      ensures s != [] && AllSupported(s) && |s| <= MAXRUN ==> ok
      ensures used <= BUFFER
    {
      hide Supported, EmitOne;
      if |s| == 0 { return false; }
      ok := RunSupported(s);
      if !ok { return; }
      Put(Packed(VPXOR, NX_ZERO, NX_ZERO));
      for i := 0 to |s|
        invariant 1 <= |code| && code == [Packed(VPXOR, NX_ZERO, NX_ZERO)] + EmitRun(s[..i], -1)
        invariant prevDst == if i == 0 then -1 else s[i - 1].dec.dst
        invariant used <= 5 + 92 * i && used <= BUFFER - 128
      {
        EmitRunAppend(s[..i], -1, s[i]);
        assert s[..i + 1] == s[..i] + [s[i]];
        SupportedIsModelled(s[i].dec);
        PutOne(s[i].dec, s[i].addr);
        if used > BUFFER - 128 {
          return false;
        }
      }
      assert s[..|s|] == s;
    }
  }

  lemma SupportedIsModelled(d: Insn)
    requires Supported(d)
    ensures Modelled(d.op)
  {}

  method RunSupported(s: seq<Site>) returns (ok: bool)
    ensures ok == AllSupported(s)
  {
    hide Supported;
    for i := 0 to |s|
      invariant AllSupported(s[..i])
    {
      if !Supported(s[i].dec) { return false; }
    }
    return true;
  }

  lemma {:induction false} EmitRunAppend(s: seq<Site>, prev: int, x: Site)
    ensures EmitRun(s + [x], prev)
         == EmitRun(s, prev) + EmitOne(x.dec, x.addr, if s == [] then prev else s[|s| - 1].dec.dst)
    decreases |s|
  {
    hide EmitOne;
    if s == [] {
      assert [] + [x] == [x];
      assert [x][1..] == [];
      assert EmitRun([x], prev) == EmitOne(x.dec, x.addr, prev) + EmitRun([], x.dec.dst);
    } else {
      assert (s + [x])[1..] == s[1..] + [x];
      EmitRunAppend(s[1..], s[0].dec.dst, x);
    }
  }
}
