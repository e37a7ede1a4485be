/** The byte-cursor side of emit_lowering and gb_emit_lzcnt: code appended through a buffer. */
module Emitter {
  import opened Decoded
  import opened BmiExec
  import opened ScalarMachine
  import opened Lowering
  import opened InlineBmi
  import ShlxLowering
  import opened SlotLzcnt

  class CodeBuffer {
    var code: seq<Instr>

    constructor ()
      ensures code == []
    {
      code := [];
    }

    method Put(i: Instr)
      modifies this
      ensures code == old(code) + [i]
    {
      code := code + [i];
    }

    method PutOpen(t1: Gpr, t2: Gpr)
      modifies this
      ensures code == old(code) + Open(t1, t2)
    {
      Put(LeaRsp(-128));
      Put(Pushfq); Put(Push(t1)); Put(Push(t2));
    }

    method PutClose(t1: Gpr, t2: Gpr)
      modifies this
      ensures code == old(code) + Close(t1, t2)
    {
      Put(AndRsp16(CLR));
      Put(OrRsp16(t1));
      Put(Pop(t2)); Put(Pop(t1)); Put(Popfq);
      Put(LeaRsp(128));
    }

    method PutTzcnt(w: Width, d: Gpr, s: Gpr, t1: Gpr, t2: Gpr)
      modifies this
      ensures code == old(code) + TzcntValue(w, d, s, t1, t2)
    {
      PutIsZero(w, s, t1);
      Put(Bsf(w, d, s));
      Put(MovImm32(t2, Count(w.Bits())));
      Put(CmovZ(W64, d, t2));
    }

    method PutIsZero(w: Width, s: Gpr, t: Gpr)
      modifies this
      ensures code == old(code) + [XorRR(W64, t, t), TestRR(w, s, s), SetZ(t)]
    {
      Put(XorRR(W64, t, t));
      Put(TestRR(w, s, s));
      Put(SetZ(t));
    }

    method PutLzcnt(w: Width, d: Gpr, s: Gpr, t1: Gpr, t2: Gpr)
      modifies this
      ensures code == old(code) + LzcntValue(w, d, s, t1, t2)
    {
      PutIsZero(w, s, t1);
      PutDistance(w, d, s, t2);
      PutSelect(w, d, t1, t2);
    }

    method PutDistance(w: Width, d: Gpr, s: Gpr, t2: Gpr)
      modifies this
      ensures code == old(code) + ([Bsr(w, d, s)] + [MovImm32(t2, Count(w.Bits() - 1)), SubRR(W64, t2, d)])
    {
      Put(Bsr(w, d, s));
      Put(MovImm32(t2, Count(w.Bits() - 1)));
      Put(SubRR(W64, t2, d));
    }

    method PutSelect(w: Width, d: Gpr, t1: Gpr, t2: Gpr)
      modifies this
      ensures code == old(code) + ([TestRR(W64, t1, t1)] + [MovImm32(d, Count(w.Bits())), CmovZ(W64, d, t2)])
    {
      Put(TestRR(W64, t1, t1));
      Put(MovImm32(d, Count(w.Bits())));
      Put(CmovZ(W64, d, t2));
    }

    method PutCountFlags(w: Width, d: Gpr, t1: Gpr, t2: Gpr)
      modifies this
      ensures code == old(code) + CountFlags(w, d, t1, t2)
    {
      PutIsZero(w, d, t2);
      Put(ShlImm(W64, t2, 6));
      Put(OrRR(W64, t1, t2));
    }

    method PutAndnValue(w: Width, d: Gpr, s1: Gpr, s2: Gpr, t1: Gpr)
      modifies this
      ensures code == old(code) + AndnValue(w, d, s1, s2, t1)
    {
      Put(MovRR(w, t1, s1));
      Put(NotR(w, t1));
      Put(AndRR(w, t1, s2));
      Put(MovRR(w, d, t1));
    }

    method PutAndnFlags(w: Width, d: Gpr, t1: Gpr, t2: Gpr)
      modifies this
      ensures code == old(code) + AndnFlags(w, d, t1, t2)
    {
      Put(XorRR(W64, t1, t1));
      Put(XorRR(W64, t2, t2));
      Put(TestRR(w, d, d));
      Put(SetZ(t1));
      Put(SetS(t2));
      Put(ShlImm(W64, t1, 6));
      Put(ShlImm(W64, t2, 7));
      Put(OrRR(W64, t1, t2));
    }

    method PutShlxSave(v: Gpr, n: Gpr)
      modifies this
      ensures code == old(code) + ShlxLowering.Save(v, n)
    {
      Put(LeaRsp(-128));
      Put(Pushfq);
      Put(Push(RCX));
      Put(Push(v));
      Put(Push(n));
      Put(Pop(RCX));
    }

    method PutShlxShift(w: Width, d: Gpr)
      modifies this
      ensures code == old(code) + ShlxLowering.ShiftAndRestore(w, d)
    {
      Put(ShlRspCl(w));
      Put(Pop(d));
      if d != RCX { Put(Pop(RCX)); } else { Put(LeaRsp(8)); }
      if w.W32? { Put(MovRR(W32, d, d)); }
      Put(Popfq);
      Put(LeaRsp(128));
    }

    /** emit_lowering: nothing is written when the instruction is declined. */
    method EmitLowering(d: Insn) returns (ok: bool)
      modifies this
      ensures ok == Lowerable(d)
      ensures code == old(code) + if ok then Lowered(d) else []
    {
      hide Open, Close, TzcntValue, LzcntValue, CountFlags, AndnValue, AndnFlags,
        ShlxLowering.Save, ShlxLowering.ShiftAndRestore;
      if !Lowerable(d) {
        return false;
      }
      var w := WidthOf(d);
      if d.op.BMI_SHLX? {
        PutShlxSave(d.aSrc, d.bSrc);
        PutShlxShift(w, d.dst);
        return true;
      }
      var found, t1, t2 := PickScratch(d.dst, d.aSrc, if d.op.BMI_ANDN? then d.bSrc else -1);
      PutOpen(t1, t2);
      match d.op {
        case BMI_TZCNT =>
          PutTzcnt(w, d.dst, d.aSrc, t1, t2);
          PutCountFlags(w, d.dst, t1, t2);
        case BMI_LZCNT =>
          PutLzcnt(w, d.dst, d.aSrc, t1, t2);
          PutCountFlags(w, d.dst, t1, t2);
        case BMI_ANDN =>
          PutAndnValue(w, d.dst, d.aSrc, d.bSrc, t1);
          PutAndnFlags(w, d.dst, t1, t2);
      }
      PutClose(t1, t2);
      return true;
    }

    /** gb_emit_lzcnt */
    method EmitSlotLzcnt(d: Insn)
      requires Supported(d)
      modifies this
      ensures code == old(code) + Block(d)
    {
      hide LzcntValue, CountFlags, FlagsPatch;
      Put(LoadSlot(WidthOf(d), S, RF_GPR_OFF + d.aSrc * 8));
      PutLzcnt(WidthOf(d), D, S, T1, T2);
      PutCountFlags(WidthOf(d), D, T1, T2);
      PutFlagsPatch();
      Put(StoreSlot(D, RF_GPR_OFF + d.dst * 8));
    }

    method PutFlagsPatch()
      modifies this
      ensures code == old(code) + FlagsPatch()
    {
      Put(LoadSlot(W64, F, RF_FLAGS_OFF));
      Put(AndImm(F, CLR));
      Put(OrRR(W64, F, T1));
      Put(StoreSlot(F, RF_FLAGS_OFF));
    }

    /** avxemu_emit_native_block_bmi: declined before anything is written, or the whole run. */
    method EmitSlotRun(ds: seq<Insn>) returns (ok: bool)
      modifies this
      ensures ok == (ds != [] && AllSupported(ds))
      ensures code == old(code) + if ok then Blocks(ds) else []
    {
      hide Supported, Block;
      if |ds| == 0 { return false; }
      ok := RunSupported(ds);
      if !ok { return; }
      for i := 0 to |ds|
        invariant AllSupported(ds[..i])
        invariant code == old(code) + Blocks(ds[..i])
      {
        EmitSlotLzcnt(ds[i]);
        assert ds[..i + 1] == ds[..i] + [ds[i]];
        BlocksAppend(ds[..i], ds[i]);
      }
      assert ds[..|ds|] == ds;
    }
  }

  method RunSupported(ds: seq<Insn>) returns (ok: bool)
    ensures ok == AllSupported(ds)
  {
    hide Supported;
    for i := 0 to |ds|
      invariant AllSupported(ds[..i])
    {
      if !Supported(ds[i]) { return false; }
    }
    return true;
  }
}
