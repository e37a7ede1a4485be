/** The instruction descriptor that the decoder fills and every emitter reads. */
module Decoded {

  datatype VexOp =
    | VPBROADCASTD | VPBROADCASTW
    | VPAND | VPOR | VPXOR | VPSUBB | VPCMPEQB | VPCMPGTB
    | VPMOVZXBW
    | BMI_ANDN | BMI_SHLX | BMI_TZCNT | BMI_LZCNT
    | OtherOp(code: nat)

  const OPND_NONE := -1
  const OPND_MEM := -2

  datatype DstKind = DstYmm | DstGpr | DstMem

  datatype Insn = Insn(
    op: VexOp,
    len: nat,
    aSrc: int,
    bSrc: int,
    dst: int,
    dstKind: DstKind,
    wide: bool,
    base: int,
    index: int,
    scale: nat,
    disp: int,
    ripRel: bool,
    seg: nat,
    memBytes: nat,
    isBmi: bool,
    opsize: nat,
    bmiDst2: int,
    bmiS1Rdx: bool)
}
