/**
 * What the packed instructions do to one byte, over numbers and their bits, and that this is what
 * the emulator computes.
 */
module PackedLanes {
  import opened Decoded
  import opened VecExec
  import BitDeposit

  datatype Logic = And | Or | Xor

  function Joined(g: Logic, a: bool, b: bool): bool {
    match g
    case And => a && b
    case Or => a || b
    case Xor => a != b
  }

  /** Bit by bit, from the lowest. */
  function Bitwise(g: Logic, x: nat, y: nat, n: nat): nat {
    if n == 0 then 0
    else (if Joined(g, x % 2 == 1, y % 2 == 1) then 1 else 0) + 2 * Bitwise(g, x / 2, y / 2, n - 1)
  }

  function Signed(x: int): int { if x < 128 then x else x - 256 }

  /** pand, por, pxor, psubb, pcmpeqb, pcmpgtb on a byte. */
  function PackedNumber(op: VexOp, x: nat, y: nat): int
    requires BinaryOp(op) && x < 256 && y < 256
  {
    match op
    case VPAND => Bitwise(And, x, y, 8)
    case VPOR => Bitwise(Or, x, y, 8)
    case VPXOR => Bitwise(Xor, x, y, 8)
    case VPSUBB => (x - y) % 256
    case VPCMPEQB => if x == y then 255 else 0
    case VPCMPGTB => if Signed(x) > Signed(y) then 255 else 0
  }

  // ------------------------------------------------- bytes as numbers

  function Num(x: bv8): (n: int)
    ensures 0 <= n < 256
  {
    x as int
  }

  function Num16(x: bv16): int { x as int }

  function Sum16(x: bv8, y: bv8): bv16 { x as bv16 + y as bv16 }

  function Wide(x: bv8): bv16 { x as bv16 }

  function Over(x: bv8): bv16 { x as bv16 + 0x100 }

  function Minus(x: bv8, y: bv8): bv8 { x - y }

  lemma SumIs(x: bv8, y: bv8)
    ensures Num16(Sum16(x, y)) == Num(x) + Num(y)
  {}

  lemma OverIs(x: bv8)
    ensures Num16(Over(x)) == Num(x) + 0x100 && Num16(Wide(x)) == Num(x)
  {}

  lemma MinusBack(x: bv8, y: bv8)
    ensures Sum16(Minus(x, y), y) == Wide(x) || Sum16(Minus(x, y), y) == Over(x)
  {}

  lemma MinusIs(x: bv8, y: bv8)
    ensures Num(Minus(x, y)) == (Num(x) - Num(y)) % 256
  {
    hide *;
    MinusBack(x, y);
    SumIs(Minus(x, y), y);
    OverIs(x);
    assert 0 <= Num(Minus(x, y)) < 256;
  }

  function Logical(g: Logic, x: bv8, y: bv8): bv8 {
    match g
    case And => x & y
    case Or => x | y
    case Xor => x ^ y
  }

  function Half8(x: bv8): bv8 { x >> 1 }

  lemma HalfIs(x: bv8)
    ensures Num(Half8(x)) == Num(x) / 2
  {}

  lemma HalfLogical(g: Logic, x: bv8, y: bv8)
    ensures Half8(Logical(g, x, y)) == Logical(g, Half8(x), Half8(y))
  {
    match g
    case And => HalfAnd(x, y);
    case Or => HalfOr(x, y);
    case Xor => HalfXor(x, y);
  }

  lemma HalfAnd(x: bv8, y: bv8)
    ensures (x & y) >> 1 == (x >> 1) & (y >> 1)
  {}

  lemma HalfOr(x: bv8, y: bv8)
    ensures (x | y) >> 1 == (x >> 1) | (y >> 1)
  {}

  lemma HalfXor(x: bv8, y: bv8)
    ensures (x ^ y) >> 1 == (x >> 1) ^ (y >> 1)
  {}

  function Odd(x: bv8): bool { x & 1 == 1 }

  lemma OddIs(x: bv8)
    ensures Odd(x) <==> Num(x) % 2 == 1
  {}

  lemma OddLogical(g: Logic, x: bv8, y: bv8)
    ensures Odd(Logical(g, x, y)) == Joined(g, Odd(x), Odd(y))
  {}

  lemma ZeroLogical(g: Logic, x: bv8, y: bv8)
    requires Num(x) == 0 && Num(y) == 0
    ensures Num(Logical(g, x, y)) == 0
  {}

  lemma {:induction false} LogicalIs(g: Logic, x: bv8, y: bv8, n: nat)
    requires Num(x) < BitDeposit.Power2(n) && Num(y) < BitDeposit.Power2(n)
    ensures Num(Logical(g, x, y)) == Bitwise(g, Num(x), Num(y), n)
    decreases n
  {
    hide Num, Half8, Odd, Logical, Joined;
    if n == 0 {
      ZeroLogical(g, x, y);
    } else {
      HalfIs(x);
      HalfIs(y);
      LogicalIs(g, Half8(x), Half8(y), n - 1);
      var r := Logical(g, x, y);
      HalfLogical(g, x, y);
      HalfIs(r);
      OddIs(x);
      OddIs(y);
      OddIs(r);
      OddLogical(g, x, y);
    }
  }

  lemma ByteBound()
    ensures BitDeposit.Power2(8) == 256
  {
    assert BitDeposit.Power2(4) == 16;
    assert BitDeposit.Power2(8) == 2 * (2 * (2 * (2 * BitDeposit.Power2(4))));
  }

  lemma CompareIs(x: bv8, y: bv8)
    ensures x ^ 0x80 > y ^ 0x80 <==> Signed(Num(x)) > Signed(Num(y))
    ensures x == y <==> Num(x) == Num(y)
  {}

  /** The emulator's byte is the instruction's. */
  lemma LaneIs(op: VexOp, x: bv8, y: bv8)
    requires BinaryOp(op)
    ensures Num(Lane(op, x, y)) == PackedNumber(op, Num(x), Num(y))
  {
    ByteBound();
    match op
    case VPAND => LogicLane(op, And, x, y);
    case VPOR => LogicLane(op, Or, x, y);
    case VPXOR => LogicLane(op, Xor, x, y);
    case VPSUBB => MinusLane(x, y);
    case VPCMPEQB => CompareLane(op, x, y);
    case VPCMPGTB => CompareLane(op, x, y);
  }

  lemma LogicLane(op: VexOp, g: Logic, x: bv8, y: bv8)
    requires (op.VPAND? && g.And?) || (op.VPOR? && g.Or?) || (op.VPXOR? && g.Xor?)
    ensures Num(Lane(op, x, y)) == Bitwise(g, Num(x), Num(y), 8)
  {
    assert Lane(op, x, y) == Logical(g, x, y);
    hide Num, Logical, Lane, Bitwise;
    ByteBound();
    assert 0 <= Num(x) < 256 && 0 <= Num(y) < 256;
    LogicalIs(g, x, y, 8);
  }

  lemma MinusLane(x: bv8, y: bv8)
    ensures Num(Lane(VPSUBB, x, y)) == (Num(x) - Num(y)) % 256
  {
    assert Lane(VPSUBB, x, y) == Minus(x, y);
    hide Num, Minus, Lane;
    MinusIs(x, y);
  }

  lemma CompareLane(op: VexOp, x: bv8, y: bv8)
    requires op.VPCMPEQB? || op.VPCMPGTB?
    ensures Num(Lane(op, x, y)) ==
      if (if op.VPCMPEQB? then Num(x) == Num(y) else Signed(Num(x)) > Signed(Num(y))) then 255 else 0
  {
    CompareIs(x, y);
    Extremes();
    hide Signed;
  }

  lemma Extremes()
    ensures Num(0xff) == 255 && Num(0) == 0
  {}

  /** One byte of a packed instruction. */
  function PackedByte(op: VexOp, x: bv8, y: bv8): bv8
    requires BinaryOp(op)
  {
    var v := PackedNumber(op, Num(x), Num(y));
    if 0 <= v < 256 then v as bv8 else 0
  }

  lemma NumBack(x: bv8)
    ensures Num(x) as bv8 == x
  {}

  lemma PackedIsLane(op: VexOp, x: bv8, y: bv8)
    requires BinaryOp(op)
    ensures PackedByte(op, x, y) == Lane(op, x, y)
  {
    LaneIs(op, x, y);
    NumBack(Lane(op, x, y));
    hide Lane, PackedNumber, Num;
  }
}
