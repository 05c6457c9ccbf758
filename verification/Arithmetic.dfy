/** What the register, immediate, atomic and branch operations compute, said of numbers and bits
    and without the functions that compute it. */
module Arithmetic {
  import opened Alu
  import opened AluLaws
  import opened Isa
  import opened MulDivLaws
  import opened Numbers
  import opened Words
  import Ranges

  /** Bit n of a word, as a truth value. */
  predicate Has(w: bv32, n: bv5) {
    Bit(w, n) == 1
  }

  ghost predicate IsSum(a: bv32, b: bv32, r: bv32) {
    ToNat(r) == (ToNat(a) + ToNat(b)) % TWO_32
  }

  ghost predicate IsXor(a: bv32, b: bv32, r: bv32) {
    forall n: bv5 :: Has(r, n) <==> (Has(a, n) != Has(b, n))
  }

  ghost predicate IsOr(a: bv32, b: bv32, r: bv32) {
    forall n: bv5 :: Has(r, n) <==> Has(a, n) || Has(b, n)
  }

  ghost predicate IsAnd(a: bv32, b: bv32, r: bv32) {
    forall n: bv5 :: Has(r, n) <==> Has(a, n) && Has(b, n)
  }

  ghost predicate IsTruth(r: bv32, b: bool) {
    ToNat(r) == if b then 1 else 0
  }

  /** 2 to the power of the low five bits of a word. */
  function Scale(b: bv32): nat {
    Power2(ToNat(b) % 32)
  }

  ghost predicate IsLeftShift(a: bv32, b: bv32, r: bv32) {
    ToNat(r) == ToNat(a) * Scale(b) % TWO_32
  }

  ghost predicate IsRightShift(a: bv32, b: bv32, r: bv32) {
    ToNat(r) == ToNat(a) / Scale(b)
  }

  /** The quotient is rounded down. */
  ghost predicate IsSignedShift(a: bv32, b: bv32, r: bv32) {
    ToInt(r) == ToInt(a) / Scale(b)
  }

  /** q is a divided by b, rounded toward zero. */
  predicate IsTruncated(a: int, b: int, q: int) {
    IsRemainder(a, b, a - b * q)
  }

  /** Smaller than b in magnitude, and zero or of the sign of a. */
  predicate IsRemainder(a: int, b: int, r: int) {
    Magnitude(r) < Magnitude(b) && (r == 0 || (r > 0 <==> a > 0))
  }

  ghost predicate IsQuotient(a: bv32, b: bv32, r: bv32) {
    if ToInt(b) == 0 then ToInt(r) == -1
    else if ToInt(a) == -0x8000_0000 && ToInt(b) == -1 then ToInt(r) == -0x8000_0000
    else IsTruncated(ToInt(a), ToInt(b), ToInt(r))
  }

  ghost predicate IsRest(a: bv32, b: bv32, r: bv32) {
    if ToInt(b) == 0 then ToInt(r) == ToInt(a)
    else IsRemainder(ToInt(a), ToInt(b), ToInt(r)) && exists q: int :: ToInt(a) == ToInt(b) * q + ToInt(r)
  }

  /** The meaning of each register operation on rs1 = a and rs2 = b. */
  ghost predicate RegisterMeans(op: ROp, a: bv32, b: bv32, r: bv32) {
    match op
    case ADD => IsSum(a, b, r)
    case SUB => ToNat(r) == (ToNat(a) - ToNat(b)) % TWO_32
    case SLL => IsLeftShift(a, b, r)
    case SLT => IsTruth(r, ToInt(a) < ToInt(b))
    case SLTU => IsTruth(r, ToNat(a) < ToNat(b))
    case XOR => IsXor(a, b, r)
    case SRL => IsRightShift(a, b, r)
    case SRA => IsSignedShift(a, b, r)
    case OR => IsOr(a, b, r)
    case AND => IsAnd(a, b, r)
    case MUL => ToNat(r) == ToNat(a) * ToNat(b) % TWO_32
    case MULH => ToInt(r) == ToInt(a) * ToInt(b) / TWO_32
    case MULHSU => ToInt(r) == ToInt(a) * ToNat(b) / TWO_32
    case MULHU => ToNat(r) == ToNat(a) * ToNat(b) / TWO_32
    case DIV => IsQuotient(a, b, r)
    case DIVU => ToNat(r) == if ToNat(b) == 0 then TWO_32 - 1 else ToNat(a) / ToNat(b)
    case REM => IsRest(a, b, r)
    case REMU => ToNat(r) == if ToNat(b) == 0 then ToNat(a) else ToNat(a) % ToNat(b)
  }

  /** The meaning of each immediate operation on rs1 = a and the sign-extended immediate. */
  ghost predicate ImmediateMeans(op: IOp, a: bv32, imm: bv32, r: bv32) {
    match op
    case ADDI => IsSum(a, imm, r)
    case SLTI => IsTruth(r, ToInt(a) < ToInt(imm))
    case SLTIU => IsTruth(r, ToNat(a) < ToNat(imm))
    case XORI => IsXor(a, imm, r)
    case ORI => IsOr(a, imm, r)
    case ANDI => IsAnd(a, imm, r)
    case SLLI => IsLeftShift(a, imm, r)
    case SRLI => IsRightShift(a, imm, r)
    case SRAI => IsSignedShift(a, imm, r)
  }

  ghost predicate IsSmaller(a: int, b: int, r: int) {
    (r == a || r == b) && r <= a && r <= b
  }

  ghost predicate IsLarger(a: int, b: int, r: int) {
    (r == a || r == b) && r >= a && r >= b
  }

  /** The word each AMO stores, from the word in memory and rs2. */
  ghost predicate AmoMeans(op: AmoOp, current: bv32, b: bv32, r: bv32) {
    match op
    case AMOADD => IsSum(current, b, r)
    case AMOSWAP => ToNat(r) == ToNat(b)
    case AMOXOR => IsXor(current, b, r)
    case AMOOR => IsOr(current, b, r)
    case AMOAND => IsAnd(current, b, r)
    case AMOMIN => IsSmaller(ToInt(current), ToInt(b), ToInt(r))
    case AMOMAX => IsLarger(ToInt(current), ToInt(b), ToInt(r))
    case AMOMINU => IsSmaller(ToNat(current), ToNat(b), ToNat(r))
    case AMOMAXU => IsLarger(ToNat(current), ToNat(b), ToNat(r))
  }

  /** When each branch is taken. */
  ghost predicate BranchMeans(op: BOp, a: bv32, b: bv32) {
    match op
    case BEQ => ToNat(a) == ToNat(b)
    case BNE => ToNat(a) != ToNat(b)
    case BLT => ToInt(a) < ToInt(b)
    case BGE => ToInt(a) >= ToInt(b)
    case BLTU => ToNat(a) < ToNat(b)
    case BGEU => ToNat(a) >= ToNat(b)
  }

  // ----- bits --------------------------------------------------------------------------

  function Xor(a: bv32, b: bv32): bv32 {
    a ^ b
  }

  function Or(a: bv32, b: bv32): bv32 {
    a | b
  }

  function And(a: bv32, b: bv32): bv32 {
    a & b
  }

  function Not(a: bv32): bv32 {
    !a
  }

  lemma XorHas(a: bv32, b: bv32, n: bv5)
    ensures Has(Xor(a, b), n) <==> (Has(a, n) != Has(b, n))
  {
  }

  lemma OrHas(a: bv32, b: bv32, n: bv5)
    ensures Has(Or(a, b), n) <==> Has(a, n) || Has(b, n)
  {
  }

  lemma AndHas(a: bv32, b: bv32, n: bv5)
    ensures Has(And(a, b), n) <==> Has(a, n) && Has(b, n)
  {
  }

  lemma NotHas(a: bv32, n: bv5)
    ensures Has(Not(a), n) <==> !Has(a, n)
  {
  }

  lemma XorIs(a: bv32, b: bv32)
    ensures IsXor(a, b, Xor(a, b))
  {
    hide Has, Xor;
    forall n: bv5
      ensures Has(Xor(a, b), n) <==> (Has(a, n) != Has(b, n))
    {
      XorHas(a, b, n);
    }
  }

  lemma OrIs(a: bv32, b: bv32)
    ensures IsOr(a, b, Or(a, b))
  {
    hide Has, Or;
    forall n: bv5
      ensures Has(Or(a, b), n) <==> Has(a, n) || Has(b, n)
    {
      OrHas(a, b, n);
    }
  }

  lemma AndIs(a: bv32, b: bv32)
    ensures IsAnd(a, b, And(a, b))
  {
    hide Has, And;
    forall n: bv5
      ensures Has(And(a, b), n) <==> Has(a, n) && Has(b, n)
    {
      AndHas(a, b, n);
    }
  }

  // ----- comparisons and shifts ---------------------------------------------------------

  lemma FlagIs(b: bool)
    ensures IsTruth(Flag(b), b)
  {
    ZeroIsZero();
    OneIsOne();
    hide ToNat;
  }

  lemma AmountDigits(b: bv32, low: bv4, high: bv4)
    requires low == Ranges.HexDigit(b, 0) && high == Ranges.HexDigit(b, 1)
    ensures Amount(b) == ((high as bv5) << 4) | (low as bv5)
  {
  }

  lemma FiveBitNumber(low: bv4, high: bv4)
    ensures (((high as bv5) << 4) | (low as bv5)) as nat == NibbleVal(low) + 16 * (NibbleVal(high) % 2)
  {
  }

  lemma ModuloDigits(low: nat, high: nat, rest: nat)
    requires low < 16 && high < 16
    ensures (low + 16 * high + 256 * rest) % 32 == low + 16 * (high % 2)
  {
    Modulo32(low + 16 * (high % 2), high / 2 + 8 * rest);
  }

  lemma Modulo32(x: nat, k: nat)
    requires x < 32
    ensures (x + 32 * k) % 32 == x
  {
  }

  lemma WordModulo(b: bv32)
    ensures ToNat(b) % 32 == Ranges.N(b, 0) + 16 * (Ranges.N(b, 1) % 2)
  {
    hide ToNat, Ranges.N;
    Ranges.ToNatIs(b);
    Ranges.DigitBounds(b);
    var rest := Ranges.N(b, 2) + 0x10 * Ranges.N(b, 3) + 0x100 * Ranges.N(b, 4) + 0x1000 * Ranges.N(b, 5)
      + 0x1_0000 * Ranges.N(b, 6) + 0x10_0000 * Ranges.N(b, 7);
    ModuloDigits(Ranges.N(b, 0), Ranges.N(b, 1), rest);
  }

  lemma AmountNumber(b: bv32, n: bv5, low: bv4, high: bv4)
    requires n == ((high as bv5) << 4) | (low as bv5)
    ensures n as nat == NibbleVal(low) + 16 * (NibbleVal(high) % 2)
  {
    hide NibbleVal;
    FiveBitNumber(low, high);
  }

  /** The shift amount is the word modulo 32. */
  lemma AmountIs(b: bv32)
    ensures Amount(b) as nat == ToNat(b) % 32
  {
    AmountDigits(b, Ranges.HexDigit(b, 0), Ranges.HexDigit(b, 1));
    AmountNumber(b, Amount(b), Ranges.HexDigit(b, 0), Ranges.HexDigit(b, 1));
    hide ToNat, Amount, NibbleVal, Ranges.HexDigit;
    WordModulo(b);
  }

  lemma LeftShiftIs(a: bv32, b: bv32)
    ensures IsLeftShift(a, b, ShiftLeft(a, Amount(b)))
  {
    hide ToNat, Amount, ShiftLeft, Power2;
    AmountIs(b);
    LeftIs(a, Amount(b));
  }

  lemma RightShiftIs(a: bv32, b: bv32)
    ensures IsRightShift(a, b, ShiftRight(a, Amount(b)))
  {
    hide ToNat, Amount, ShiftRight, Power2;
    AmountIs(b);
    RightIs(a, Amount(b));
  }

  lemma ArithmeticShiftIs(a: bv32, n: bv5)
    ensures ArithmeticShift(a, n) == if Ranges.Sign(a) then !ShiftRight(!a, n) else ShiftRight(a, n)
  {
    hide ShiftRight;
  }

  lemma SignedShiftIs(a: bv32, b: bv32)
    ensures IsSignedShift(a, b, ArithmeticShift(a, Amount(b)))
  {
    hide ToNat, ToInt, Amount, ShiftRight, Power2, ArithmeticShift, Ranges.Sign;
    AmountIs(b);
    ArithmeticShiftIs(a, Amount(b));
    SignedRightIs(a, Amount(b));
  }

  // ----- products and quotients -----------------------------------------------------------

  lemma HighSignedIs(a: bv32, b: bv32)
    ensures ToInt(Mulh(a, b)) == ToInt(a) * ToInt(b) / TWO_32
  {
    hide *;
    SignedProduct(a, b);
    ToNatBound(Mul(a, b));
    ByTwo32(ToInt(a) * ToInt(b), ToInt(Mulh(a, b)), ToNat(Mul(a, b)));
  }

  lemma ByTwo32(p: int, high: int, low: nat)
    requires high * TWO_32 + low == p && low < TWO_32
    ensures high == p / TWO_32
  {
  }

  lemma MixedBound(x: int, y: nat)
    requires MIN_INT <= x < TWO_31 && y < TWO_32
    ensures MIN_INT <= x * y / TWO_32 < TWO_31
  {
    if x >= 0 {
      MulMonotone(x, TWO_31 - 1, y);
      MulMonotone(y, TWO_32, TWO_31 - 1);
    } else {
      MulMonotone(-x, TWO_31, y);
      MulMonotone(y, TWO_32, TWO_31);
      assert x * y == -(-x * y);
    }
  }

  lemma HighMixedIs(a: bv32, b: bv32)
    ensures ToInt(Mulhsu(a, b)) == ToInt(a) * ToNat(b) / TWO_32
  {
    assert MixedOf(a, b) == ToInt(a) * ToNat(b);
    hide *;
    MulhIs(a, b);
    SignIs(a);
    ToNatBound(b);
    assert MIN_INT == -0x8000_0000;
    MixedBound(ToInt(a), ToNat(b));
    HighSigned(ToInt(a) * ToNat(b) / TWO_32, Mulhsu(a, b));
  }

  lemma ProductsAre(a: bv32, b: bv32)
    ensures ToNat(Mul(a, b)) == ToNat(a) * ToNat(b) % TWO_32
    ensures ToNat(Mulhu(a, b)) == ToNat(a) * ToNat(b) / TWO_32
  {
    assert UnsignedOf(a, b) == ToNat(a) * ToNat(b);
    hide *;
    MulIs(a, b);
    MulhuIs(a, b);
    UnsignedBound(a, b);
    Reduce(UnsignedOf(a, b) / TWO_32);
  }

  lemma Reduce(n: int)
    requires 0 <= n < TWO_32
    ensures n % TWO_32 == n
  {
  }

  lemma QuotientIsTruncated(a: int, b: int)
    requires b != 0
    ensures IsTruncated(a, b, Quotient(a, b)) && IsRemainder(a, b, Remainder(a, b))
  {
    hide Quotient;
    RemainderLaws(a, b);
  }

  lemma DivisionIs(a: bv32, b: bv32)
    ensures IsQuotient(a, b, Div(a, b))
  {
    OnesAreMinusOne();
    hide ToInt, ToNat, Wrap, Quotient, Remainder, IsTruncated, IsRemainder;
    if ToInt(b) != 0 && !Overflows(a, b) {
      SignedDivision(a, b);
      QuotientIsTruncated(ToInt(a), ToInt(b));
    }
  }

  lemma RestIs(a: bv32, b: bv32)
    ensures IsRest(a, b, Rem(a, b))
  {
    ZeroIsZero();
    hide ToInt, ToNat, Wrap, Quotient, Remainder, IsRemainder;
    if ToInt(b) == 0 {
    } else if Overflows(a, b) {
      assert ToInt(a) == ToInt(b) * 0x8000_0000 + 0;
      ZeroRemainder(ToInt(a), ToInt(b));
    } else {
      SignedDivision(a, b);
      QuotientIsTruncated(ToInt(a), ToInt(b));
      RemainderLaws(ToInt(a), ToInt(b));
    }
  }

  lemma ZeroRemainder(a: int, b: int)
    requires b != 0
    ensures IsRemainder(a, b, 0)
  {
  }

  lemma UnsignedQuotients(a: bv32, b: bv32)
    ensures ToNat(Divu(a, b)) == if ToNat(b) == 0 then TWO_32 - 1 else ToNat(a) / ToNat(b)
    ensures ToNat(Remu(a, b)) == if ToNat(b) == 0 then ToNat(a) else ToNat(a) % ToNat(b)
  {
    OnesAreMinusOne();
    hide ToNat, Wrap;
    if ToNat(b) != 0 {
      DivuIs(a, b);
    }
  }

  // ----- the four theorems -----------------------------------------------------------------

  lemma AddIs(a: bv32, b: bv32)
    ensures RegisterMeans(ADD, a, b, RegisterResult(ADD, a, b))
  {
    hide ToNat;
    SumIs(b, a);
  }

  lemma SubIs(a: bv32, b: bv32)
    ensures RegisterMeans(SUB, a, b, RegisterResult(SUB, a, b))
  {
    hide ToNat;
    DifferenceIs(a, b);
  }

  lemma OtherSumsAre(a: bv32, b: bv32)
    ensures ImmediateMeans(ADDI, a, b, ImmediateResult(ADDI, a, b)) && AmoMeans(AMOADD, a, b, AmoResult(AMOADD, a, b))
  {
    hide ToNat;
    SumIs(a, b);
  }

  lemma XorResult(a: bv32, b: bv32)
    ensures RegisterResult(XOR, a, b) == Xor(a, b) && ImmediateResult(XORI, a, b) == Xor(a, b)
        && AmoResult(AMOXOR, a, b) == Xor(a, b)
  {
  }

  lemma XorsAre(a: bv32, b: bv32)
    ensures RegisterMeans(XOR, a, b, RegisterResult(XOR, a, b)) && ImmediateMeans(XORI, a, b, ImmediateResult(XORI, a, b))
    ensures AmoMeans(AMOXOR, a, b, AmoResult(AMOXOR, a, b))
  {
    hide IsXor, Xor, RegisterResult, ImmediateResult, AmoResult;
    XorIs(a, b);
    XorResult(a, b);
  }

  lemma OrResult(a: bv32, b: bv32)
    ensures RegisterResult(OR, a, b) == Or(a, b) && ImmediateResult(ORI, a, b) == Or(a, b)
        && AmoResult(AMOOR, a, b) == Or(a, b)
  {
  }

  lemma OrsAre(a: bv32, b: bv32)
    ensures RegisterMeans(OR, a, b, RegisterResult(OR, a, b)) && ImmediateMeans(ORI, a, b, ImmediateResult(ORI, a, b))
    ensures AmoMeans(AMOOR, a, b, AmoResult(AMOOR, a, b))
  {
    hide IsOr, Or, RegisterResult, ImmediateResult, AmoResult;
    OrIs(a, b);
    OrResult(a, b);
  }

  lemma AndResult(a: bv32, b: bv32)
    ensures RegisterResult(AND, a, b) == And(a, b) && ImmediateResult(ANDI, a, b) == And(a, b)
        && AmoResult(AMOAND, a, b) == And(a, b)
  {
  }

  lemma AndsAre(a: bv32, b: bv32)
    ensures RegisterMeans(AND, a, b, RegisterResult(AND, a, b)) && ImmediateMeans(ANDI, a, b, ImmediateResult(ANDI, a, b))
    ensures AmoMeans(AMOAND, a, b, AmoResult(AMOAND, a, b))
  {
    hide IsAnd, And, RegisterResult, ImmediateResult, AmoResult;
    AndIs(a, b);
    AndResult(a, b);
  }

  lemma LeftShiftsAre(a: bv32, b: bv32)
    ensures RegisterMeans(SLL, a, b, RegisterResult(SLL, a, b)) && ImmediateMeans(SLLI, a, b, ImmediateResult(SLLI, a, b))
  {
    hide IsLeftShift, ShiftLeft, Amount;
    LeftShiftIs(a, b);
  }

  lemma RightShiftsAre(a: bv32, b: bv32)
    ensures RegisterMeans(SRL, a, b, RegisterResult(SRL, a, b)) && ImmediateMeans(SRLI, a, b, ImmediateResult(SRLI, a, b))
  {
    hide IsRightShift, ShiftRight, Amount;
    RightShiftIs(a, b);
  }

  lemma SignedShiftsAre(a: bv32, b: bv32)
    ensures RegisterMeans(SRA, a, b, RegisterResult(SRA, a, b)) && ImmediateMeans(SRAI, a, b, ImmediateResult(SRAI, a, b))
  {
    hide IsSignedShift, ArithmeticShift, Amount;
    SignedShiftIs(a, b);
  }

  lemma ComparisonsAre(a: bv32, b: bv32)
    ensures RegisterMeans(SLT, a, b, RegisterResult(SLT, a, b)) && RegisterMeans(SLTU, a, b, RegisterResult(SLTU, a, b))
    ensures ImmediateMeans(SLTI, a, b, ImmediateResult(SLTI, a, b))
        && ImmediateMeans(SLTIU, a, b, ImmediateResult(SLTIU, a, b))
  {
    hide IsTruth, ToNat, ToInt, Flag;
    UnsignedOrder(a, b);
    FlagIs(ToInt(a) < ToInt(b));
    FlagIs(ToNat(a) < ToNat(b));
  }

  lemma MultipliesAre(op: ROp, a: bv32, b: bv32)
    requires op.MUL? || op.MULH? || op.MULHSU? || op.MULHU?
    ensures RegisterMeans(op, a, b, RegisterResult(op, a, b))
  {
    hide ToNat, ToInt, Mul, Mulh, Mulhsu, Mulhu;
    ProductsAre(a, b);
    HighSignedIs(a, b);
    HighMixedIs(a, b);
  }

  lemma DivisionsAre(op: ROp, a: bv32, b: bv32)
    requires op.DIV? || op.DIVU? || op.REM? || op.REMU?
    ensures RegisterMeans(op, a, b, RegisterResult(op, a, b))
  {
    hide ToNat, ToInt, Div, Rem, Divu, Remu, IsQuotient, IsRest;
    DivisionIs(a, b);
    RestIs(a, b);
    UnsignedQuotients(a, b);
  }

  /** Every register operation computes what it means, for all operands. */
  lemma RegisterOperations(op: ROp, a: bv32, b: bv32)
    ensures RegisterMeans(op, a, b, RegisterResult(op, a, b))
  {
    hide RegisterMeans, ImmediateMeans, AmoMeans, RegisterResult, ImmediateResult, AmoResult;
    match op
    case ADD => AddIs(a, b);
    case SUB => SubIs(a, b);
    case SLL => LeftShiftsAre(a, b);
    case SRL => RightShiftsAre(a, b);
    case SRA => SignedShiftsAre(a, b);
    case XOR => XorsAre(a, b);
    case OR => OrsAre(a, b);
    case AND => AndsAre(a, b);
    case SLT | SLTU => ComparisonsAre(a, b);
    case MUL | MULH | MULHSU | MULHU => MultipliesAre(op, a, b);
    case DIV | DIVU | REM | REMU => DivisionsAre(op, a, b);
  }

  /** So does every immediate operation. */
  lemma ImmediateOperations(op: IOp, a: bv32, imm: bv32)
    ensures ImmediateMeans(op, a, imm, ImmediateResult(op, a, imm))
  {
    hide RegisterMeans, ImmediateMeans, AmoMeans, RegisterResult, ImmediateResult, AmoResult;
    match op
    case ADDI => OtherSumsAre(a, imm);
    case SLTI | SLTIU => ComparisonsAre(a, imm);
    case XORI => XorsAre(a, imm);
    case ORI => OrsAre(a, imm);
    case ANDI => AndsAre(a, imm);
    case SLLI => LeftShiftsAre(a, imm);
    case SRLI => RightShiftsAre(a, imm);
    case SRAI => SignedShiftsAre(a, imm);
  }

  lemma SwapIs(current: bv32, b: bv32)
    ensures AmoMeans(AMOSWAP, current, b, AmoResult(AMOSWAP, current, b))
  {
    hide ToNat;
  }

  lemma SignedChoices(current: bv32, b: bv32)
    ensures AmoMeans(AMOMIN, current, b, AmoResult(AMOMIN, current, b))
        && AmoMeans(AMOMAX, current, b, AmoResult(AMOMAX, current, b))
  {
    hide ToInt, AmoResult;
    SignedExtremes(current, b);
  }

  lemma UnsignedChoices(current: bv32, b: bv32)
    ensures AmoMeans(AMOMINU, current, b, AmoResult(AMOMINU, current, b))
        && AmoMeans(AMOMAXU, current, b, AmoResult(AMOMAXU, current, b))
  {
    hide ToNat, AmoResult;
    UnsignedExtremes(current, b);
  }

  /** And every AMO. */
  lemma AmoOperations(op: AmoOp, current: bv32, b: bv32)
    ensures AmoMeans(op, current, b, AmoResult(op, current, b))
  {
    hide RegisterMeans, ImmediateMeans, AmoMeans, RegisterResult, ImmediateResult, AmoResult;
    match op
    case AMOADD => OtherSumsAre(current, b);
    case AMOSWAP => SwapIs(current, b);
    case AMOXOR => XorsAre(current, b);
    case AMOOR => OrsAre(current, b);
    case AMOAND => AndsAre(current, b);
    case AMOMIN | AMOMAX => SignedChoices(current, b);
    case AMOMINU | AMOMAXU => UnsignedChoices(current, b);
  }

  /** And every branch is taken exactly when its comparison of numbers holds. */
  lemma BranchConditions(op: BOp, a: bv32, b: bv32)
    ensures BranchTaken(op, a, b) <==> BranchMeans(op, a, b)
  {
    hide ToNat, ToInt;
    UnsignedOrder(a, b);
    NumberDetermines(a, b);
  }
}
