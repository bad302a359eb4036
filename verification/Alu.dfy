/** The ALU of the microprocessor: one instruction's result, and what the
    multiply and divide steps compute when they are iterated. */
module Alu {
  import opened Words

  // Operation codes of the ALU function field (octal in comments).
  const MSTEP := 32   // 040
  const DSTEP := 33   // 041
  const RSTEP := 37   // 045
  const DFSTEP := 41   // 051

  // Output bus selection and Q control.
  const OB_ALU := 1
  const OB_RIGHT := 2
  const OB_LEFT := 3
  const Q_LEFT := 1
  const Q_RIGHT := 2

  /** What an ALU operation leaves in alu_out and alu_carry. */
  datatype Result = Result(out: word, carry: bool)

  function B2I(b: bool): nat { if b then 1 else 0 }

  /** add32 on two signed operands: the carry is decided by comparing the
      second operand with the complement of the first, both as signed numbers. */
  function Add32(a: word, b: word, ci: bool): Result {
    var notA := -Signed(a) - 1;
    Result(Wrap(a + b + B2I(ci)),
           if ci then !(Signed(b) >= notA) else !(Signed(b) > notA))
  }

  /** add32 as remainder correction uses it, with the output as its own first
      operand: it has already been assigned when the carry is decided, and being
      unsigned it makes the comparison unsigned. */
  function Add32InPlace(out: word, b: word, ci: bool): Result {
    var sum := Wrap(out + b + B2I(ci));
    Result(sum, if ci then b < Not(sum) else b <= Not(sum))
  }

  function Sub32(a: word, b: word, ci: bool): Result {
    var out := Wrap(a - b - B2I(!ci));
    Result(out, out < a)
  }

  /** A sum formed in 64 bits; the carry is whether its upper half is nonzero. */
  function Wide(lv: int): Result { Result(Wrap(lv), lv / 0x1_0000_0000 != 0) }

  /** Boolean operations; 011 compares the sources instead of combining bits. */
  function Logical(op: nat, m: word, a: word): word {
    match op
    case 0 => 0
    case 1 => And(m, a)
    case 2 => And(m, Not(a))
    case 3 => m
    case 4 => And(Not(m), a)
    case 5 => a
    case 6 => Xor(m, a)
    case 7 => Or(m, a)
    case 8 => And(Not(a), Not(m))
    case 9 => B2I(a == m)
    case 10 => Not(a)
    case 11 => Or(m, Not(a))
    case 12 => Not(m)
    case 13 => Or(Not(m), a)
    case 14 => Or(Not(m), Not(a))
    case _ => 0xFFFF_FFFF
  }

  /** The exact, unbounded signed result of arithmetic operation 020..037. */
  function Exact(op: nat, m: word, a: word, ci: bool): int {
    match op
    case 16 => B2I(ci) - 1
    case 17 => Signed(And(m, a)) + B2I(ci) - 1
    case 18 => Signed(And(m, Not(a))) + B2I(ci) - 1
    case 19 => Signed(m) + B2I(ci) - 1
    case 20 => Signed(Or(m, Not(a))) + B2I(ci)
    case 21 => Signed(Or(m, Not(a))) + Signed(And(m, a)) + B2I(ci)
    case 22 => Signed(m) - Signed(a) + B2I(ci) - 1
    case 23 => Signed(Or(m, Not(a))) + Signed(m) + B2I(ci)
    case 24 => Signed(Or(m, a)) + B2I(ci)
    case 25 => Signed(m) + Signed(a) + B2I(ci)
    case 26 => Signed(Or(m, a)) + Signed(And(m, Not(a))) + B2I(ci)
    case 27 => Signed(Or(m, a)) + Signed(m) + B2I(ci)
    case 28 => Signed(m) + B2I(ci)
    case 29 => Signed(m) + Signed(And(m, a)) + B2I(ci)
    case 30 => Signed(m) + Signed(Or(m, Not(a))) + B2I(ci)
    case _ => Signed(m) + Signed(m) + B2I(ci)
  }

  /** Arithmetic operations. Most form the exact result in 64 bits; 020, 026,
      031, 034 and 037 do without and decide the carry some other way. */
  function Arithmetic(op: nat, m: word, a: word, ci: bool): Result {
    match op
    case 16 => Result(if ci then 0 else 0xFFFF_FFFF, false)
    case 22 => Sub32(m, a, ci)
    case 25 => Add32(m, a, ci)
    case 28 => Result(Wrap(m + B2I(ci)), m == 0xFFFF_FFFF && ci)
    case 31 => Add32(m, m, ci)
    case _ => Wide(Exact(op, m, a, ci))
  }

  /** Operations conditional on the low bit of Q. Remainder correction and
      undefined operations see the previous output. */
  function Conditional(op: nat, m: word, a: word, q: word, prev: word, ci: bool): Result {
    match op
    case 32 => if q % 2 == 1 then Add32(a, m, ci) else Result(m, m >= 0x8000_0000)
    case 33 => if q % 2 == 1 then Sub32(m, a, !ci) else Add32(m, a, ci)
    case 37 => if q % 2 == 1 then Result(prev, false) else Add32InPlace(prev, a, ci)
    case 41 => Sub32(m, a, !ci)
    case _ => Result(prev, false)
  }

  function Operate(op: nat, m: word, a: word, q: word, prev: word, ci: bool): Result {
    if op < 16 then Result(Logical(op, m, a), false)
    else if op < 32 then Arithmetic(op, m, a, ci)
    else Conditional(op, m, a, q, prev, ci)
  }

  function NextQ(qc: nat, q: word, out: word): word {
    match qc
    case 1 => Wrap(2 * q) + (if out < 0x8000_0000 then 1 else 0)
    case 2 => q / 2 + (if out % 2 == 1 then 0x8000_0000 else 0)
    case 3 => out
    case _ => q
  }

  /** The three ALU choices of the output bus. */
  function Bus(ob: nat, r: Result, oldQ: word): word {
    match ob
    case 2 => r.out / 2 + (if r.carry then 0x8000_0000 else 0)
    case 3 => Wrap(2 * r.out) + (if oldQ >= 0x8000_0000 then 1 else 0)
    case _ => r.out
  }

  // ---------------------------------------------------------------------
  // Boolean operations

  /** Row of the truth table for bits m and a: the operation code is the column. */
  function Row(m: bool, a: bool): nat { (if m then 0 else 2) + (if a then 0 else 1) }

  /** Each bit of the result is the bit of the operation code that the operands'
      bits select. */
  ghost predicate IsTable(op: nat, m: word, a: word) {
    forall i: nat :: i < 32 ==> Bit(Logical(op, m, a), i) == Bit(op, Row(Bit(m, i), Bit(a, i)))
  }

  /** The sixteen boolean operations are the sixteen truth tables in order, for all
      words, but for EQV, 011: it compares, and is right only when the operands are
      complements. */
  lemma LogicalIsTable(op: nat, m: word, a: word)
    requires op < 16
    ensures IsTable(op, m, a) <==> op != 9 || m == Not(a)
  {
    if op == 9 {
      EqvIsTable(m, a);
    } else {
      forall i: nat | i < 32 ensures Bit(Logical(op, m, a), i) == Bit(op, Row(Bit(m, i), Bit(a, i))) {
        LogicalBit(op, m, a, i);
      }
    }
  }

  lemma LogicalBit(op: nat, m: word, a: word, i: nat)
    requires op < 16 && op != 9 && i < 32
    ensures Bit(Logical(op, m, a), i) == Bit(op, Row(Bit(m, i), Bit(a, i)))
  {
    TableBits(op, Bit(m, i), Bit(a, i));
    var m', a' := Not(m), Not(a);
    hide Bit, BitAnd, BitOr, BitXor, Not;
    BitsOfNot(m, i);
    BitsOfNot(a, i);
    ConstantBits(i);
    match op
    case 1 => BitsOfAnd(m, a, i);
    case 2 => BitsOfAnd(m, a', i);
    case 4 => BitsOfAnd(m', a, i);
    case 6 => BitsOfXor(m, a, i);
    case 7 => BitsOfOr(m, a, i);
    case 8 => BitsOfAnd(a', m', i);
    case 11 => BitsOfOr(m, a', i);
    case 13 => BitsOfOr(m', a, i);
    case 14 => BitsOfOr(m', a', i);
    case _ =>
  }

  /** The truth tables by name. */
  lemma TableBits(op: nat, m: bool, a: bool)
    requires op < 16
    ensures Bit(op, Row(m, a)) == match op
            case 0 => false
            case 1 => m && a
            case 2 => m && !a
            case 3 => m
            case 4 => !m && a
            case 5 => a
            case 6 => m != a
            case 7 => m || a
            case 8 => !a && !m
            case 9 => m == a
            case 10 => !a
            case 11 => m || !a
            case 12 => !m
            case 13 => !m || a
            case 14 => !m || !a
            case _ => true
  {
    assert Row(true, true) == 0 && Row(true, false) == 1 && Row(false, true) == 2 && Row(false, false) == 3;
    assert Bit(op, 0) == (op % 2 == 1) && Bit(op, 1) == ((op / 2) % 2 == 1);
    assert Bit(op, 2) == ((op / 2 / 2) % 2 == 1) && Bit(op, 3) == ((op / 2 / 2 / 2) % 2 == 1);
  }

  lemma ConstantBits(i: nat)
    requires i < 32
    ensures !Bit(0, i) && Bit(0xFFFF_FFFF, i)
  {
    ZeroBits(i);
    Pow2Is32();
    BitsOfOnes(32, i);
  }

  lemma EqvIsTable(m: word, a: word)
    ensures IsTable(9, m, a) <==> m == Not(a)
  {
    Pow2Is32();
    if m == Not(a) {
      forall i: nat | i < 32 ensures Bit(Logical(9, m, a), i) == Bit(9, Row(Bit(m, i), Bit(a, i))) {
        TableBits(9, Bit(m, i), Bit(a, i));
        BitsOfNot(a, i);
        ZeroBits(i);
        assert m != a;
      }
    } else if m == a {
      EqualDiffers(m);
    } else if IsTable(9, m, a) {
      DifferentComplement(m, a);
    }
  }

  /** Equal operands: bit 1 should be set and is not. */
  lemma EqualDiffers(m: word)
    ensures !IsTable(9, m, m)
  {
    TableBits(9, Bit(m, 1), Bit(m, 1));
    assert Logical(9, m, m) == 1 && !Bit(1, 1);
    assert Bit(Logical(9, m, m), 1) != Bit(9, Row(Bit(m, 1), Bit(m, 1)));
  }

  /** Different operands give 0, which is right only with every bit different. */
  lemma DifferentComplement(m: word, a: word)
    requires m != a && IsTable(9, m, a)
    ensures m == Not(a)
  {
    Pow2Is32();
    forall i: nat | i < 32 ensures Bit(m, i) == Bit(Not(a), i) {
      assert Bit(Logical(9, m, a), i) == Bit(9, Row(Bit(m, i), Bit(a, i)));
      TableBits(9, Bit(m, i), Bit(a, i));
      ZeroBits(i);
      BitsOfNot(a, i);
    }
    SameBits(m, Not(a), 32);
  }

  /** EQV is the complement of XOR exactly when the operands are complements. */
  lemma EqvMeans(m: word, a: word)
    ensures Logical(9, m, a) == Not(Xor(m, a)) <==> m == Not(a)
  {
    EqvIsTable(m, a);
    forall i: nat | i < 32 ensures Bit(Not(Xor(m, a)), i) == Bit(9, Row(Bit(m, i), Bit(a, i))) {
      TableBits(9, Bit(m, i), Bit(a, i));
      BitsOfXor(m, a, i);
      BitsOfNot(Xor(m, a), i);
    }
    hide Bit, BitXor, Row, Logical;
    Pow2Is32();
    if IsTable(9, m, a) { SameBits(Logical(9, m, a), Not(Xor(m, a)), 32); }
  }

  /** EQV of a word with itself is 1 where all ones are meant. */
  lemma EqvOfEqual(m: word)
    ensures Logical(9, m, m) == 1 && Not(Xor(m, m)) == 0xFFFF_FFFF && !IsTable(9, m, m)
  {
    XorItself(m);
    LogicalIsTable(9, m, m);
  }

  // ---------------------------------------------------------------------
  // The carry is the sign of the exact result.

  /** The operations whose carry the shifted output may rely on. */
  predicate SignedOp(op: nat) { 17 <= op <= 21 || op == 23 || 24 <= op <= 27 || 29 <= op <= 31 }

  /** Whether the right-shifted output is the halved exact result, sign included. */
  predicate HalvesExactly(op: nat, m: word, a: word, ci: bool, q: word) {
    Signed(Bus(OB_RIGHT, Arithmetic(op, m, a, ci), q)) == Exact(op, m, a, ci) / 2
  }

  lemma HalfOf(r: Result, exact: int, q: word)
    requires r.out == Wrap(exact)
    requires -0x1_0000_0000 <= exact < 0x1_0000_0000
    ensures r.carry == (exact < 0) <==> Signed(Bus(OB_RIGHT, r, q)) == exact / 2
    ensures r.out % 2 == exact % 2
  {
    assert exact / 2 == if exact < 0 then r.out / 2 - 0x8000_0000 else r.out / 2;
  }

  lemma ExactFits(op: nat, m: word, a: word, ci: bool)
    ensures -0x1_0000_0000 <= Exact(op, m, a, ci) < 0x1_0000_0000
  {
    hide And, Or;
  }

  lemma Add32IsExact(a: word, b: word, ci: bool)
    ensures var exact := Signed(a) + Signed(b) + B2I(ci);
            Add32(a, b, ci) == Result(Wrap(exact), exact < 0)
  {
  }

  lemma WideIsExact(lv: int)
    requires -0x1_0000_0000 <= lv < 0x1_0000_0000
    ensures Wide(lv).carry == (lv < 0)
  {
  }

  /** For the adding operations the carry is the sign of the exact result, so
      the output shifted right is the exact result halved for every input. */
  lemma ShiftRightKeepsSign(op: nat, m: word, a: word, ci: bool, q: word)
    requires SignedOp(op)
    ensures Arithmetic(op, m, a, ci).out == Wrap(Exact(op, m, a, ci))
    ensures Arithmetic(op, m, a, ci).carry == (Exact(op, m, a, ci) < 0)
    ensures HalvesExactly(op, m, a, ci, q)
  {
    ExactFits(op, m, a, ci);
    if op == 25 {
      Add32IsExact(m, a, ci);
    } else if op == 31 {
      Add32IsExact(m, m, ci);
    } else {
      WideIsExact(Exact(op, m, a, ci));
    }
    HalfOf(Arithmetic(op, m, a, ci), Exact(op, m, a, ci), q);
  }

  /** The three operations left over: exactly when the shifted output is right. */
  lemma ShiftRightOfOthers(op: nat, m: word, a: word, ci: bool, q: word)
    requires op in {16, 22, 28}
    ensures Arithmetic(op, m, a, ci).out == Wrap(Exact(op, m, a, ci))
    ensures HalvesExactly(op, m, a, ci, q) <==>
            match op
            case 16 => ci
            case 28 => m < 0x8000_0000
            case _ => if ci && a == 0 then m < 0x8000_0000
                      else (m < 0x8000_0000) != (a < 0x8000_0000)
  {
    ExactFits(op, m, a, ci);
    var r, exact := Arithmetic(op, m, a, ci), Exact(op, m, a, ci);
    if op == 22 {
      SubCarry(m, a, ci);
      hide *;
      HalfOf(r, exact, q);
    } else {
      assert r.out == Wrap(exact);
      assert r.carry == (exact < 0) <==> if op == 16 then ci else m < 0x8000_0000;
      hide *;
      HalfOf(r, exact, q);
    }
  }

  /** They fail: -1, 1 - 1 with a carry, and -1 + 0, halved with the wrong sign. */
  lemma ShiftRightGoesWrong(q: word)
    ensures !HalvesExactly(16, 0, 0, false, q) && !HalvesExactly(22, 1, 1, true, q)
    ensures !HalvesExactly(28, 0xFFFF_FFFF, 0, false, q)
  {
    ShiftRightOfOthers(16, 0, 0, false, q);
    ShiftRightOfOthers(22, 1, 1, true, q);
    ShiftRightOfOthers(28, 0xFFFF_FFFF, 0, false, q);
  }

  /** sub32's carry compares without regard to sign, so it tells the sign of the
      difference just when the operands' signs differ (or A is 0, M positive). */
  lemma SubCarry(m: word, a: word, ci: bool)
    ensures var exact := Signed(m) - Signed(a) + B2I(ci) - 1;
            && Sub32(m, a, ci).out == Wrap(exact)
            && (Sub32(m, a, ci).carry == (exact < 0) <==>
                if ci && a == 0 then m < 0x8000_0000
                else (m < 0x8000_0000) != (a < 0x8000_0000))
  {
  }

  // ---------------------------------------------------------------------
  // The arithmetic operations as one adder

  /** The bits the adder is given for bits m and a of the sources: the operation's upper
      two bits choose the first addend and the lower two the second, but for 036. */
  predicate FirstAddend(op: nat, m: bool, a: bool) {
    match (op / 4) % 4
    case 0 => true
    case 1 => m || !a
    case 2 => m || a
    case _ => m
  }

  predicate SecondAddend(op: nat, m: bool, a: bool) {
    match op % 4
    case 0 => false
    case 1 => m && a
    case 2 => if op == 30 then m || !a else m && !a
    case _ => m
  }

  ghost predicate Addends(op: nat, m: word, a: word, x: word, y: word) {
    forall i: nat :: i < 32 ==>
      Bit(x, i) == FirstAddend(op, Bit(m, i), Bit(a, i)) && Bit(y, i) == SecondAddend(op, Bit(m, i), Bit(a, i))
  }

  /** Each arithmetic operation adds two words formed from the sources bit by bit, and the
      carry-in. Its carry is the sign of the sum, but for 020, 026 and 034. */
  lemma ArithmeticAdds(op: nat, m: word, a: word, ci: bool, x: word, y: word)
    requires 16 <= op < 32 && Addends(op, m, a, x, y)
    ensures var sum, r := Signed(x) + Signed(y) + B2I(ci), Arithmetic(op, m, a, ci);
            && Exact(op, m, a, ci) == sum && r.out == Wrap(sum)
            && r.carry == match op
                          case 16 => false
                          case 22 => r.out < m
                          case 28 => m == 0xFFFF_FFFF && ci
                          case _ => sum < 0
  {
    AddendWords(op, m, a, x, y);
    AddedSigned(m, a);
    AddedSigned(m, Not(a));
    ExactIsSum(op, m, a, ci, x, y);
    OtherCarries(op, m, a, ci);
    hide *;
    if op !in {16, 22, 28} {
      ShiftRightKeepsSign(op, m, a, ci, 0);
    } else {
      ShiftRightOfOthers(op, m, a, ci, 0);
    }
  }

  lemma OtherCarries(op: nat, m: word, a: word, ci: bool)
    ensures SignedOp(op) <==> 16 <= op < 32 && op !in {16, 22, 28}
    ensures op in {16, 22, 28} ==>
              Arithmetic(op, m, a, ci).carry == match op
                                                case 16 => false
                                                case 22 => Arithmetic(op, m, a, ci).out < m
                                                case _ => m == 0xFFFF_FFFF && ci
  {
  }

  /** The addends as words. */
  function FirstWord(op: nat, m: word, a: word): word {
    if op < 20 then 0xFFFF_FFFF else if op < 24 then Or(m, Not(a)) else if op < 28 then Or(m, a) else m
  }

  function SecondWord(op: nat, m: word, a: word): word {
    match op
    case 16 | 20 | 24 | 28 => 0
    case 17 | 21 | 25 | 29 => And(m, a)
    case 18 | 22 | 26 => And(m, Not(a))
    case 30 => Or(m, Not(a))
    case _ => m
  }

  lemma CodeParts(op: nat)
    requires 16 <= op < 32
    ensures (op / 4) % 4 == if op < 20 then 0 else if op < 24 then 1 else if op < 28 then 2 else 3
    ensures op % 4 == if op in {16, 20, 24, 28} then 0 else if op in {17, 21, 25, 29} then 1
                      else if op in {18, 22, 26, 30} then 2 else 3
  {
  }

  lemma AddendWords(op: nat, m: word, a: word, x: word, y: word)
    requires 16 <= op < 32 && Addends(op, m, a, x, y)
    ensures x == FirstWord(op, m, a) && y == SecondWord(op, m, a)
  {
    CodeParts(op);
    forall i: nat | i < 32
      ensures Bit(x, i) == Bit(FirstWord(op, m, a), i) && Bit(y, i) == Bit(SecondWord(op, m, a), i)
    {
      assert Bit(x, i) == FirstAddend(op, Bit(m, i), Bit(a, i));
      BitsOfNot(a, i);
      ConstantBits(i);
      BitsOfOr(m, Not(a), i);
      BitsOfOr(m, a, i);
      BitsOfAnd(m, Not(a), i);
      BitsOfAnd(m, a, i);
      hide Bit, BitAnd, BitOr;
    }
    hide Bit, BitAnd, BitOr, FirstWord, SecondWord;
    SameWord(x, FirstWord(op, m, a));
    SameWord(y, SecondWord(op, m, a));
  }

  lemma SameWord(x: word, y: word)
    requires forall i: nat :: i < 32 ==> Bit(x, i) == Bit(y, i)
    ensures x == y
  {
    Pow2Is32();
    SameBits(x, y, 32);
  }

  /** The bits of x and y in either, and those in both, add up to x and y. */
  lemma {:induction false} OrPlusAnd(x: nat, y: nat)
    ensures BitOr(x, y) + BitAnd(x, y) == x + y
    decreases x
  {
    if x > 0 { OrPlusAnd(x / 2, y / 2); }
  }

  /** So they do as signed words. */
  lemma AddedSigned(x: word, y: word)
    ensures Signed(Or(x, y)) + Signed(And(x, y)) == Signed(x) + Signed(y)
  {
    OrPlusAnd(x, y);
    SignBit(x);
    SignBit(y);
    SignBit(Or(x, y));
    SignBit(And(x, y));
    BitsOfOr(x, y, 31);
    BitsOfAnd(x, y, 31);
    hide Bit, BitAnd, BitOr;
  }

  lemma SignBit(x: word)
    ensures Bit(x, 31) <==> x >= 0x8000_0000
  {
    Pow2Is31();
    BitIsDigit(x, 31);
  }

  lemma ExactIsSum(op: nat, m: word, a: word, ci: bool, x: word, y: word)
    requires 16 <= op < 32
    requires Signed(Or(m, a)) + Signed(And(m, a)) == Signed(m) + Signed(a)
    requires Signed(Or(m, Not(a))) + Signed(And(m, Not(a))) == Signed(m) + Signed(Not(a))
    requires x == FirstWord(op, m, a) && y == SecondWord(op, m, a)
    ensures Exact(op, m, a, ci) == Signed(x) + Signed(y) + B2I(ci)
  {
    if op < 24 { SumBelow24(op, m, a, ci, x, y); } else { SumFrom24(op, m, a, ci, x, y); }
    hide *;
  }

  lemma SumBelow24(op: nat, m: word, a: word, ci: bool, x: word, y: word)
    requires 16 <= op < 24
    requires Signed(Or(m, a)) + Signed(And(m, a)) == Signed(m) + Signed(a)
    requires Signed(Or(m, Not(a))) + Signed(And(m, Not(a))) == Signed(m) + Signed(Not(a))
    requires x == FirstWord(op, m, a) && y == SecondWord(op, m, a)
    ensures Exact(op, m, a, ci) == Signed(x) + Signed(y) + B2I(ci)
  {
    assert Signed(0xFFFF_FFFF) == -1 && Signed(0) == 0 && Signed(Not(a)) == -Signed(a) - 1;
    hide And, Or, Not, Signed;
  }

  lemma SumFrom24(op: nat, m: word, a: word, ci: bool, x: word, y: word)
    requires 24 <= op < 32
    requires Signed(Or(m, a)) + Signed(And(m, a)) == Signed(m) + Signed(a)
    requires Signed(Or(m, Not(a))) + Signed(And(m, Not(a))) == Signed(m) + Signed(Not(a))
    requires x == FirstWord(op, m, a) && y == SecondWord(op, m, a)
    ensures Exact(op, m, a, ci) == Signed(x) + Signed(y) + B2I(ci)
  {
    assert Signed(0xFFFF_FFFF) == -1 && Signed(0) == 0 && Signed(Not(a)) == -Signed(a) - 1;
    hide And, Or, Not, Signed;
  }

  /** The steps with any carry-in: the multiply step adds A when Q is odd, the divide step
      subtracts it when Q is odd and adds it otherwise, the first one subtracts it, and
      remainder correction adds it to the previous output when Q is even. Every other
      operation keeps the previous output. */
  lemma StepsAdd(op: nat, m: word, a: word, q: word, prev: word, ci: bool)
    requires 32 <= op
    ensures var r := Operate(op, m, a, q, prev, ci);
            match op
            case 32 => var sum := Signed(m) + (if Bit(q, 0) then Signed(a) + B2I(ci) else 0);
                       r == Result(Wrap(sum), sum < 0)
            case 33 => if Bit(q, 0) then r.out == Wrap(Signed(m) - Signed(a) - B2I(ci)) && r.carry == (r.out < m)
                       else var sum := Signed(m) + Signed(a) + B2I(ci); r == Result(Wrap(sum), sum < 0)
            case 37 => if Bit(q, 0) then r == Result(prev, false)
                       else && r.out == Wrap(Signed(prev) + Signed(a) + B2I(ci))
                            && r.carry == (a + r.out + B2I(ci) < 0x1_0000_0000)
            case 41 => r.out == Wrap(Signed(m) - Signed(a) - B2I(ci)) && r.carry == (r.out < m)
            case _ => r == Result(prev, false)
  {
    Add32IsExact(m, a, ci);
    Add32IsExact(a, m, ci);
    SubWraps(m, a, !ci);
    AddWraps(prev, a, ci);
    OwnSign(m);
    hide Signed, Wrap, Add32, Sub32, Add32InPlace, Logical, Arithmetic;
  }

  lemma OwnSign(m: word)
    ensures Wrap(Signed(m)) == m && (Signed(m) < 0 <==> m >= 0x8000_0000)
  {
  }

  lemma SubWraps(x: word, y: word, ci: bool)
    ensures Sub32(x, y, ci).out == Wrap(Signed(x) - Signed(y) - B2I(!ci))
    ensures Sub32(x, y, ci).carry == (Sub32(x, y, ci).out < x)
  {
  }

  lemma AddWraps(x: word, y: word, ci: bool)
    ensures Add32InPlace(x, y, ci).out == Wrap(Signed(x) + Signed(y) + B2I(ci))
    ensures Add32InPlace(x, y, ci).carry == (y + Add32InPlace(x, y, ci).out + B2I(ci) < 0x1_0000_0000)
  {
  }

  /** What goes into Q: shifted left with the complement of the output's sign, right with
      its low bit, the output itself, or what was there. */
  lemma NextQBits(qc: nat, q: word, out: word, i: nat)
    requires qc < 4 && i < 32
    ensures Bit(NextQ(qc, q, out), i) ==
            match qc
            case 1 => if i == 0 then !Bit(out, 31) else Bit(q, i - 1)
            case 2 => if i == 31 then Bit(out, 0) else Bit(q, i + 1)
            case 3 => Bit(out, i)
            case _ => Bit(q, i)
  {
    SignBit(out);
    if qc == 1 {
      ShiftedLeft(q, out < 0x8000_0000, i);
    } else if qc == 2 {
      ShiftedRight(q, out % 2 == 1, i);
    }
  }

  /** What goes on the output bus: the output, shifted right with the carry, or left with
      the old sign of Q. */
  lemma BusBits(ob: nat, r: Result, oldQ: word, i: nat)
    requires 1 <= ob < 4 && i < 32
    ensures Bit(Bus(ob, r, oldQ), i) ==
            match ob
            case 1 => Bit(r.out, i)
            case 2 => if i == 31 then r.carry else Bit(r.out, i + 1)
            case _ => if i == 0 then Bit(oldQ, 31) else Bit(r.out, i - 1)
  {
    SignBit(oldQ);
    if ob == 2 {
      ShiftedRight(r.out, r.carry, i);
    } else if ob == 3 {
      ShiftedLeft(r.out, oldQ >= 0x8000_0000, i);
    }
  }

  lemma ShiftedLeft(x: word, b: bool, i: nat)
    requires i < 32
    ensures var y: word := Wrap(2 * x) + (if b then 1 else 0);
            Bit(y, i) == if i == 0 then b else Bit(x, i - 1)
  {
    var w := Wrap(2 * x);
    var y: word := w + (if b then 1 else 0);
    EvenWrap(x);
    hide *;
    LowestBit(y);
    if i > 0 {
      BitAbove(y, i);
      BitAbove(w, i);
      BitAbove(2 * x, i);
      BitsOfMod(2 * x, 32, i);
    }
  }

  lemma EvenWrap(x: word)
    ensures Wrap(2 * x) % 2 == 0 && Wrap(2 * x) / 2 == (Wrap(2 * x) + 1) / 2 && (2 * x) / 2 == x
    ensures Wrap(2 * x) == (2 * x) % Pow2(32)
  {
    Pow2Is32();
    hide Pow2;
  }

  lemma ShiftedRight(x: word, b: bool, i: nat)
    requires i < 32
    ensures var y: word := x / 2 + (if b then 0x8000_0000 else 0);
            Bit(y, i) == if i == 31 then b else Bit(x, i + 1)
  {
    var y: word := x / 2 + (if b then 0x8000_0000 else 0);
    if i == 31 {
      SignBit(y);
    } else {
      Pow2Is31();
      BitsOfMod(y, 31, i);
      BitsOfMod(x / 2, 31, i);
      assert y % 0x8000_0000 == (x / 2) % 0x8000_0000;
    }
  }

  // ---------------------------------------------------------------------
  // Iterated steps. An instruction whose destination is its own M source
  // maps the triple (M, Q, alu_out) to the next one.

  datatype Regs = Regs(m: word, q: word, out: word)

  function Instr(op: nat, ob: nat, qc: nat, a: word, r: Regs): Regs {
    var res := Operate(op, r.m, a, r.q, r.out, false);
    Regs(Bus(ob, res, r.q), NextQ(qc, r.q, res.out), res.out)
  }

  function Repeat(op: nat, ob: nat, qc: nat, a: word, r: Regs, k: nat): Regs
    decreases k
  {
    if k == 0 then r else Instr(op, ob, qc, a, Repeat(op, ob, qc, a, r, k - 1))
  }

  function MulSteps(a: word, r: Regs, k: nat): Regs { Repeat(MSTEP, OB_RIGHT, Q_RIGHT, a, r, k) }

  /** One multiply step adds a Q-bit's worth of A and shifts the 64-bit pair
      (M, Q) right: the bit shifted out of M enters Q at the top. */
  lemma MulStepShifts(a: word, r: Regs)
    ensures var r' := Instr(MSTEP, OB_RIGHT, Q_RIGHT, a, r);
            var sum := Signed(r.m) + (if r.q % 2 == 1 then Signed(a) else 0);
            Signed(r'.m) == sum / 2 && r'.q == r.q / 2 + 0x8000_0000 * (sum % 2)
  {
    var sum := Signed(r.m) + (if r.q % 2 == 1 then Signed(a) else 0);
    var res := Conditional(MSTEP, r.m, a, r.q, r.out, false);
    assert res == Result(Wrap(sum), sum < 0) by {
      if r.q % 2 == 1 { Add32IsExact(a, r.m, false); }
    }
    HalfOf(res, sum, r.q);
  }

  /** How the finished product bits and the multiplier are split: `done` holds
      the product bits already shifted out of M, `left` the multiplier bits still
      to be read and `read` those already used. */
  datatype Split = Split(done: nat, left: nat, read: nat)

  /** The multiplier q0 is what is left of it and what was read, with p = 2^k. */
  ghost predicate MultiplierSplit(q0: nat, p: nat, s: Split) {
    s.read < p && q0 == s.left * p + s.read
  }

  /** Q is the finished product bits above the unread multiplier, r = 2^(32-k). */
  ghost predicate QHolds(q: nat, r: nat, s: Split) { q == s.done * r + s.left }

  /** M and the finished bits together are the sum of the partial products. */
  ghost predicate Accumulated(m0: int, a: int, m: int, p: nat, s: Split) {
    s.done < p && m * p + s.done == m0 + a * s.read
  }

  ghost predicate MulInvariant(m0: int, a: int, q0: nat, m: int, q: nat, p: nat, r: nat, s: Split) {
    MultiplierSplit(q0, p, s) && QHolds(q, r, s) && Accumulated(m0, a, m, p, s)
  }

  lemma {:induction false} MulPrefix(a: word, r: Regs, k: nat) returns (split: Split)
    requires k <= 32
    ensures var s := MulSteps(a, r, k);
            MulInvariant(Signed(r.m), Signed(a), r.q, Signed(s.m), s.q, Pow2(k), Pow2(32 - k), split)
    decreases k
  {
    if k == 0 {
      split := Split(0, r.q, 0);
    } else {
      var j := k - 1;
      var before := MulPrefix(a, r, j);
      var s := MulSteps(a, r, j);
      MulStepShifts(a, s);
      Pow2Product(j, 31 - j);
      Pow2Is31();
      assert MulSteps(a, r, k) == Instr(MSTEP, OB_RIGHT, Q_RIGHT, a, s);
      var sum := Signed(s.m) + (if s.q % 2 == 1 then Signed(a) else 0);
      hide Instr, MulInvariant, NextSplit;
      split := NextSplit(before, Pow2(j), sum % 2);
      MulAdvance(Signed(r.m), Signed(a), r.q, Signed(s.m), s.q, Pow2(j), Pow2(31 - j), before);
    }
  }

  /** One step's bookkeeping, p = 2^j: a multiplier bit is read, product bit b done. */
  function NextSplit(s: Split, p: nat, b: nat): Split {
    Split(s.done + (if b == 1 then p else 0), s.left / 2, s.read + (if s.left % 2 == 1 then p else 0))
  }

  /** M's half of a step: weight moves from M to the finished product bits. */
  lemma AccumulatorAdvance(m0: int, a: int, m: int, p: nat, s: Split, sum: int)
    requires Accumulated(m0, a, m, p, s)
    requires sum == m + (if s.left % 2 == 1 then a else 0)
    ensures Accumulated(m0, a, sum / 2, 2 * p, NextSplit(s, p, sum % 2))
  {
    var h, b := sum / 2, sum % 2;
    var bp := if b == 1 then p else 0;
    assert h * (2 * p) + bp == sum * p by {
      assert b * p == bp;
      assert (2 * h + b) * p == h * (2 * p) + b * p;
    }
    if s.left % 2 == 1 {
      assert (m + a) * p == m * p + a * p;
      assert a * (s.read + p) == a * s.read + a * p;
    }
  }

  /** Q's half of a step, with r = 2^(31-j): b enters at the top, one multiplier
      bit leaves at the bottom. */
  lemma QAdvance(q: nat, s: Split, p: nat, r: nat, b: nat)
    requires QHolds(q, 2 * r, s) && p * r == 0x8000_0000 && b <= 1
    ensures q % 2 == s.left % 2
    ensures QHolds(q / 2 + 0x8000_0000 * b, r, NextSplit(s, p, b))
  {
    var t := s.done * r;
    assert s.done * (2 * r) == 2 * t;
    if b == 1 {
      assert (s.done + p) * r == t + p * r;
    }
  }

  lemma MultiplierAdvance(q0: nat, p: nat, s: Split, b: nat)
    requires MultiplierSplit(q0, p, s)
    ensures MultiplierSplit(q0, 2 * p, NextSplit(s, p, b))
  {
    var half, bit := s.left / 2, s.left % 2;
    assert (2 * half + bit) * p == half * (2 * p) + bit * p;
  }

  /** The arithmetic of one step of the invariant. */
  lemma MulAdvance(m0: int, a: int, q0: nat, m: int, q: nat, p: nat, r: nat, s: Split)
    requires p * r == 0x8000_0000
    requires MulInvariant(m0, a, q0, m, q, p, 2 * r, s)
    ensures var sum := m + (if q % 2 == 1 then a else 0);
            MulInvariant(m0, a, q0, sum / 2, q / 2 + 0x8000_0000 * (sum % 2), 2 * p, r,
                         NextSplit(s, p, sum % 2))
  {
    hide MultiplierSplit, QHolds, Accumulated, NextSplit;
    var sum := m + (if q % 2 == 1 then a else 0);
    QAdvance(q, s, p, r, sum % 2);
    AccumulatorAdvance(m0, a, m, p, s, sum);
    MultiplierAdvance(q0, p, s, sum % 2);
  }

  lemma {:induction false} Pow2Product(i: nat, j: nat)
    ensures Pow2(i) * Pow2(j) == Pow2(i + j)
    decreases i
  {
    if i > 0 {
      Pow2Product(i - 1, j);
      TimesDouble(Pow2(j), Pow2(i - 1));
    }
  }

  lemma Pow2Is31()
    ensures Pow2(31) == 0x8000_0000
  {
    Pow2Is32();
  }

  /** Thirty-two multiply steps leave the signed product, plus the initial M,
      in the 64-bit pair (M, Q). */
  lemma Multiply(a: word, r: Regs)
    ensures var r' := MulSteps(a, r, 32);
            Signed(r'.m) * 0x1_0000_0000 + r'.q == Signed(r.m) + Signed(a) * r.q
  {
    var split := MulPrefix(a, r, 32);
    Pow2Is32();
    var s := MulSteps(a, r, 32);
    MulFinish(Signed(r.m), Signed(a), r.q, Signed(s.m), s.q, split);
  }

  lemma MulFinish(m0: int, a: int, q0: word, m: int, q: nat, s: Split)
    requires MulInvariant(m0, a, q0, m, q, 0x1_0000_0000, 1, s)
    ensures m * 0x1_0000_0000 + q == m0 + a * q0
  {
    assert s.left == 0;
  }
}
