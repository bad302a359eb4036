/** Non-restoring division by the microcode sequence DFSTEP, 31 DSTEPs, a last
    unshifted DSTEP and RSTEP. */
module Divide {
  import opened Words
  import opened Alu

  /** The bookkeeping behind the 32-bit registers: the exact partial remainder
      (negative when the last subtraction went too far), the quotient so far, the
      dividend bit just shifted in and the dividend bits still in Q. */
  datatype Partial = Partial(rem: int, quo: nat, bit: nat, left: nat)

  /** The true remainder that a partial remainder stands for. */
  function Restored(rem: int, a: int): int { if rem >= 0 then rem else rem + a }

  /** M holds the doubled partial remainder modulo 2^32 only; the bound on the
      remainder is what makes its sign readable all the same. */
  ghost predicate RemainderIn(a: word, m: word, s: Partial) {
    0 <= s.rem + a && s.rem < a && s.bit <= 1 && m == Wrap(2 * s.rem + s.bit)
  }

  /** After j shifts, with p = 2^j and w = 2^(32-j), Q is the unread dividend bits
      followed by the j quotient bits; the last of them tells the remainder's sign. */
  ghost predicate QuotientIn(q: word, p: nat, w: nat, s: Partial) {
    && p % 2 == 0 && s.quo < p && s.left < w
    && q == s.left * p + s.quo
    && (s.quo % 2 == 1 <==> s.rem >= 0)
  }

  /** What has been divided so far, and what is left of the dividend d. */
  ghost predicate DividendIs(d: int, a: word, w: nat, s: Partial) {
    d == (2 * (s.quo * a + Restored(s.rem, a)) + s.bit) * w + s.left
  }

  ghost predicate DivInvariant(d: int, a: word, m: word, q: word, p: nat, w: nat, s: Partial) {
    RemainderIn(a, m, s) && QuotientIn(q, p, w, s) && DividendIs(d, a, w, s)
  }

  function FirstStep(a: word, r: Regs): Regs { Instr(DFSTEP, OB_LEFT, Q_LEFT, a, r) }

  function DivSteps(a: word, r: Regs, k: nat): Regs { Repeat(DSTEP, OB_LEFT, Q_LEFT, a, r, k) }

  function LastStep(a: word, r: Regs): Regs { Instr(DSTEP, OB_ALU, Q_LEFT, a, r) }

  function Correct(a: word, r: Regs): Regs { Instr(RSTEP, OB_ALU, 0, a, r) }

  function Division(a: word, r: Regs): Regs {
    Correct(a, LastStep(a, DivSteps(a, FirstStep(a, r), 31)))
  }

  /** The next partial remainder, before the shift. */
  function NextRem(a: word, s: Partial): int {
    if s.rem >= 0 then 2 * s.rem + s.bit - a else 2 * s.rem + s.bit + a
  }

  function NextQuo(a: word, s: Partial): nat {
    2 * s.quo + (if NextRem(a, s) >= 0 then 1 else 0)
  }

  /** Adding or subtracting keeps the remainder bounded and the quotient exact. */
  lemma NonRestoring(a: word, s: Partial)
    requires 0 < a && 0 <= s.rem + a && s.rem < a && s.bit <= 1
    ensures 0 <= NextRem(a, s) + a && NextRem(a, s) < a
    ensures 2 * (s.quo * a + Restored(s.rem, a)) + s.bit
         == NextQuo(a, s) * a + Restored(NextRem(a, s), a)
  {
    var t := s.quo * a;
    assert (2 * s.quo) * a == 2 * t;
    assert (2 * s.quo + 1) * a == 2 * t + a;
  }

  /** A divide step's ALU output is the next remainder modulo 2^32, and the bit
      it puts into Q the remainder's sign, although M wrapped when it was doubled. */
  lemma StepOutput(a: word, r: Regs, s: Partial)
    requires 0 < a <= 0x8000_0000 && 0 <= s.rem + a && s.rem < a && s.bit <= 1
    requires r.m == Wrap(2 * s.rem + s.bit)
    requires r.q % 2 == 1 <==> s.rem >= 0
    ensures var out := Wrap(NextRem(a, s));
            var q := Wrap(2 * r.q) + (if NextRem(a, s) >= 0 then 1 else 0);
            && Instr(DSTEP, OB_ALU, Q_LEFT, a, r) == Regs(out, q, out)
            && Instr(DSTEP, OB_LEFT, Q_LEFT, a, r)
            == Regs(Wrap(2 * out) + (if r.q >= 0x8000_0000 then 1 else 0), q, out)
  {
    NonRestoring(a, s);
    WrapAbsorbs(2 * s.rem + s.bit, a);
    SignOfWrap(NextRem(a, s));
    assert Conditional(DSTEP, r.m, a, r.q, r.out, false).out == Wrap(NextRem(a, s));
  }

  lemma SignOfWrap(x: int)
    requires -0x8000_0000 <= x < 0x8000_0000
    ensures Wrap(x) < 0x8000_0000 <==> x >= 0
  {
  }

  lemma WrapAbsorbs(x: int, y: int)
    ensures Wrap(Wrap(x) + y) == Wrap(x + y)
    ensures Wrap(Wrap(x) - y) == Wrap(x - y)
  {
    WrapAdds(x, y);
    WrapAdds(x, -y);
  }

  lemma WrapAdds(x: int, y: int)
    ensures Wrap(Wrap(x) + y) == Wrap(x + y)
  {
    var k, t := x / 0x1_0000_0000, x % 0x1_0000_0000 + y;
    DivModUnique(x + y, 0x1_0000_0000, t / 0x1_0000_0000 + k, t % 0x1_0000_0000);
  }

  /** Shifting Q left hands its top bit over and takes a quotient bit in. */
  lemma QuotientAdvance(q: word, p: nat, v: nat, s: Partial, s': Partial)
    requires QuotientIn(q, p, 2 * v, s) && p * v == 0x8000_0000
    requires s'.left == s.left - (if q >= 0x8000_0000 then v else 0)
    requires s'.quo == 2 * s.quo + (if s'.rem >= 0 then 1 else 0)
    ensures QuotientIn(Wrap(2 * q) + (if s'.rem >= 0 then 1 else 0), 2 * p, v, s')
  {
    TopBitOfQ(q, p, v, s);
    var left, carry := s.left * p, if q >= 0x8000_0000 then 0x1_0000_0000 else 0;
    assert s'.left * (2 * p) == 2 * left - carry by {
      assert v * (2 * p) == 0x1_0000_0000;
      assert (s.left - v) * (2 * p) == s.left * (2 * p) - v * (2 * p);
    }
    assert Wrap(2 * q) == 2 * q - carry;
  }

  lemma TopBitOfQ(q: word, p: nat, v: nat, s: Partial)
    requires QuotientIn(q, p, 2 * v, s) && p * v == 0x8000_0000
    ensures q >= 0x8000_0000 <==> s.left >= v
  {
    if s.left >= v {
      MulMonotone(v, s.left, p);
    } else {
      MulMonotone(s.left + 1, v, p);
    }
  }

  /** One shifting divide step keeps the invariant. */
  lemma DivAdvance(d: int, a: word, r: Regs, p: nat, v: nat, s: Partial) returns (s': Partial)
    requires 0 < a <= 0x8000_0000
    requires p * v == 0x8000_0000
    requires DivInvariant(d, a, r.m, r.q, p, 2 * v, s)
    ensures var r' := Instr(DSTEP, OB_LEFT, Q_LEFT, a, r);
            DivInvariant(d, a, r'.m, r'.q, 2 * p, v, s')
  {
    QuotientParity(r.q, p, s);
    StepOutput(a, r, s);
    var r' := Instr(DSTEP, OB_LEFT, Q_LEFT, a, r);
    s' := PartialAdvance(d, a, r.q, p, v, s, r'.m, r'.q);
  }

  lemma PartialAdvance(d: int, a: word, q: word, p: nat, v: nat, s: Partial, m': word, q': word)
    returns (s': Partial)
    requires 0 < a && p * v == 0x8000_0000
    requires 0 <= s.rem + a && s.rem < a && s.bit <= 1
    requires QuotientIn(q, p, 2 * v, s) && DividendIs(d, a, 2 * v, s)
    requires m' == Wrap(2 * Wrap(NextRem(a, s))) + (if q >= 0x8000_0000 then 1 else 0)
    requires q' == Wrap(2 * q) + (if NextRem(a, s) >= 0 then 1 else 0)
    ensures DivInvariant(d, a, m', q', 2 * p, v, s')
  {
    NonRestoring(a, s);
    TopBitOfQ(q, p, v, s);
    var b := if q >= 0x8000_0000 then 1 else 0;
    s' := Partial(NextRem(a, s), NextQuo(a, s), b, s.left - (if b == 1 then v else 0));
    hide *;
    QuotientAdvance(q, p, v, s, s');
    DividendAdvance(d, a, v, s, s');
    WrapDoubles(NextRem(a, s), b);
  }

  lemma DividendAdvance(d: int, a: word, v: nat, s: Partial, s': Partial)
    requires DividendIs(d, a, 2 * v, s)
    requires 0 < a && 0 <= s.rem + a && s.rem < a && s.bit <= 1
    requires s'.rem == NextRem(a, s) && s'.quo == NextQuo(a, s) && s'.bit <= 1
    requires s'.left == s.left - (if s'.bit == 1 then v else 0)
    ensures DividendIs(d, a, v, s')
  {
    NonRestoring(a, s);
    DividendSplits(s'.quo * a + Restored(s'.rem, a), s.left, v, s'.bit, s.left - s'.left);
  }

  lemma DividendSplits(n: int, left: int, v: int, b: int, bv: int)
    requires b * v == bv
    ensures n * (2 * v) + left == (2 * n + b) * v + (left - bv)
  {
  }

  lemma QuotientParity(q: word, p: nat, s: Partial)
    requires q == s.left * p + s.quo && p % 2 == 0
    ensures q % 2 == s.quo % 2
  {
    var h := p / 2;
    assert s.left * p == 2 * (s.left * h);
  }

  lemma WrapDoubles(x: int, b: nat)
    requires b <= 1
    ensures Wrap(2 * Wrap(x)) + b == Wrap(2 * x + b)
  {
    var k, r := x / 0x1_0000_0000, x % 0x1_0000_0000;
    var c := if r < 0x8000_0000 then 0 else 1;
    DivModUnique(2 * x + b, 0x1_0000_0000, 2 * k + c, 2 * r + b - c * 0x1_0000_0000);
    DivModUnique(2 * r, 0x1_0000_0000, c, 2 * r - c * 0x1_0000_0000);
  }

  lemma {:induction false} DivPrefix(a: word, r: Regs, k: nat) returns (s: Partial)
    requires 0 < a <= 0x8000_0000 && r.m < a && k <= 31
    ensures var r' := DivSteps(a, FirstStep(a, r), k);
            DivInvariant(r.m * 0x1_0000_0000 + r.q, a, r'.m, r'.q, Pow2(k + 1), Pow2(31 - k), s)
    decreases k
  {
    Pow2Is31();
    if k == 0 {
      s := InitialStep(a, r);
      assert Pow2(1) == 2;
    } else {
      var before := DivPrefix(a, r, k - 1);
      Pow2Product(k, 31 - k);
      s := DivAdvance(r.m * 0x1_0000_0000 + r.q, a, DivSteps(a, FirstStep(a, r), k - 1),
                      Pow2(k), Pow2(31 - k), before);
    }
  }

  /** The first step subtracts unconditionally; with the high word below the
      divisor the result is negative and the overflow bit 0 enters Q. */
  lemma InitialStep(a: word, r: Regs) returns (s: Partial)
    requires 0 < a <= 0x8000_0000 && r.m < a
    ensures var r' := FirstStep(a, r);
            DivInvariant(r.m * 0x1_0000_0000 + r.q, a, r'.m, r'.q, 2, 0x8000_0000, s)
  {
    var b := if r.q >= 0x8000_0000 then 1 else 0;
    s := Partial(r.m - a, 0, b, r.q - b * 0x8000_0000);
    WrapDoubles(r.m - a, b);
  }

  /** Division of a 64-bit number by the sequence, remainder in M, quotient in Q. */
  lemma DivisionIsExact(a: word, r: Regs)
    requires 0 < a <= 0x8000_0000 && r.m < a
    ensures var r' := Division(a, r);
            r'.q * a + r'.m == r.m * 0x1_0000_0000 + r.q && 0 <= r'.m < a
  {
    var d := r.m * 0x1_0000_0000 + r.q;
    var s := DivPrefix(a, r, 31);
    Pow2Is32();
    var r1 := DivSteps(a, FirstStep(a, r), 31);
    assert Pow2(0) == 1;
    DivFinish(d, a, r1, s);
  }

  lemma DivFinish(d: int, a: word, r: Regs, s: Partial)
    requires 0 < a <= 0x8000_0000 && d < a * 0x1_0000_0000
    requires DivInvariant(d, a, r.m, r.q, 0x1_0000_0000, 1, s)
    ensures var r' := Correct(a, LastStep(a, r));
            r'.q * a + r'.m == d && 0 <= r'.m < a
  {
    assert s.left == 0;
    assert r.q % 2 == 1 <==> s.rem >= 0;
    var quo, rem := NextQuo(a, s), NextRem(a, s);
    assert quo == 2 * r.q + (if rem >= 0 then 1 else 0);
    hide *;
    StepOutput(a, r, s);
    NonRestoring(a, s);
    QuotientFits(d, a, quo, rem);
    LastQuotientBit(a, r, quo, rem);
    CorrectionRestores(a, quo, rem);
  }

  lemma LastQuotientBit(a: word, r: Regs, quo: word, rem: int)
    requires quo == 2 * r.q + (if rem >= 0 then 1 else 0)
    requires LastStep(a, r) == Regs(Wrap(rem), Wrap(2 * r.q) + (if rem >= 0 then 1 else 0), Wrap(rem))
    ensures LastStep(a, r) == Regs(Wrap(rem), quo, Wrap(rem))
    ensures quo % 2 == 1 <==> rem >= 0
  {
    hide *;
    SmallWrap(2 * r.q);
    DivModUnique(quo, 2, r.q, if rem >= 0 then 1 else 0);
  }

  lemma QuotientFits(d: int, a: word, quo: nat, rem: int)
    requires quo * a + Restored(rem, a) == d && d < a * 0x1_0000_0000 && 0 <= rem + a
    ensures quo < 0x1_0000_0000
  {
    if quo >= 0x1_0000_0000 { MulMonotone(0x1_0000_0000, quo, a); }
  }

  /** Remainder correction adds the divisor back when the last bit was 0. It
      reads the output of the previous instruction, not its M source. */
  lemma CorrectionRestores(a: word, quo: word, rem: int)
    requires 0 < a <= 0x8000_0000 && 0 <= rem + a && rem < a
    requires quo % 2 == 1 <==> rem >= 0
    ensures Correct(a, Regs(Wrap(rem), quo, Wrap(rem)))
         == Regs(Restored(rem, a), quo, Restored(rem, a))
  {
    WrapAbsorbs(rem, a);
    assert Conditional(RSTEP, Wrap(rem), a, quo, Wrap(rem), false).out == Restored(rem, a);
  }
}
