/** The rotate/mask unit behind the BYTE instruction and the bit jumps. */
module ByteUnit {
  import opened Words

  const LDB := 1
  const SELECTIVE_DEPOSIT := 2
  const DPB := 3

  /** Left rotation as the emulator computes it: an arithmetic shift of the sign
      bit selects the bits that leave at the top. */
  function RotateLeft(x: word, n: nat): word
    requires n < 32
  {
    var mask := if n == 0 then 0 else Shl(0xFFFF_FFFF, 31 - n);
    var wrapped: word := Shr(And(x, mask), 32 - n);
    Or(Shl(x, n), wrapped)
  }

  /** The field mask for right edge `right` and width `widthm1 + 1`. */
  function Mask(right: nat, widthm1: nat): word
    requires right < 32 && widthm1 < 32
  {
    var left := (right + widthm1) % 32;
    var leftMask: word := Shr(0xFFFF_FFFF, 31 - left);
    And(leftMask, Shl(0xFFFF_FFFF, right))
  }

  function Merge(m: word, a: word, mask: word): word { Or(And(m, mask), And(a, Not(mask))) }

  /** The output bus for each byte function. */
  function Byte(func: nat, m: word, a: word, pos: nat, widthm1: nat): word
    requires pos < 32 && widthm1 < 32
  {
    match func
    case 1 => Merge(RotateLeft(m, pos), a, Mask(0, widthm1))
    case 2 => Merge(m, a, Mask(pos, widthm1))
    case 3 => Merge(RotateLeft(m, pos), a, Mask(pos, widthm1))
    case _ => 0
  }

  /** A rotation moves bit i to bit i + n modulo 32. */
  lemma RotateBits(x: word, n: nat, i: nat)
    requires n < 32 && i < 32
    ensures Bit(RotateLeft(x, n), i) == Bit(x, if i >= n then i - n else i + 32 - n)
  {
    hide Bit, Shl, Shr, BitAnd, BitOr;
    var mask := if n == 0 then 0 else Shl(0xFFFF_FFFF, 31 - n);
    var wrapped: word := Shr(And(x, mask), 32 - n);
    var j := i + (32 - n);
    BitsOfOr(Shl(x, n), wrapped, i);
    BitsOfShl(x, n, i);
    BitsOfShr(And(x, mask), 32 - n, i);
    BitsOfAnd(x, mask, j);
    if i >= n {
      HighBits(And(x, mask), j);
    } else {
      OnesBits(j - (31 - n));
      BitsOfShl(0xFFFF_FFFF, 31 - n, j);
    }
  }

  lemma OnesBits(i: nat)
    ensures Bit(0xFFFF_FFFF, i) == (i < 32)
  {
    Pow2Is32();
    BitsOfOnes(32, i);
  }

  /** A word has no bits above bit 31. */
  lemma HighBits(x: word, i: nat)
    requires i >= 32
    ensures !Bit(x, i)
  {
    Pow2Is32();
    NoBitsAbove(x, 32, i);
  }

  /** The mask is exactly bits right .. right + widthm1 when that fits in a word,
      and empty when it would wrap around. */
  lemma MaskBits(right: nat, widthm1: nat, i: nat)
    requires right < 32 && widthm1 < 32 && i < 32
    ensures Bit(Mask(right, widthm1), i) == (right <= i <= right + widthm1 < 32)
  {
    hide Bit, Shl, Shr, BitAnd;
    var left := (right + widthm1) % 32;
    var leftMask: word := Shr(0xFFFF_FFFF, 31 - left);
    BitsOfAnd(leftMask, Shl(0xFFFF_FFFF, right), i);
    BitsOfShr(0xFFFF_FFFF, 31 - left, i);
    BitsOfShl(0xFFFF_FFFF, right, i);
    OnesBits(i + (31 - left));
    if i >= right { OnesBits(i - right); }
  }

  lemma MaskEmpty(right: nat, widthm1: nat)
    requires right < 32 && widthm1 < 32
    ensures right + widthm1 >= 32 <==> Mask(right, widthm1) == 0
  {
    if right + widthm1 >= 32 {
      forall i: nat | i < 32 ensures Bit(Mask(right, widthm1), i) == Bit(0, i) {
        MaskBits(right, widthm1, i);
        ZeroBits(i);
      }
      Pow2Is32();
      SameBits(Mask(right, widthm1), 0, 32);
    } else {
      MaskBits(right, widthm1, right);
      ZeroBits(right);
    }
  }

  /** Byte function 0 puts 0 on the bus. */
  lemma NoFunction(m: word, a: word, pos: nat, widthm1: nat)
    requires pos < 32 && widthm1 < 32
    ensures Byte(0, m, a, pos, widthm1) == 0
  {
  }

  lemma MergeBits(m: word, a: word, mask: word, i: nat)
    requires i < 32
    ensures Bit(Merge(m, a, mask), i) == if Bit(mask, i) then Bit(m, i) else Bit(a, i)
  {
    hide Bit, BitAnd, BitOr;
    BitsOfOr(And(m, mask), And(a, Not(mask)), i);
    BitsOfAnd(m, mask, i);
    BitsOfAnd(a, Not(mask), i);
    BitsOfNot(mask, i);
  }

  /** Deposit byte: the low bits of M land in the field, every other bit is A's.
      A field that would wrap deposits nothing. */
  lemma DepositBits(m: word, a: word, pos: nat, widthm1: nat, i: nat)
    requires pos < 32 && widthm1 < 32 && i < 32
    ensures Bit(Byte(DPB, m, a, pos, widthm1), i)
         == if pos <= i <= pos + widthm1 < 32 then Bit(m, i - pos) else Bit(a, i)
  {
    hide Bit, RotateLeft, Mask, Merge;
    MergeBits(RotateLeft(m, pos), a, Mask(pos, widthm1), i);
    MaskBits(pos, widthm1, i);
    RotateBits(m, pos, i);
  }

  /** Load byte with rotation (32 - pos) mod 32: the field at pos, A above it. */
  lemma LoadBits(m: word, a: word, pos: nat, widthm1: nat, i: nat)
    requires pos < 32 && widthm1 < 32 && i < 32
    ensures Bit(Byte(LDB, m, a, (32 - pos) % 32, widthm1), i)
         == if i <= widthm1 then Bit(m, (i + pos) % 32) else Bit(a, i)
  {
    hide Bit, RotateLeft, Mask, Merge;
    var rot := (32 - pos) % 32;
    MergeBits(RotateLeft(m, rot), a, Mask(0, widthm1), i);
    MaskBits(0, widthm1, i);
    RotateBits(m, rot, i);
  }

  lemma SelectiveDepositBits(m: word, a: word, pos: nat, widthm1: nat, i: nat)
    requires pos < 32 && widthm1 < 32 && i < 32
    ensures Bit(Byte(SELECTIVE_DEPOSIT, m, a, pos, widthm1), i)
         == if pos <= i <= pos + widthm1 < 32 then Bit(m, i) else Bit(a, i)
  {
    hide Bit, RotateLeft, Mask, Merge;
    MergeBits(m, a, Mask(pos, widthm1), i);
    MaskBits(pos, widthm1, i);
  }

  /** Loading the field just deposited recovers the deposited bits: the result is
      what loading M's own low field would give. */
  lemma LoadAfterDeposit(m: word, a: word, b: word, pos: nat, widthm1: nat)
    requires pos + widthm1 < 32
    ensures Byte(LDB, Byte(DPB, m, a, pos, widthm1), b, (32 - pos) % 32, widthm1)
         == Byte(LDB, m, b, 0, widthm1)
  {
    hide Bit, Byte, Pow2;
    var d := Byte(DPB, m, a, pos, widthm1);
    var x, y := Byte(LDB, d, b, (32 - pos) % 32, widthm1), Byte(LDB, m, b, 0, widthm1);
    forall i: nat | i < 32 ensures Bit(x, i) == Bit(y, i) {
      LoadBits(d, b, pos, widthm1, i);
      LoadBits(m, b, 0, widthm1, i);
      if i <= widthm1 { DepositBits(m, a, pos, widthm1, i + pos); }
    }
    Pow2Is32();
    SameBits(x, y, 32);
  }

  /** Depositing back the field just loaded changes nothing. */
  lemma DepositAfterLoad(m: word, b: word, pos: nat, widthm1: nat)
    requires pos + widthm1 < 32
    ensures Byte(DPB, Byte(LDB, m, b, (32 - pos) % 32, widthm1), m, pos, widthm1) == m
  {
    hide Bit, Byte, Pow2;
    var l := Byte(LDB, m, b, (32 - pos) % 32, widthm1);
    var x := Byte(DPB, l, m, pos, widthm1);
    forall i: nat | i < 32 ensures Bit(x, i) == Bit(m, i) {
      DepositBits(l, m, pos, widthm1, i);
      if pos <= i <= pos + widthm1 { LoadBits(m, b, pos, widthm1, i - pos); }
    }
    Pow2Is32();
    SameBits(x, m, 32);
  }

  /** Sixteen bits loaded with rotation 0 or 16 are the low or high halfword, with the
      upper half of A above it. */
  lemma LoadHalfword(m: word, a: word, high: bool)
    ensures Byte(LDB, m, a, if high then 16 else 0, 15)
         == a - a % 0x1_0000 + (if high then m / 0x1_0000 else m % 0x1_0000)
  {
    hide Bit, Byte, Shr;
    var x := Byte(LDB, m, a, if high then 16 else 0, 15);
    var h := if high then m / 0x1_0000 else m % 0x1_0000;
    var y := a - a % 0x1_0000 + h;
    Pow2Is32();
    forall i: nat | i < 32 ensures Bit(x, i) == Bit(y, i) {
      LoadBits(m, a, if high then 16 else 0, 15, i);
      if i >= 16 {
        UpperHalf(a, h, i);
      } else {
        LowerHalf(a, h, i);
        if high { UpperBits(m, i); } else { BitsOfMod(m, 16, i); }
      }
    }
    SameBits(x, y, 32);
  }

  lemma UpperBits(m: word, i: nat)
    requires i < 16
    ensures Bit(m / 0x1_0000, i) == Bit(m, i + 16)
  {
    Pow2Is32();
    hide Bit, Shr;
    ShrIsDiv(m, 16);
    BitsOfShr(m, 16, i);
  }

  lemma UpperHalf(a: word, h: nat, i: nat)
    requires h < 0x1_0000 && 16 <= i < 32
    ensures Bit(a - a % 0x1_0000 + h, i) == Bit(a, i)
  {
    var y: word := a - a % 0x1_0000 + h;
    DivModUnique(y, 0x1_0000, a / 0x1_0000, h);
    hide Bit;
    UpperBits(y, i - 16);
    UpperBits(a, i - 16);
  }

  lemma LowerHalf(a: word, h: nat, i: nat)
    requires h < 0x1_0000 && i < 16
    ensures Bit(a - a % 0x1_0000 + h, i) == Bit(h, i)
  {
    var y: word := a - a % 0x1_0000 + h;
    DivModUnique(y, 0x1_0000, a / 0x1_0000, h);
    Pow2Is32();
    hide Bit;
    BitsOfMod(y, 16, i);
  }
}
