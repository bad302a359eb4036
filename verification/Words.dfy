/** 32-bit machine words as integers, with their signed view, and the bitwise
    operators of C given bit by bit. */
module Words {

  type word = x: int | 0 <= x < 0x1_0000_0000
  type byte = x: int | 0 <= x < 256

  datatype Option<T> = None | Some(value: T)

  /** Two's-complement reading of a word (C's cast from unsigned to int). */
  function Signed(w: word): int {
    if w < 0x8000_0000 then w else w - 0x1_0000_0000
  }

  /** C's conversion of an exact value to a 32-bit word. */
  function Wrap(x: int): word { x % 0x1_0000_0000 }

  function Pow2(n: nat): (p: nat)
    ensures p >= 1
    decreases n
  {
    if n == 0 then 1 else 2 * Pow2(n - 1)
  }

  /** Bit i of x, bit 0 being the least significant. */
  predicate Bit(x: nat, i: nat)
    decreases i
  {
    if i == 0 then x % 2 == 1 else Bit(x / 2, i - 1)
  }

  function BitAnd(x: nat, y: nat): (r: nat)
    ensures r <= x && r <= y
    decreases x
  {
    if x == 0 then 0
    else (if x % 2 == 1 && y % 2 == 1 then 1 else 0) + 2 * BitAnd(x / 2, y / 2)
  }

  function BitOr(x: nat, y: nat): (r: nat)
    ensures r >= x && r >= y
    decreases x
  {
    if x == 0 then y
    else (if x % 2 == 1 || y % 2 == 1 then 1 else 0) + 2 * BitOr(x / 2, y / 2)
  }

  function BitXor(x: nat, y: nat): nat
    decreases x
  {
    if x == 0 then y
    else (if x % 2 != y % 2 then 1 else 0) + 2 * BitXor(x / 2, y / 2)
  }

  function Shr(x: nat, n: nat): (r: nat)
    ensures r <= x
    decreases n
  {
    if n == 0 then x else Shr(x / 2, n - 1)
  }

  /** Left shift that drops the bits pushed past bit 31. */
  function Shl(x: word, n: nat): word
    decreases n
  {
    if n == 0 then x else Shl(Wrap(2 * x), n - 1)
  }

  function Not(x: word): word { 0xFFFF_FFFF - x }

  function And(x: word, y: word): word { BitAnd(x, y) }

  function Or(x: word, y: word): word {
    BitOpsFit(x, y, 32);
    BitOr(x, y)
  }

  function Xor(x: word, y: word): word {
    BitOpsFit(x, y, 32);
    BitXor(x, y)
  }

  lemma Pow2Is32()
    ensures Pow2(16) == 0x1_0000 && Pow2(32) == 0x1_0000_0000
  {
    assert Pow2(8) == 0x100;
    assert Pow2(16) == 0x1_0000;
    assert Pow2(24) == 0x100_0000;
  }

  lemma Powers()
    ensures Pow2(0) == 1 && Pow2(1) == 2 && Pow2(2) == 4 && Pow2(3) == 8 && Pow2(5) == 32 && Pow2(6) == 64
    ensures Pow2(7) == 0x80 && Pow2(8) == 0x100 && Pow2(9) == 0x200 && Pow2(10) == 0x400 && Pow2(11) == 0x800
    ensures Pow2(12) == 0x1000 && Pow2(13) == 0x2000 && Pow2(14) == 0x4000 && Pow2(15) == 0x8000
    ensures Pow2(16) == 0x1_0000 && Pow2(24) == 0x100_0000 && Pow2(25) == 0x200_0000 && Pow2(26) == 0x400_0000
    ensures Pow2(32) == 0x1_0000_0000 && Pow2(34) == 0x4_0000_0000
    ensures Pow2(42) == 0x400_0000_0000 && Pow2(43) == 0x800_0000_0000
  {
    assert Pow2(20) == 0x10_0000;
    assert Pow2(30) == 0x4000_0000;
    assert Pow2(40) == 0x100_0000_0000;
  }

  lemma {:induction false} PowerFits(i: nat)
    requires i <= 32
    ensures Pow2(i) <= 0x1_0000_0000
    decreases 32 - i
  {
    if i < 32 { PowerFits(i + 1); } else { Pow2Is32(); }
  }

  lemma {:induction false} BitOpsFit(x: nat, y: nat, n: nat)
    requires n == 32 ==> x < 0x1_0000_0000 && y < 0x1_0000_0000
    requires n != 32 ==> x < Pow2(n) && y < Pow2(n)
    ensures BitOr(x, y) < Pow2(n) && BitXor(x, y) < Pow2(n)
    ensures n == 32 ==> BitOr(x, y) < 0x1_0000_0000 && BitXor(x, y) < 0x1_0000_0000
    decreases n
  {
    Pow2Is32();
    BitOpsBound(x, y, n);
  }

  lemma {:induction false} BitOpsBound(x: nat, y: nat, n: nat)
    requires x < Pow2(n) && y < Pow2(n)
    ensures BitOr(x, y) < Pow2(n) && BitXor(x, y) < Pow2(n)
    decreases n
  {
    if n > 0 && x > 0 {
      BitOpsBound(x / 2, y / 2, n - 1);
    }
  }

  lemma {:induction false} ZeroBits(i: nat)
    ensures !Bit(0, i)
  {
    if i > 0 { ZeroBits(i - 1); }
  }

  lemma {:induction false} NoBitsAbove(x: nat, n: nat, i: nat)
    requires x < Pow2(n) && i >= n
    ensures !Bit(x, i)
    decreases n
  {
    if n == 0 { ZeroBits(i); } else { NoBitsAbove(x / 2, n - 1, i - 1); }
  }

  lemma OneBit(b: bool, i: nat)
    ensures Bit(if b then 1 else 0, i) <==> b && i == 0
  {
    if i > 0 { ZeroBits(i - 1); }
  }

  lemma LowestBit(x: nat)
    ensures Bit(x, 0) <==> x % 2 == 1
  {
  }

  lemma BitAbove(x: nat, i: nat)
    requires i > 0
    ensures Bit(x, i) == Bit(x / 2, i - 1)
  {
  }

  /** BitOr by lowest bit and rest, whichever operand is zero. */
  lemma OrStep(x: nat, y: nat)
    ensures BitOr(x, y) / 2 == BitOr(x / 2, y / 2)
    ensures BitOr(x, y) % 2 == if x % 2 == 1 || y % 2 == 1 then 1 else 0
  {
    if x > 0 {
      var b := if x % 2 == 1 || y % 2 == 1 then 1 else 0;
      assert BitOr(x, y) == b + 2 * BitOr(x / 2, y / 2);
    }
  }

  lemma AndStep(x: nat, y: nat)
    ensures BitAnd(x, y) / 2 == BitAnd(x / 2, y / 2)
    ensures BitAnd(x, y) % 2 == if x % 2 == 1 && y % 2 == 1 then 1 else 0
  {
    if x > 0 {
      var b := if x % 2 == 1 && y % 2 == 1 then 1 else 0;
      assert BitAnd(x, y) == b + 2 * BitAnd(x / 2, y / 2);
    }
  }

  lemma {:induction false} BitsOfAnd(x: nat, y: nat, i: nat)
    ensures Bit(BitAnd(x, y), i) == (Bit(x, i) && Bit(y, i))
    decreases i
  {
    hide BitAnd;
    AndStep(x, y);
    if i > 0 { BitsOfAnd(x / 2, y / 2, i - 1); }
  }

  lemma {:induction false} BitsOfOr(x: nat, y: nat, i: nat)
    ensures Bit(BitOr(x, y), i) == (Bit(x, i) || Bit(y, i))
    decreases i
  {
    hide BitOr;
    OrStep(x, y);
    if i > 0 { BitsOfOr(x / 2, y / 2, i - 1); }
  }

  lemma XorStep(x: nat, y: nat)
    ensures BitXor(x, y) / 2 == BitXor(x / 2, y / 2)
    ensures BitXor(x, y) % 2 == if x % 2 != y % 2 then 1 else 0
  {
    if x > 0 {
      var b := if x % 2 != y % 2 then 1 else 0;
      assert BitXor(x, y) == b + 2 * BitXor(x / 2, y / 2);
    }
  }

  lemma {:induction false} BitsOfXor(x: nat, y: nat, i: nat)
    ensures Bit(BitXor(x, y), i) == (Bit(x, i) != Bit(y, i))
    decreases i
  {
    hide BitXor;
    XorStep(x, y);
    if i > 0 { BitsOfXor(x / 2, y / 2, i - 1); }
  }

  lemma {:induction false} XorItself(x: nat)
    ensures BitXor(x, x) == 0
  {
    if x > 0 { XorItself(x / 2); }
  }

  lemma {:induction false} BitsOfShr(x: nat, n: nat, i: nat)
    ensures Bit(Shr(x, n), i) == Bit(x, i + n)
    decreases n
  {
    if n > 0 { BitsOfShr(x / 2, n - 1, i); }
  }

  lemma {:induction false} ShrIsDiv(x: nat, n: nat)
    ensures x == Shr(x, n) * Pow2(n) + x % Pow2(n)
    ensures Shr(x, n) == x / Pow2(n)
    decreases n
  {
    if n > 0 {
      ShrIsDiv(x / 2, n - 1);
      var p, k, r := Pow2(n - 1), Shr(x / 2, n - 1), (x / 2) % Pow2(n - 1);
      TimesDouble(k, p);
      DivModUnique(x, 2 * p, k, 2 * r + x % 2);
    } else {
      assert Pow2(0) == 1;
    }
  }

  lemma DivModUnique(x: int, d: int, q: int, r: int)
    requires d > 0 && x == q * d + r && 0 <= r < d
    ensures x / d == q && x % d == r
  {
    var k, r' := q - x / d, x % d;
    assert k * d == r' - r;
    if k > 0 {
      MulAtLeast(k, d);
    } else if k < 0 {
      MulAtLeast(-k, d);
    }
  }

  lemma ModDouble(x: nat, p: nat)
    requires p > 0
    ensures x % (2 * p) == 2 * ((x / 2) % p) + x % 2
  {
    var k, r := (x / 2) / p, (x / 2) % p;
    assert x / 2 == k * p + r;
    TimesDouble(k, p);
    DivModUnique(x, 2 * p, k, 2 * r + x % 2);
  }

  lemma LowTwo(x: nat)
    ensures x % 4 == x % 2 + 2 * ((x / 2) % 2)
  {
    ModDouble(x, 2);
  }

  lemma MulAtLeast(k: int, d: int)
    requires k >= 1 && d >= 0
    ensures k * d >= d
  {
  }

  lemma SmallWrap(x: nat)
    requires x < 0x1_0000_0000
    ensures Wrap(x) == x
  {
  }

  lemma MulMonotone(x: int, y: int, p: int)
    requires x <= y && p >= 0
    ensures x * p <= y * p
  {
  }

  /** Reduction modulo 2^32 keeps the low 32 bits. */
  lemma {:induction false} BitsOfMod(x: nat, n: nat, i: nat)
    requires i < n
    ensures Bit(x % Pow2(n), i) == Bit(x, i)
    decreases i
  {
    var p := Pow2(n - 1);
    var k, r := x / (2 * p), x % (2 * p);
    assert x == k * (2 * p) + r;
    assert x / 2 == k * p + r / 2 && x % 2 == r % 2 by {
      assert x == 2 * (k * p) + r;
    }
    DivModUnique(x / 2, p, k, r / 2);
    if i > 0 { BitsOfMod(x / 2, n - 1, i - 1); }
  }

  lemma {:induction false} BitsOfShl(x: word, n: nat, i: nat)
    requires i < 32
    ensures Bit(Shl(x, n), i) == (i >= n && Bit(x, i - n))
    decreases n
  {
    if n > 0 {
      BitsOfShl(Wrap(2 * x), n - 1, i);
      if i >= n - 1 {
        Pow2Is32();
        BitsOfMod(2 * x, 32, i - (n - 1));
      }
    }
  }

  lemma {:induction false} BitsOfOnes(n: nat, i: nat)
    ensures Bit(Pow2(n) - 1, i) == (i < n)
    decreases n
  {
    if n == 0 {
      ZeroBits(i);
    } else {
      assert (Pow2(n) - 1) / 2 == Pow2(n - 1) - 1;
      if i > 0 { BitsOfOnes(n - 1, i - 1); }
    }
  }

  lemma {:induction false} BitsOfNot(x: word, i: nat)
    requires i < 32
    ensures Bit(Not(x), i) == !Bit(x, i)
  {
    Pow2Is32();
    BitsOfComplement(x, 32, i);
  }

  lemma {:induction false} BitsOfComplement(x: nat, n: nat, i: nat)
    requires x < Pow2(n) && i < n
    ensures Bit(Pow2(n) - 1 - x, i) == !Bit(x, i)
    decreases n
  {
    assert (Pow2(n) - 1 - x) / 2 == Pow2(n - 1) - 1 - x / 2;
    if i > 0 { BitsOfComplement(x / 2, n - 1, i - 1); }
  }

  /** Bit k by division. */
  lemma BitIsDigit(x: nat, k: nat)
    ensures Bit(x, k) <==> (x / Pow2(k)) % 2 == 1
  {
    BitsOfShr(x, k, 0);
    ShrIsDiv(x, k);
  }

  /** The bits of a field of n bits at bit k. */
  lemma BitsOfField(x: nat, k: nat, n: nat, i: nat)
    requires i < n
    ensures Bit((x / Pow2(k)) % Pow2(n), i) == Bit(x, k + i)
  {
    BitsOfShr(x, k, i);
    ShrIsDiv(x, k);
    BitsOfMod(x / Pow2(k), n, i);
  }

  /** Bits lo to hi - 1 are clear. */
  ghost predicate NoBits(x: nat, lo: nat, hi: nat) { forall i: nat :: lo <= i < hi ==> !Bit(x, i) }

  /** A number is a multiple of 2^n if and only if its low n bits are clear. */
  lemma NoLowBits(x: nat, n: nat)
    ensures x % Pow2(n) == 0 <==> NoBits(x, 0, n)
  {
    if x % Pow2(n) == 0 {
      forall i: nat | i < n ensures !Bit(x, i) {
        BitsOfMod(x, n, i);
        ZeroBits(i);
      }
    }
    if NoBits(x, 0, n) {
      forall i: nat | i < n ensures Bit(x % Pow2(n), i) == Bit(0, i) {
        BitsOfMod(x, n, i);
        ZeroBits(i);
      }
      SameBits(x % Pow2(n), 0, n);
    }
  }

  /** Words with the same 32 bits are the same word. */
  lemma {:induction false} SameBits(x: nat, y: nat, n: nat)
    requires x < Pow2(n) && y < Pow2(n)
    requires forall i: nat :: i < n ==> Bit(x, i) == Bit(y, i)
    ensures x == y
    decreases n
  {
    if n > 0 {
      assert Bit(x, 0) == Bit(y, 0);
      forall i: nat | i < n - 1 ensures Bit(x / 2, i) == Bit(y / 2, i) {
        assert Bit(x, i + 1) == Bit(y, i + 1);
      }
      SameBits(x / 2, y / 2, n - 1);
    }
  }

  /** ORing a field above bit k into a value below bit k adds them. */
  lemma {:induction false} OrDisjoint(x: nat, y: nat, k: nat)
    requires x < Pow2(k)
    ensures BitOr(x, y * Pow2(k)) == x + y * Pow2(k)
    decreases k
  {
    if x > 0 {
      var z := y * Pow2(k - 1);
      TimesDouble(y, Pow2(k - 1));
      OrDisjoint(x / 2, y, k - 1);
      OrEven(x, z);
    }
  }

  /** Multiplying by 2^k moves bits up by k. */
  lemma {:induction false} BitsOfMultiple(v: nat, k: nat, i: nat)
    ensures Bit(v * Pow2(k), i) == (i >= k && Bit(v, i - k))
    decreases k
  {
    if k > 0 {
      TimesDouble(v, Pow2(k - 1));
      var half := v * Pow2(k - 1);
      assert (2 * half) / 2 == half && (2 * half) % 2 == 0;
      if i > 0 { BitsOfMultiple(v, k - 1, i - 1); }
    }
  }

  /** A number from its low k bits and the rest. */
  lemma BitsOfSplit(high: nat, low: nat, k: nat, i: nat)
    requires low < Pow2(k)
    ensures Bit(low + high * Pow2(k), i) == if i < k then Bit(low, i) else Bit(high, i - k)
  {
    OrDisjoint(low, high, k);
    BitsOfOr(low, high * Pow2(k), i);
    BitsOfMultiple(high, k, i);
    hide Bit, BitOr;
    if i >= k { NoBitsAbove(low, k, i); }
  }

  lemma TimesDouble(y: int, p: int)
    ensures y * (2 * p) == 2 * (y * p)
  {
  }

  lemma OrEven(x: nat, z: nat)
    requires x > 0
    ensures BitOr(x, 2 * z) == x % 2 + 2 * BitOr(x / 2, z)
  {
    var y := 2 * z;
    assert y / 2 == z && y % 2 == 0;
    assert BitOr(x, y) == (if x % 2 == 1 || y % 2 == 1 then 1 else 0) + 2 * BitOr(x / 2, y / 2);
  }

  lemma {:induction false} OrCommutes(x: nat, y: nat)
    ensures BitOr(x, y) == BitOr(y, x)
    decreases x
  {
    if x > 0 {
      OrCommutes(x / 2, y / 2);
    } else {
      OrZero(y);
    }
  }

  lemma {:induction false} OrZero(y: nat)
    ensures BitOr(y, 0) == y
  {
    if y > 0 { OrZero(y / 2); }
  }

  lemma {:induction false} OrAssociates(x: nat, y: nat, z: nat)
    ensures BitOr(BitOr(x, y), z) == BitOr(x, BitOr(y, z))
    decreases x
  {
    if x > 0 {
      OrAssociates(x / 2, y / 2, z / 2);
      OrStep(x, y);
      OrStep(BitOr(x, y), z);
      OrStep(y, z);
      OrStep(x, BitOr(y, z));
      hide BitOr;
    }
  }
}
