/** What a jump and a dispatch are decided by, and where the instruction stream's position
    comes from, told bit by bit from the words themselves. */
module Decisions {
  import opened Words
  import opened Mem
  import opened MicroWord
  import opened Cpu
  import opened Layout
  import Alu
  import ByteUnit

  // ---------------------------------------------------------------------
  // Jump conditions

  /** M is below A as a signed word. */
  predicate Below(m: word, a: word) { if Bit(m, 31) == Bit(a, 31) then m < a else Bit(m, 31) }

  lemma SignedOrder(m: word, a: word)
    ensures Signed(m) < Signed(a) <==> Below(m, a)
    ensures Signed(m) <= Signed(a) <==> Below(m, a) || m == a
  {
    Alu.SignBit(m);
    Alu.SignBit(a);
    hide Bit;
  }

  /** An interrupt is enabled, by bit 27 of interrupt control, and pending. */
  predicate InterruptDue(s: State) {
    Bit(s.ctl.interruptControl, 27) && (Bit(s.ctl.interruptStatus, 14) || Bit(s.ctl.interruptStatus, 15))
  }

  lemma InterruptBits(s: State)
    ensures InterruptEnabled(s) && InterruptPending(s) <==> InterruptDue(s)
  {
    Powers();
    BitIsDigit(s.ctl.interruptControl, 27);
    assert Pow2(27) == 2 * Pow2(26);
    StatusBits(s.ctl.interruptStatus);
    hide Bit, Pow2;
  }

  lemma StatusBits(status: word)
    ensures (status / 0x4000) % 4 != 0 <==> Bit(status, 14) || Bit(status, 15)
  {
    Powers();
    hide *;
    BitsOfField(status, 14, 2, 0);
    BitsOfField(status, 14, 2, 1);
    assert (status / Pow2(14)) % Pow2(2) == (status / 0x4000) % 4;
    BelowFour((status / 0x4000) % 4);
  }

  /** What the sixteen codes mean. The sequence break that 6 asks for is not looked at. */
  predicate Holds(s: State, code: nat, m: word, a: word) {
    match code
    case 1 => Below(m, a)
    case 2 => Below(m, a) || m == a
    case 3 => m == a
    case 4 => s.bus.pageFault
    case 5 => s.bus.pageFault || InterruptDue(s)
    case 6 => s.bus.pageFault || InterruptDue(s)
    case 7 => true
    case _ => false
  }

  lemma FlagsHold(s: State, withBreak: bool)
    ensures AsChar(JumpFlags(s, withBreak)) != 0 <==> s.bus.pageFault || InterruptDue(s)
  {
    InterruptBits(s);
    hide InterruptEnabled, InterruptPending, InterruptDue;
    var low := BitOr(Flag(s.bus.pageFault, 1), if InterruptEnabled(s) && InterruptPending(s) then 1 else 0);
    assert low <= 1 && (low == 1 <==> s.bus.pageFault || (InterruptEnabled(s) && InterruptPending(s)));
    if withBreak && SequenceBreak(s) {
      Powers();
      assert low < Pow2(26);
      OrDisjoint(low, 1, 26);
      assert 1 * Pow2(26) == 0x400_0000;
    } else {
      OrZero(low);
    }
    hide BitOr, Pow2;
  }

  lemma ConditionMeans(s: State, code: nat, m: word, a: word)
    ensures ConditionHolds(s, code, m, a) <==> Holds(s, code, m, a)
  {
    SignedOrder(m, a);
    FlagsHold(s, false);
    FlagsHold(s, true);
    hide Signed, Below, InterruptDue, JumpFlags;
  }

  /** A jump is taken when its condition, or for a bit jump the M source's bit that the
      rotation brings to the bottom, differs from bit 6 of the instruction. */
  lemma JumpTakenIff(s: State, u: nat, m: word, a: word)
    ensures TakeJump(s, u, m, a) <==>
              (if Bit(u, 5) then Holds(s, u % 16, m, a) else Bit(m, (32 - u % 32) % 32)) != Bit(u, 6)
  {
    ConditionBits(u);
    if !Bit(u, 5) { BitJump(u, m); }
    ConditionMeans(s, u % 16, m, a);
    hide ConditionHolds, Holds, ConditionCoded, InvertSense, JumpM, Bit;
  }

  lemma ConditionBits(u: nat)
    ensures ConditionCoded(u) == Bit(u, 5) && InvertSense(u) == Bit(u, 6)
  {
    Powers();
    BitIsDigit(u, 5);
    BitIsDigit(u, 6);
    hide Bit, Pow2;
  }

  lemma BitJump(u: nat, m: word)
    requires !ConditionCoded(u)
    ensures JumpM(u, m) % 2 == 1 <==> Bit(m, (32 - u % 32) % 32)
  {
    var r := Rotation(u);
    var x := ByteUnit.RotateLeft(m, r);
    assert JumpM(u, m) == x && r == u % 32;
    hide *;
    ByteUnit.RotateBits(m, r, 0);
    LowestBit(x);
    Turned(0, r);
  }

  // The conditions by the names lcadmc.h gives them (octal in comments).
  const M_LT_A := 0x21              // 041
  const M_LE_A := 0x22
  const M_EQ_A := 0x23
  const PAGE_FAULT := 0x24
  const PAGE_FAULT_OR_INTERRUPT := 0x25
  const PAGE_FAULT_OR_INTERRUPT_OR_SEQUENCE_BREAK := 0x26
  const UNC := 0x27
  const M_GE_A := 0x61              // 0141
  const M_GT_A := 0x62
  const M_NEQ_A := 0x63
  const NO_PAGE_FAULT := 0x64

  predicate Named(s: State, cond: nat, m: word, a: word) {
    match cond
    case 0x21 => Signed(m) < Signed(a)
    case 0x22 => Signed(m) <= Signed(a)
    case 0x23 => m == a
    case 0x24 => s.bus.pageFault
    case 0x25 => s.bus.pageFault || InterruptDue(s)
    case 0x26 => s.bus.pageFault || InterruptDue(s)
    case 0x61 => Signed(m) >= Signed(a)
    case 0x62 => Signed(m) > Signed(a)
    case 0x63 => m != a
    case 0x64 => !s.bus.pageFault
    case _ => true
  }

  /** A jump whose condition field is one of these is taken just when its name says, but
      for the sequence break. */
  lemma NamedConditions(s: State, u: nat, m: word, a: word)
    requires Ldb(IR_JUMP_COND, u) in
               {M_LT_A, M_LE_A, M_EQ_A, PAGE_FAULT, PAGE_FAULT_OR_INTERRUPT, PAGE_FAULT_OR_INTERRUPT_OR_SEQUENCE_BREAK,
                UNC, M_GE_A, M_GT_A, M_NEQ_A, NO_PAGE_FAULT}
    ensures TakeJump(s, u, m, a) <==> Named(s, Ldb(IR_JUMP_COND, u), m, a)
  {
    var c := Ldb(IR_JUMP_COND, u);
    JumpFields(u);
    CodeParts(c);
    SignedOrder(m, a);
    ConditionMeans(s, Condition(u), m, a);
    hide Bit, Ldb, Signed, Below, InterruptDue, ConditionHolds, Condition, ConditionCoded, InvertSense;
  }

  lemma CodeParts(c: nat)
    requires 0x21 <= c <= 0x27 || 0x61 <= c <= 0x64
    ensures Bit(c, 5) && (Bit(c, 6) <==> c >= 0x61) && c % 16 == if c >= 0x61 then c - 0x60 else c - 0x20
  {
    LowSeven(c);
    hide Bit;
  }

  // ---------------------------------------------------------------------
  // The word a jump with P and R stores

  lemma StoredBits(u: nat, m: word, a: word, i: nat)
    ensures Bit((a % 0x1_0000) * 0x1_0000_0000 + JumpM(u, m), i) ==
              if i < 32 then Bit(if Bit(u, 5) then m else ByteUnit.RotateLeft(m, u % 32), i)
              else i < 48 && Bit(a, i - 32)
  {
    Powers();
    ConditionBits(u);
    BitsOfSplit(a % 0x1_0000, JumpM(u, m), 32, i);
    if 32 <= i < 48 { BitsOfMod(a, 16, i - 32); }
    if i >= 48 { NoBitsAbove(a % 0x1_0000, 16, i - 32); }
    hide Bit, Pow2, ByteUnit.RotateLeft, ConditionCoded;
  }

  // ---------------------------------------------------------------------
  // The dispatch table index

  /** The map bit that a dispatch ORs into its index: bit 18 or 19 of MD's map entry, as
      bits 8 and 9 of the instruction ask. */
  predicate MapBit(s: State, u: nat) {
    (Bit(u, 8) && Bit(Entry(s.mem, s.bus.md), 18)) || (Bit(u, 9) && Bit(Entry(s.mem, s.bus.md), 19))
  }

  lemma MapBitValue(s: State, u: nat)
    ensures var entry := Entry(s.mem, s.bus.md);
            var bit18, bit19 := (entry / 0x4_0000) % 2, (entry / 0x8_0000) % 2;
            var bits := match DispMap(u)
              case 0 => 0
              case 1 => bit18
              case 2 => bit19
              case _ => BitOr(bit18, bit19);
            bits == if MapBit(s, u) then 1 else 0
  {
    var entry := Entry(s.mem, s.bus.md);
    MapDigits(entry);
    TwoDigits(u);
    hide Bit, Entry;
  }

  lemma MapDigits(entry: word)
    ensures (Bit(entry, 18) <==> (entry / 0x4_0000) % 2 == 1) && (Bit(entry, 19) <==> (entry / 0x8_0000) % 2 == 1)
  {
    Powers();
    BitIsDigit(entry, 18);
    BitIsDigit(entry, 19);
    assert Pow2(18) == 0x4_0000 && Pow2(19) == 0x8_0000;
    hide Bit, Pow2;
  }

  lemma TwoDigits(u: nat)
    ensures DispMap(u) == (if Bit(u, 8) then 1 else 0) + 2 * (if Bit(u, 9) then 1 else 0)
  {
    Powers();
    BitsOfField(u, 8, 2, 0);
    BitsOfField(u, 8, 2, 1);
    hide Pow2, DispMap;
    assert DispMap(u) == (u / 0x100) % 4 by { DispMapIs(u); }
    BelowFour(DispMap(u));
    hide Bit;
  }

  lemma DispMapIs(u: nat)
    ensures DispMap(u) == (u / 0x100) % 4 < 4
  {
  }

  lemma BelowFour(d: nat)
    requires d < 4
    ensures d == (if Bit(d, 0) then 1 else 0) + 2 * (if Bit(d, 1) then 1 else 0)
  {
  }

  /** The mask of a field of n bits. */
  lemma FieldMask(n: nat, i: nat)
    requires n < 8 && i < 32
    ensures var mask: word := if n == 0 then 0 else Shr(0xFFFF_FFFF, 32 - n);
            Bit(mask, i) <==> i < n
  {
    if n == 0 {
      ZeroBits(i);
    } else {
      BitsOfShr(0xFFFF_FFFF, 32 - n, i);
      ByteUnit.OnesBits(i + (32 - n));
    }
    hide Bit, Shr;
  }

  /** Bit i of the index of the table entry a dispatch reads is set by the address in the
      instruction, by the M source's field, or, for bit 0, by the map. */
  lemma DispatchReads(s: State, u: nat, m: word, i: nat)
    requires i < 11
    ensures Bit(DispatchIndex(s, u, m), i) <==>
              || Bit(u, 12 + i)
              || (i < DispLength(u) && Bit(m, (i + 32 - Position(s, u)) % 32))
              || (i == 0 && MapBit(s, u))
  {
    var n, rot := DispLength(u), ByteUnit.RotateLeft(m, Position(s, u));
    var mask: word := if n == 0 then 0 else Shr(0xFFFF_FFFF, 32 - n);
    var addr, bits := DispAddr(u), if MapBit(s, u) then 1 else 0;
    assert n < 8;
    hide *;
    IndexIs(s, u, m, mask);
    FieldMask(n, i);
    BitsOfField(u, 12, 11, i);
    OneBit(MapBit(s, u), i);
    ByteUnit.RotateBits(m, Position(s, u), i);
    BitsOfMod(BitOr(BitOr(addr, And(rot, mask)), bits), 11, i);
    IndexBits(addr, rot, mask, bits, i);
    Turned(i, Position(s, u));
  }

  lemma Turned(i: nat, n: nat)
    requires i < 32 && n < 32
    ensures (i + 32 - n) % 32 == if i >= n then i - n else i + 32 - n
  {
  }

  lemma IndexBits(addr: nat, rot: word, mask: word, bits: nat, i: nat)
    ensures Bit(BitOr(BitOr(addr, And(rot, mask)), bits), i) <==>
              Bit(addr, i) || (Bit(rot, i) && Bit(mask, i)) || Bit(bits, i)
  {
    BitsOfOr(BitOr(addr, And(rot, mask)), bits, i);
    BitsOfOr(addr, And(rot, mask), i);
    BitsOfAnd(rot, mask, i);
    hide Bit, BitOr, BitAnd;
  }

  lemma IndexIs(s: State, u: nat, m: word, mask: word)
    requires mask == if DispLength(u) == 0 then 0 else Shr(0xFFFF_FFFF, 32 - DispLength(u))
    ensures DispatchIndex(s, u, m)
         == BitOr(BitOr(DispAddr(u), And(ByteUnit.RotateLeft(m, Position(s, u)), mask)),
                  if MapBit(s, u) then 1 else 0) % Pow2(11)
    ensures DispAddr(u) == (u / Pow2(12)) % Pow2(11)
  {
    Powers();
    MapBitValue(s, u);
    hide BitOr, BitAnd, Shr, Pow2, MapBit, DispMap, Position, Entry, ByteUnit.RotateLeft;
  }

  // ---------------------------------------------------------------------
  // Positions

  /** Bit i of a field position: from the instruction, and with misc function 3 changed by
      the low bits of the location counter. */
  lemma PositionBits(s: State, u: nat, i: nat)
    requires i < 5
    ensures Bit(Position(s, u), i) ==
              if Misc(u) != 3 || i < 3 then Bit(u, i)
              else if ByteMode(s) then
                if i == 3 then Bit(u, 3) != Bit(s.ctl.lc, 0)
                else Bit(u, 4) != (Bit(s.ctl.lc, 1) != Bit(s.ctl.lc, 0))
              else if i == 3 then Bit(u, 3) else Bit(u, 4) == Bit(s.ctl.lc, 1)
  {
    if Misc(u) != 3 {
      Powers();
      BitsOfMod(u, 5, i);
      hide Bit, Pow2;
    } else if ByteMode(s) {
      ByteModeBits(s, u, i);
    } else {
      HalfwordBits(s, u, i);
    }
    hide Bit, Position, ByteMode;
  }

  lemma LowDigits(u: nat, lc: nat)
    ensures (Bit(u, 3) <==> (u / 8) % 2 == 1) && (Bit(u, 4) <==> (u / 16) % 2 == 1)
    ensures (Bit(lc, 0) <==> lc % 2 == 1) && (Bit(lc, 1) <==> (lc / 2) % 2 == 1)
  {
    Powers();
    BitIsDigit(u, 3);
    BitIsDigit(u, 4);
    BitIsDigit(lc, 1);
    assert Pow2(4) == 16;
    hide Pow2;
  }

  lemma ByteModeBits(s: State, u: nat, i: nat)
    requires Misc(u) == 3 && ByteMode(s) && i < 5
    ensures Bit(Position(s, u), i) == if i < 3 then Bit(u, i)
                                      else if i == 3 then Bit(u, 3) != Bit(s.ctl.lc, 0)
                                      else Bit(u, 4) != (Bit(s.ctl.lc, 1) != Bit(s.ctl.lc, 0))
  {
    hide *;
    var lc := s.ctl.lc;
    var b4, b3 := ((u / 16) % 2 + (lc / 2) % 2 + lc % 2) % 2, ((u / 8) % 2 + lc % 2) % 2;
    BytePositionIs(s, u, b3, b4);
    LowDigits(u, lc);
    Parity((u / 16) % 2, (lc / 2) % 2, lc % 2);
    Parity((u / 8) % 2, 0, lc % 2);
    Powers();
    BitsOfSplit(b3 + 2 * b4, u % 8, 3, i);
    if i < 3 { BitsOfMod(u, 3, i); } else { TwoBits(b3, b4, i - 3); }
  }

  lemma BytePositionIs(s: State, u: nat, b3: nat, b4: nat)
    requires Misc(u) == 3 && ByteMode(s)
    requires b4 == ((u / 16) % 2 + (s.ctl.lc / 2) % 2 + s.ctl.lc % 2) % 2 && b3 == ((u / 8) % 2 + s.ctl.lc % 2) % 2
    ensures Position(s, u) == u % 8 + (b3 + 2 * b4) * 8
  {
    hide ByteMode, Misc;
  }

  lemma Parity(x: nat, y: nat, z: nat)
    requires x < 2 && y < 2 && z < 2
    ensures (x + y + z) % 2 == 1 <==> (x == 1) != ((y == 1) != (z == 1))
  {
  }

  lemma TwoBits(b0: nat, b1: nat, i: nat)
    requires b0 < 2 && b1 < 2 && i < 2
    ensures Bit(b0 + 2 * b1, i) <==> (if i == 0 then b0 else b1) == 1
  {
  }

  lemma HalfwordBits(s: State, u: nat, i: nat)
    requires Misc(u) == 3 && !ByteMode(s) && i < 5
    ensures Bit(Position(s, u), i) == if i < 4 then Bit(u, i) else Bit(u, 4) == Bit(s.ctl.lc, 1)
  {
    var b := if (u / 16) % 2 == (s.ctl.lc / 2) % 2 then 1 else 0;
    assert Position(s, u) == u % 16 + b * 16;
    hide Position, ByteMode, Misc;
    LowDigits(u, s.ctl.lc);
    Powers();
    assert Pow2(4) == 16;
    hide Pow2;
    BitsOfSplit(b, u % 16, 4, i);
    if i < 4 { BitsOfMod(u, 4, i); }
  }

  /** In byte mode, position 0 and misc function 3 bring byte lc mod 4 of the M source to
      the bottom. */
  lemma ByteSelects(s: State, u: nat, m: word, i: nat)
    requires Misc(u) == 3 && Rotation(u) == 0 && ByteMode(s) && i < 8
    ensures Bit(ByteUnit.RotateLeft(m, Position(s, u)), i) == Bit(m, 8 * (s.ctl.lc % 4) + i)
  {
    BytePosition(s, u);
    ByteUnit.RotateBits(m, Position(s, u), i);
    hide Bit, Position, ByteUnit.RotateLeft;
  }

  lemma BytePosition(s: State, u: nat)
    requires Misc(u) == 3 && Rotation(u) == 0 && ByteMode(s)
    ensures Position(s, u) == if s.ctl.lc % 4 == 0 then 0 else 32 - 8 * (s.ctl.lc % 4)
  {
    var k, lc := u / 32, s.ctl.lc;
    assert u == 32 * k;
    DivModUnique(u, 8, 4 * k, 0);
    DivModUnique(u, 16, 2 * k, 0);
    LowTwo(lc);
    hide ByteMode, Misc;
  }
}
