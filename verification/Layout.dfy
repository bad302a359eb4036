/** Where the fields of microinstructions stand, as lcadmc.h lists them, what words
    assembled from fields hold, and that the emulator takes words apart accordingly. */
module Layout {
  import opened Words
  import opened MicroWord

  /** A field's lowest bit and width. */
  datatype Field = Field(pos: nat, width: nat)

  /** As one number, the way lcadmc.h writes it. */
  function Unpacked(field: nat): Field { Field(field / 64, field % 64) }

  const IR_OP := Field(43, 2)
  const IR_POPJ := Field(42, 1)
  const IR_A_SRC := Field(32, 10)
  const IR_M_SRC := Field(26, 6)
  const IR_A_MEM_DEST := Field(14, 12)
  const IR_OB := Field(12, 2)
  const IR_MF := Field(10, 2)
  const IR_ALUF := Field(2, 7)
  const IR_Q := Field(0, 2)
  const IR_DISP_LPC := Field(25, 1)
  const IR_DISP_ADVANCE := Field(24, 1)
  const IR_DISP_CONST := Field(32, 10)
  const IR_DISP_ADDR := Field(12, 11)
  const IR_DISP_BYTL := Field(5, 3)
  const IR_BYTL_1 := Field(5, 5)
  const IR_MROT := Field(0, 5)
  const IR_JUMP_ADDR := Field(12, 14)
  const IR_JUMP_COND := Field(0, 7)
  const IR_R := Field(9, 1)
  const IR_P := Field(8, 1)
  const IR_N := Field(7, 1)
  const IR_BYTE_FUNC := Field(12, 2)
  const DISP_R_BIT := Field(16, 1)
  const DISP_P_BIT := Field(15, 1)
  const DISP_N_BIT := Field(14, 1)

  /** The field of a word. */
  function Ldb(field: Field, w: nat): nat { (w / Pow2(field.pos)) % Pow2(field.width) }

  lemma BitsOfLdb(field: Field, w: nat, i: nat)
    requires i < field.width
    ensures Bit(Ldb(field, w), i) == Bit(w, field.pos + i)
  {
    BitsOfField(w, field.pos, field.width, i);
  }

  // ---------------------------------------------------------------------
  // Assembling

  /** ir_pair: a value cut to the field's width and moved to its position. */
  function IrPair(field: Field, val: nat): nat {
    (val % Pow2(field.width)) * Pow2(field.pos)
  }

  lemma PairBits(field: Field, val: nat, i: nat)
    ensures var at := field.pos;
            Bit(IrPair(field, val), i) == (at <= i < at + field.width && Bit(val, i - at))
  {
    var at, n := field.pos, field.width;
    var v := val % Pow2(n);
    hide Bit;
    if i < at {
      BitsOfMultiple(v, at, i);
    } else {
      BitsOfMultiple(v, at, i);
      if i - at < n { BitsOfMod(val, n, i - at); } else { NoBitsAbove(v, n, i - at); }
    }
  }

  datatype Pair = Pair(field: Field, val: nat)

  /** Pairs ORed together. */
  function OrPairs(ps: seq<Pair>): nat
    decreases |ps|
  {
    if ps == [] then 0 else BitOr(OrPairs(ps[..|ps| - 1]), IrPair(ps[|ps| - 1].field, ps[|ps| - 1].val))
  }

  /** Two fields share no bit. */
  predicate Apart(f: Field, g: Field) { f.pos + f.width <= g.pos || g.pos + g.width <= f.pos }

  /** No two of the pairs are for overlapping fields. */
  predicate AllApart(ps: seq<Pair>) {
    forall j, k :: 0 <= j < k < |ps| ==> Apart(ps[j].field, ps[k].field)
  }

  /** Each pair is for a field below the one before it. */
  predicate Stacked(ps: seq<Pair>) {
    forall k :: 0 < k < |ps| ==> ps[k].field.pos + ps[k].field.width <= ps[k - 1].field.pos
  }

  lemma StackedApart(ps: seq<Pair>)
    requires Stacked(ps)
    ensures AllApart(ps)
  {
    forall j, k | 0 <= j < k < |ps| ensures Apart(ps[j].field, ps[k].field) { Below(ps, j, k); }
  }

  lemma {:induction false} Below(ps: seq<Pair>, j: nat, k: nat)
    requires Stacked(ps) && j < k < |ps|
    ensures ps[k].field.pos + ps[k].field.width <= ps[j].field.pos
    decreases k
  {
    if j < k - 1 { Below(ps, j, k - 1); }
  }

  /** A field apart from all pairs is clear in the word. */
  lemma {:induction false} ClearOutside(ps: seq<Pair>, field: Field, i: nat)
    requires forall k :: 0 <= k < |ps| ==> Apart(ps[k].field, field)
    requires i < field.width
    ensures !Bit(OrPairs(ps), field.pos + i)
    decreases |ps|
  {
    if ps == [] {
      ZeroBits(field.pos + i);
    } else {
      var p := ps[|ps| - 1];
      ClearOutside(ps[..|ps| - 1], field, i);
      PairBits(p.field, p.val, field.pos + i);
      BitsOfOr(OrPairs(ps[..|ps| - 1]), IrPair(p.field, p.val), field.pos + i);
      hide Bit, BitOr, IrPair;
    }
  }

  lemma {:induction false} HeldBit(ps: seq<Pair>, k: nat, i: nat)
    requires AllApart(ps) && k < |ps| && i < ps[k].field.width
    ensures Bit(OrPairs(ps), ps[k].field.pos + i) == Bit(ps[k].val, i)
    decreases |ps|
  {
    var p, rest, at := ps[|ps| - 1], ps[..|ps| - 1], ps[k].field.pos + i;
    PairBits(p.field, p.val, at);
    BitsOfOr(OrPairs(rest), IrPair(p.field, p.val), at);
    hide Bit, BitOr, IrPair;
    if k == |ps| - 1 {
      ClearOutside(rest, p.field, i);
    } else {
      HeldBit(rest, k, i);
      assert Apart(ps[k].field, p.field);
    }
  }

  /** Whatever the order of the pairs, as long as their fields share no bit, each field
      of the word is the value it was given, cut to its width. */
  lemma LdbOfPairs(ps: seq<Pair>, k: nat)
    requires AllApart(ps) && k < |ps|
    ensures Ldb(ps[k].field, OrPairs(ps)) == ps[k].val % Pow2(ps[k].field.width)
  {
    var f, v, u := ps[k].field, ps[k].val, OrPairs(ps);
    forall i: nat | i < f.width ensures Bit(Ldb(f, u), i) == Bit(v % Pow2(f.width), i) {
      BitsOfLdb(f, u, i);
      HeldBit(ps, k, i);
      BitsOfMod(v, f.width, i);
    }
    hide Bit, OrPairs;
    SameBits(Ldb(f, u), v % Pow2(f.width), f.width);
  }

  /** And a field that was given none is 0. */
  lemma LdbOfNone(ps: seq<Pair>, field: Field)
    requires forall k :: 0 <= k < |ps| ==> Apart(ps[k].field, field)
    ensures Ldb(field, OrPairs(ps)) == 0
  {
    forall i: nat | i < field.width ensures Bit(Ldb(field, OrPairs(ps)), i) == Bit(0, i) {
      BitsOfLdb(field, OrPairs(ps), i);
      ClearOutside(ps, field, i);
      ZeroBits(i);
    }
    hide Bit, OrPairs;
    SameBits(Ldb(field, OrPairs(ps)), 0, field.width);
  }

  // ---------------------------------------------------------------------
  // What the emulator makes of a word

  /** The fields of every instruction. */
  lemma CommonFields(u: nat)
    ensures Op(u) == Ldb(IR_OP, u) && (PopJ(u) <==> Ldb(IR_POPJ, u) == 1)
    ensures ASrc(u) == Ldb(IR_A_SRC, u) && MSrc(u) == Ldb(IR_M_SRC, u) && Misc(u) == Ldb(IR_MF, u)
  {
    Powers();
    hide Pow2;
  }

  lemma AluFields(u: nat)
    ensures Dest(u) == Ldb(IR_A_MEM_DEST, u) && OutputBus(u) == Ldb(IR_OB, u) && QControl(u) == Ldb(IR_Q, u)
    ensures AluOp(u) == Ldb(IR_ALUF, u) / 2 && (CarryIn(u) <==> Ldb(IR_ALUF, u) % 2 == 1)
  {
    Powers();
    hide Pow2;
    var x, r := u / 4, (u / 4) % 128;
    assert x == 128 * (x / 128) + r;
    assert u / 8 == x / 2 == 64 * (x / 128) + r / 2;
  }

  /** The condition field holds the code in its low four bits, then says whether it is a
      code at all, and whether the sense is inverted. */
  lemma JumpFields(u: nat)
    ensures JumpTarget(u) == Ldb(IR_JUMP_ADDR, u)
    ensures (RBit(u) <==> Ldb(IR_R, u) == 1) && (PBit(u) <==> Ldb(IR_P, u) == 1) && (NBit(u) <==> Ldb(IR_N, u) == 1)
    ensures var c := Ldb(IR_JUMP_COND, u);
            Condition(u) == c % 16 && (ConditionCoded(u) <==> Bit(c, 5)) && (InvertSense(u) <==> Bit(c, 6))
  {
    Powers();
    hide Pow2;
    LowSeven(u);
  }

  lemma LowSeven(u: nat)
    ensures var c := u % 128;
            u % 16 == c % 16 && ((u / 32) % 2 == 1 <==> Bit(c, 5)) && ((u / 64) % 2 == 1 <==> Bit(c, 6))
  {
    Powers();
    BitIsDigit(u, 5);
    BitIsDigit(u, 6);
    BitsOfMod(u, 7, 5);
    BitsOfMod(u, 7, 6);
    hide Pow2, Bit;
    var k, c := u / 128, u % 128;
    DivModUnique(u, 16, 8 * k + c / 16, c % 16);
  }

  lemma DispatchFields(u: nat)
    ensures DispConst(u) == Ldb(IR_DISP_CONST, u) && DispAddr(u) == Ldb(IR_DISP_ADDR, u)
    ensures DispLength(u) == Ldb(IR_DISP_BYTL, u) && Rotation(u) == Ldb(IR_MROT, u)
    ensures (NPlus1(u) <==> Ldb(IR_DISP_LPC, u) == 1) && (AdvanceStream(u) <==> Ldb(IR_DISP_ADVANCE, u) == 1)
  {
    Powers();
    hide Pow2;
  }

  lemma ByteFields(u: nat)
    ensures ByteFunc(u) == Ldb(IR_BYTE_FUNC, u) && WidthM1(u) == Ldb(IR_BYTL_1, u) && Rotation(u) == Ldb(IR_MROT, u)
    ensures Dest(u) == Ldb(IR_A_MEM_DEST, u)
  {
    Powers();
    hide Pow2;
  }

  /** And of a dispatch table entry. */
  lemma EntryFields(e: nat)
    ensures EntryTarget(e) == Ldb(Field(0, 14), e) && (EntryN(e) <==> Ldb(DISP_N_BIT, e) == 1)
    ensures (EntryP(e) <==> Ldb(DISP_P_BIT, e) == 1) && (EntryR(e) <==> Ldb(DISP_R_BIT, e) == 1)
  {
    Powers();
    hide Pow2;
  }

  /** A no-operation has bits 0 to 46 clear, but for bit 12. */
  lemma NopBits(u: nat)
    ensures IsNop(u) <==> NoBits(u, 0, 12) && NoBits(u, 13, 47)
  {
    Powers();
    NoLowBits(u, 12);
    NoLowBits(u / 0x2000, 34);
    UpperClear(u);
    hide Pow2, NoBits;
  }

  lemma UpperClear(u: nat)
    ensures NoBits(u / 0x2000, 0, 34) <==> NoBits(u, 13, 47)
  {
    Powers();
    hide Pow2;
    forall i: nat ensures Bit(u / 0x2000, i) == Bit(u, 13 + i) {
      BitsOfShr(u, 13, i);
      ShrIsDiv(u, 13);
    }
    hide Bit;
    if NoBits(u / 0x2000, 0, 34) {
      forall i: nat | 13 <= i < 47 ensures !Bit(u, i) {
        assert Bit(u / 0x2000, i - 13) == Bit(u, 13 + (i - 13));
      }
    }
  }
}
