/** Microinstructions assembled from field/value pairs, and what the console's writes
    and reads of A memory do when executed. */
module Microcode {
  import opened Words
  import opened MicroWord
  import opened Cpu
  import opened Layout
  import Alu

  const M_SRC_MD := 42
  const A_MEM_DEST_INDICATOR := 2048
  const ALU_SETM := 6
  const ALU_SETA := 10

  /** Ones in the low `wid` bits of a 32-bit word. */
  function Ones(wid: nat): nat { Pow2(if wid < 32 then wid else 32) - 1 }

  /** bitmask: built one bit at a time. */
  method Bitmask(wid: nat) returns (m: word)
    ensures m == Ones(wid)
  {
    m := 0;
    for i := 0 to wid
      invariant m == Ones(i)
    {
      ShiftOnes(m, i);
      m := Wrap(2 * m);
      m := Or(m, 1);
    }
  }

  lemma ShiftOnes(m: word, i: nat)
    requires m == Ones(i)
    ensures Or(Wrap(2 * m), 1) == Ones(i + 1)
  {
    hide Pow2, Ones, BitOr;
    DoubledOnes(m, i);
    OrOne(Wrap(2 * m));
  }

  lemma DoubledOnes(m: word, i: nat)
    requires m == Ones(i)
    ensures Wrap(2 * m) % 2 == 0 && Wrap(2 * m) + 1 == Ones(i + 1)
  {
    Pow2Is32();
    if i < 32 {
      PowerFits(i + 1);
      var p := Pow2(i);
      assert Ones(i + 1) == 2 * p - 1 && m == p - 1 && 2 * p <= 0x1_0000_0000;
      hide Pow2, Ones;
      DoubleFits(p);
    } else {
      assert m == 0xFFFF_FFFF == Ones(i + 1);
      hide Pow2, Ones;
      assert Wrap(2 * m) == 0xFFFF_FFFE;
    }
  }

  lemma DoubleFits(p: nat)
    requires p >= 1 && 2 * p <= 0x1_0000_0000
    ensures Wrap(2 * (p - 1)) == 2 * p - 2
  {
  }

  lemma OrOne(y: nat)
    requires y % 2 == 0
    ensures BitOr(y, 1) == y + 1
  {
    OrZero(y / 2);
  }

  /** ir_pair as the console computes it, masking with bitmask and shifting. */
  method AssemblePair(field: nat, val: word) returns (ir: nat)
    requires field % 64 <= 32
    ensures ir == IrPair(Unpacked(field), val)
  {
    var width := field % 64;
    var mask := Bitmask(width);
    MaskIsMod(val, width);
    var v := And(val, mask);
    ir := v * Pow2(field / 64);
  }

  lemma MaskIsMod(v: word, width: nat)
    requires width <= 32
    ensures BitAnd(v, Ones(width)) == v % Pow2(width)
  {
    MaskIsModPow(v, width);
  }

  lemma {:induction false} MaskIsModPow(v: nat, n: nat)
    ensures BitAnd(v, Pow2(n) - 1) == v % Pow2(n)
    decreases n
  {
    if n == 0 {
      if v > 0 { AndZero(v); }
    } else {
      var p := Pow2(n - 1);
      MaskIsModPow(v / 2, n - 1);
      ModDouble(v, p);
      AndOdd(v, p - 1);
    }
  }

  lemma AndOdd(v: nat, h: nat)
    ensures BitAnd(v, 2 * h + 1) == v % 2 + 2 * BitAnd(v / 2, h)
  {
    var y := 2 * h + 1;
    assert y / 2 == h && y % 2 == 1;
  }

  lemma {:induction false} AndZero(x: nat)
    ensures BitAnd(x, 0) == 0
  {
    if x > 0 { AndZero(x / 2); }
  }

  // ---------------------------------------------------------------------
  // Assembling ALU instructions

  /** Values of the fields of an ALU instruction. */
  datatype Fields = Fields(aSrc: nat, mSrc: nat, dest: nat, ob: nat, aluf: nat, q: nat)

  predicate Fit(f: Fields) {
    f.aSrc < 1024 && f.mSrc < 64 && f.dest < 4096 && f.ob < 4 && f.aluf < 128 && f.q < 4
  }

  /** The pairs of an ALU instruction ORed together, low fields first. */
  function Assemble(f: Fields): nat {
    BitOr(BitOr(BitOr(BitOr(BitOr(
      IrPair(IR_Q, f.q), IrPair(IR_ALUF, f.aluf)), IrPair(IR_OB, f.ob)),
      IrPair(IR_A_MEM_DEST, f.dest)), IrPair(IR_M_SRC, f.mSrc)), IrPair(IR_A_SRC, f.aSrc))
  }

  lemma PairValues(f: Fields)
    requires Fit(f)
    ensures IrPair(IR_Q, f.q) == f.q && IrPair(IR_ALUF, f.aluf) == f.aluf * Pow2(2)
    ensures IrPair(IR_OB, f.ob) == f.ob * Pow2(12) && IrPair(IR_A_MEM_DEST, f.dest) == f.dest * Pow2(14)
    ensures IrPair(IR_M_SRC, f.mSrc) == f.mSrc * Pow2(26) && IrPair(IR_A_SRC, f.aSrc) == f.aSrc * Pow2(32)
    ensures Pow2(2) == 4 && Pow2(12) == 0x1000 && Pow2(14) == 0x4000
         && Pow2(26) == 0x400_0000 && Pow2(32) == 0x1_0000_0000
  {
    Powers();
    hide Pow2;
  }

  /** Disjoint fields ORed are fields added. */
  lemma AssembleAdds(f: Fields)
    requires Fit(f)
    ensures Assemble(f) == f.q + 4 * f.aluf + 0x1000 * f.ob + 0x4000 * f.dest
                           + 0x400_0000 * f.mSrc + 0x1_0000_0000 * f.aSrc
  {
    hide IrPair, BitOr;
    PairValues(f);
    hide Pow2;
    OrDisjoint(f.q, f.aluf, 2);
    OrDisjoint(f.q + 4 * f.aluf, f.ob, 12);
    OrDisjoint(f.q + 4 * f.aluf + 0x1000 * f.ob, f.dest, 14);
    OrDisjoint(f.q + 4 * f.aluf + 0x1000 * f.ob + 0x4000 * f.dest, f.mSrc, 26);
    OrDisjoint(f.q + 4 * f.aluf + 0x1000 * f.ob + 0x4000 * f.dest + 0x400_0000 * f.mSrc, f.aSrc, 32);
  }

  // ---------------------------------------------------------------------
  // Decoding assembled instructions

  function AluPairs(f: Fields): seq<Pair> {
    [Pair(IR_Q, f.q), Pair(IR_ALUF, f.aluf), Pair(IR_OB, f.ob), Pair(IR_A_MEM_DEST, f.dest),
     Pair(IR_M_SRC, f.mSrc), Pair(IR_A_SRC, f.aSrc)]
  }

  lemma AluApart(f: Fields)
    ensures AllApart(AluPairs(f))
  {
  }

  lemma OrPairsTo(ps: seq<Pair>, k: nat)
    requires 0 < k <= |ps|
    ensures OrPairs(ps[..k]) == BitOr(OrPairs(ps[..k - 1]), IrPair(ps[k - 1].field, ps[k - 1].val))
  {
    assert ps[..k][..k - 1] == ps[..k - 1];
  }

  lemma AssembleIsPairs(f: Fields)
    ensures Assemble(f) == OrPairs(AluPairs(f))
  {
    hide IrPair;
    var ps := AluPairs(f);
    assert OrPairs(ps[..0]) == 0;
    assert BitOr(0, IrPair(IR_Q, f.q)) == IrPair(IR_Q, f.q);
    hide BitOr, OrPairs;
    OrPairsTo(ps, 1);
    OrPairsTo(ps, 2);
    OrPairsTo(ps, 3);
    OrPairsTo(ps, 4);
    OrPairsTo(ps, 5);
    OrPairsTo(ps, 6);
    assert ps[..6] == ps;
  }

  /** A value that fits its field stands in an assembled word. */
  lemma Held(ps: seq<Pair>, k: nat, field: Field, val: nat)
    requires AllApart(ps) && k < |ps| && ps[k] == Pair(field, val) && val < Pow2(field.width)
    ensures Ldb(field, OrPairs(ps)) == val
  {
    LdbOfPairs(ps, k);
    hide *;
    SmallMod(val, Pow2(field.width));
  }

  lemma SmallMod(x: nat, p: nat)
    requires x < p
    ensures x % p == x
  {
  }

  /** The emulator decodes an assembled word to the fields it was assembled from. */
  lemma DecodeAssembled(f: Fields)
    requires Fit(f)
    ensures var u := Assemble(f);
            && ASrc(u) == f.aSrc && MSrc(u) == f.mSrc && Dest(u) == f.dest
            && OutputBus(u) == f.ob && AluOp(u) == f.aluf / 2 && (CarryIn(u) <==> f.aluf % 2 == 1)
            && QControl(u) == f.q && Op(u) == OP_ALU && !PopJ(u)
            && (IsNop(u) ==> f.aluf == 0 && f.mSrc == 0)
  {
    var u, ps := Assemble(f), AluPairs(f);
    AssembleIsPairs(f);
    AluHeld(f);
    CommonFields(u);
    AluFields(u);
    if IsNop(u) { NopFields(u); }
    hide Assemble, OrPairs, Ldb, AluPairs, IsNop, Op, PopJ, ASrc, MSrc, Dest, OutputBus, CarryIn, AluOp, QControl;
  }

  lemma AluHeld(f: Fields)
    requires Fit(f)
    ensures var u := OrPairs(AluPairs(f));
            && Ldb(IR_Q, u) == f.q && Ldb(IR_ALUF, u) == f.aluf && Ldb(IR_OB, u) == f.ob
            && Ldb(IR_A_MEM_DEST, u) == f.dest && Ldb(IR_M_SRC, u) == f.mSrc && Ldb(IR_A_SRC, u) == f.aSrc
            && Ldb(IR_OP, u) == 0 && Ldb(IR_POPJ, u) == 0
  {
    Powers();
    var ps := AluPairs(f);
    hide Pow2, Ldb, OrPairs;
    AluApart(f);
    hide AllApart;
    Held(ps, 0, IR_Q, f.q);
    Held(ps, 1, IR_ALUF, f.aluf);
    Held(ps, 2, IR_OB, f.ob);
    Held(ps, 3, IR_A_MEM_DEST, f.dest);
    Held(ps, 4, IR_M_SRC, f.mSrc);
    Held(ps, 5, IR_A_SRC, f.aSrc);
    LdbOfNone(ps, IR_OP);
    LdbOfNone(ps, IR_POPJ);
  }

  lemma NopFields(u: nat)
    requires IsNop(u)
    ensures Ldb(IR_ALUF, u) == 0 && Ldb(IR_M_SRC, u) == 0
  {
    NopReadsM0(u);
    CommonFields(u);
    Powers();
    hide Pow2, Op, PopJ, ASrc, MSrc, Misc;
    LowTwelve(u, u / 0x1000);
  }

  lemma LowTwelve(u: nat, k: nat)
    requires u == 0x1000 * k
    ensures (u / 4) % 128 == 0
  {
    DivModUnique(u, 4, 0x400 * k, 0);
    DivModUnique(0x400 * k, 128, 8 * k, 0);
  }

  /** Values of the fields of a JUMP instruction; `cond` is the code, the flag that it is
      one and the inversion, as the console writes them. */
  datatype JumpWord = JumpWord(aSrc: nat, mSrc: nat, target: nat, r: nat, p: nat, n: nat, cond: nat)

  function JumpPairs(f: JumpWord): seq<Pair> {
    [Pair(IR_OP, OP_JUMP), Pair(IR_A_SRC, f.aSrc), Pair(IR_M_SRC, f.mSrc), Pair(IR_JUMP_ADDR, f.target),
     Pair(IR_R, f.r), Pair(IR_P, f.p), Pair(IR_N, f.n), Pair(IR_JUMP_COND, f.cond)]
  }

  lemma JumpApart(f: JumpWord)
    ensures AllApart(JumpPairs(f))
  {
    StackedApart(JumpPairs(f));
    hide AllApart;
  }

  lemma DecodeJump(f: JumpWord)
    requires f.aSrc < 1024 && f.mSrc < 64 && f.target < 0x4000 && f.r < 2 && f.p < 2 && f.n < 2 && f.cond < 128
    ensures var u := OrPairs(JumpPairs(f));
            && Op(u) == OP_JUMP && !PopJ(u) && ASrc(u) == f.aSrc && MSrc(u) == f.mSrc && Misc(u) == 0
            && JumpTarget(u) == f.target && (RBit(u) <==> f.r == 1) && (PBit(u) <==> f.p == 1)
            && (NBit(u) <==> f.n == 1) && Condition(u) == f.cond % 16
            && (ConditionCoded(u) <==> (f.cond / 32) % 2 == 1) && (InvertSense(u) <==> f.cond / 64 == 1)
  {
    var u := OrPairs(JumpPairs(f));
    JumpHeld(f);
    CommonFields(u);
    JumpFields(u);
    CondBits(f.cond);
    hide Ldb, OrPairs, JumpPairs, Bit, Op, PopJ, ASrc, MSrc, Misc, JumpTarget, RBit, PBit, NBit, Condition, ConditionCoded,
         InvertSense;
  }

  lemma CondBits(c: nat)
    requires c < 128
    ensures (Bit(c, 5) <==> (c / 32) % 2 == 1) && (Bit(c, 6) <==> c / 64 == 1)
  {
    LowSeven(c);
    hide Bit;
  }

  lemma JumpHeld(f: JumpWord)
    requires f.aSrc < 1024 && f.mSrc < 64 && f.target < 0x4000 && f.r < 2 && f.p < 2 && f.n < 2 && f.cond < 128
    ensures var u := OrPairs(JumpPairs(f));
            && Ldb(IR_OP, u) == OP_JUMP && Ldb(IR_A_SRC, u) == f.aSrc && Ldb(IR_M_SRC, u) == f.mSrc
            && Ldb(IR_JUMP_ADDR, u) == f.target && Ldb(IR_R, u) == f.r && Ldb(IR_P, u) == f.p
            && Ldb(IR_N, u) == f.n && Ldb(IR_JUMP_COND, u) == f.cond && Ldb(IR_POPJ, u) == 0 && Ldb(IR_MF, u) == 0
  {
    Powers();
    var ps := JumpPairs(f);
    hide Pow2, Ldb, OrPairs;
    JumpApart(f);
    hide AllApart;
    Held(ps, 0, IR_OP, OP_JUMP);
    Held(ps, 1, IR_A_SRC, f.aSrc);
    Held(ps, 2, IR_M_SRC, f.mSrc);
    Held(ps, 3, IR_JUMP_ADDR, f.target);
    Held(ps, 4, IR_R, f.r);
    Held(ps, 5, IR_P, f.p);
    Held(ps, 6, IR_N, f.n);
    Held(ps, 7, IR_JUMP_COND, f.cond);
    LdbOfNone(ps, IR_POPJ);
    LdbOfNone(ps, IR_MF);
    var u := OrPairs(ps);
  }

  /** Values of the fields of a DISPATCH instruction: constant, source, n+1 and advance
      bits, table address, field length and rotation. */
  datatype DispatchWord = DispatchWord(
    dispConst: nat, mSrc: nat, lpc: nat, advance: nat, addr: nat, length: nat, rot: nat)

  function DispatchPairs(f: DispatchWord): seq<Pair> {
    [Pair(IR_OP, OP_DISPATCH), Pair(IR_DISP_CONST, f.dispConst), Pair(IR_M_SRC, f.mSrc), Pair(IR_DISP_LPC, f.lpc),
     Pair(IR_DISP_ADVANCE, f.advance), Pair(IR_DISP_ADDR, f.addr), Pair(IR_DISP_BYTL, f.length), Pair(IR_MROT, f.rot)]
  }

  lemma DispatchApart(f: DispatchWord)
    ensures AllApart(DispatchPairs(f))
  {
    StackedApart(DispatchPairs(f));
    hide AllApart;
  }

  lemma DecodeDispatch(f: DispatchWord)
    requires f.dispConst < 1024 && f.mSrc < 64 && f.lpc < 2 && f.advance < 2
    requires f.addr < 2048 && f.length < 8 && f.rot < 32
    ensures var u := OrPairs(DispatchPairs(f));
            && Op(u) == OP_DISPATCH && !PopJ(u) && MSrc(u) == f.mSrc && Misc(u) == 0 && DispConst(u) == f.dispConst
            && (NPlus1(u) <==> f.lpc == 1) && (AdvanceStream(u) <==> f.advance == 1) && DispAddr(u) == f.addr
            && DispLength(u) == f.length && Rotation(u) == f.rot
  {
    var ps, u := DispatchPairs(f), OrPairs(DispatchPairs(f));
    CommonFields(u);
    DispatchFields(u);
    Powers();
    hide Pow2, Ldb, OrPairs, Op, PopJ, ASrc, MSrc, Misc, DispConst, NPlus1, AdvanceStream, DispAddr, DispLength, Rotation;
    DispatchApart(f);
    hide AllApart;
    Held(ps, 0, IR_OP, OP_DISPATCH);
    Held(ps, 1, IR_DISP_CONST, f.dispConst);
    Held(ps, 2, IR_M_SRC, f.mSrc);
    Held(ps, 3, IR_DISP_LPC, f.lpc);
    Held(ps, 4, IR_DISP_ADVANCE, f.advance);
    Held(ps, 5, IR_DISP_ADDR, f.addr);
    Held(ps, 6, IR_DISP_BYTL, f.length);
    Held(ps, 7, IR_MROT, f.rot);
    LdbOfNone(ps, IR_POPJ);
    LdbOfNone(ps, IR_MF);
  }

  /** Values of the fields of a BYTE instruction. */
  datatype ByteWord = ByteWord(aSrc: nat, mSrc: nat, dest: nat, func: nat, widthM1: nat, rot: nat)

  function BytePairs(f: ByteWord): seq<Pair> {
    [Pair(IR_OP, OP_BYTE), Pair(IR_A_SRC, f.aSrc), Pair(IR_M_SRC, f.mSrc), Pair(IR_A_MEM_DEST, f.dest),
     Pair(IR_BYTE_FUNC, f.func), Pair(IR_BYTL_1, f.widthM1), Pair(IR_MROT, f.rot)]
  }

  lemma ByteApart(f: ByteWord)
    ensures AllApart(BytePairs(f))
  {
    StackedApart(BytePairs(f));
    hide AllApart;
  }

  lemma DecodeByte(f: ByteWord)
    requires f.aSrc < 1024 && f.mSrc < 64 && f.dest < 4096 && f.func < 4 && f.widthM1 < 32 && f.rot < 32
    ensures var u := OrPairs(BytePairs(f));
            && Op(u) == OP_BYTE && !PopJ(u) && ASrc(u) == f.aSrc && MSrc(u) == f.mSrc && Misc(u) == 0
            && Dest(u) == f.dest && ByteFunc(u) == f.func && WidthM1(u) == f.widthM1 && Rotation(u) == f.rot
  {
    var ps, u := BytePairs(f), OrPairs(BytePairs(f));
    CommonFields(u);
    ByteFields(u);
    Powers();
    hide Pow2, Ldb, OrPairs, Op, PopJ, ASrc, MSrc, Misc, Dest, ByteFunc, WidthM1, Rotation;
    ByteApart(f);
    hide AllApart;
    Held(ps, 0, IR_OP, OP_BYTE);
    Held(ps, 1, IR_A_SRC, f.aSrc);
    Held(ps, 2, IR_M_SRC, f.mSrc);
    Held(ps, 3, IR_A_MEM_DEST, f.dest);
    Held(ps, 4, IR_BYTE_FUNC, f.func);
    Held(ps, 5, IR_BYTL_1, f.widthM1);
    Held(ps, 6, IR_MROT, f.rot);
    LdbOfNone(ps, IR_POPJ);
    LdbOfNone(ps, IR_MF);
  }

  // ---------------------------------------------------------------------
  // The console's A-memory instructions

  /** cc_write_a_mem's instruction, its pairs in the order they are ORed. */
  function WriteAWord(loc: nat): nat {
    BitOr(BitOr(BitOr(IrPair(IR_M_SRC, M_SRC_MD), IrPair(IR_ALUF, ALU_SETM)), IrPair(IR_OB, Alu.OB_ALU)),
          IrPair(IR_A_MEM_DEST, A_MEM_DEST_INDICATOR + loc))
  }

  /** cc_read_a_mem's instruction. */
  function ReadAWord(loc: nat): nat {
    BitOr(BitOr(IrPair(IR_A_SRC, loc), IrPair(IR_ALUF, ALU_SETA)), IrPair(IR_OB, Alu.OB_ALU))
  }

  lemma MoveToEnd(x: nat, y: nat, z: nat)
    ensures BitOr(BitOr(x, y), z) == BitOr(BitOr(y, z), x)
  {
    OrAssociates(x, y, z);
    OrCommutes(x, BitOr(y, z));
  }

  /** The order of the pairs does not matter, and pairs of 0 may be left out. */
  lemma ConsoleWords(loc: nat)
    requires loc < 1024
    ensures WriteAWord(loc) == Assemble(Fields(0, M_SRC_MD, A_MEM_DEST_INDICATOR + loc, Alu.OB_ALU, ALU_SETM, 0))
    ensures ReadAWord(loc) == Assemble(Fields(loc, 0, 0, Alu.OB_ALU, ALU_SETA, 0))
    ensures WriteAWord(loc) == 42 * 0x400_0000 + (2048 + loc) * 0x4000 + 0x1000 + 6 * 4
    ensures ReadAWord(loc) == loc * 0x1_0000_0000 + 0x1000 + 10 * 4
  {
    var w := Fields(0, M_SRC_MD, A_MEM_DEST_INDICATOR + loc, Alu.OB_ALU, ALU_SETM, 0);
    var r := Fields(loc, 0, 0, Alu.OB_ALU, ALU_SETA, 0);
    AssembleAdds(w);
    AssembleAdds(r);
    PairValues(w);
    PairValues(r);
    hide Pow2;
    var f, o, d, m := IrPair(IR_ALUF, w.aluf), IrPair(IR_OB, w.ob), IrPair(IR_A_MEM_DEST, w.dest), IrPair(IR_M_SRC, w.mSrc);
    var f', a := IrPair(IR_ALUF, r.aluf), IrPair(IR_A_SRC, r.aSrc);
    hide IrPair;
    assert BitOr(0, f) == f && BitOr(0, f') == f';
    MoveToEnd(m, f, o);
    OrAssociates(BitOr(f, o), m, d);
    OrCommutes(m, d);
    OrAssociates(BitOr(f, o), d, m);
    OrZero(BitOr(BitOr(BitOr(f, o), d), m));
    MoveToEnd(a, f', o);
    OrZero(BitOr(f', o));
  }

  /** Executing the write instruction puts MD into A[loc] and touches no other word
      of A or M memory. */
  lemma WriteAExecutes(s: State, loc: nat, upc: nat, io: Devices)
    requires loc < 1024 && upc > 0
    ensures DestInRange(WriteAWord(loc))
    ensures var c := Execute(s, WriteAWord(loc), upc, io);
            && c.upc == upc && !c.annul
            && c.s == s.(pads := s.pads.(aMem := s.pads.aMem[loc := s.bus.md]),
                         alu := s.alu.(aluOut := s.bus.md, aluCarry := false, mLatch := 0))
  {
    var f := Fields(0, M_SRC_MD, A_MEM_DEST_INDICATOR + loc, Alu.OB_ALU, ALU_SETM, 0);
    ConsoleWords(loc);
    DecodeAssembled(f);
    MoveToA(s, WriteAWord(loc), loc, upc, io);
    hide WriteAWord, Assemble, Execute, Op, PopJ, ASrc, MSrc, OutputBus, CarryIn, AluOp, QControl, IsNop;
  }

  /** An instruction that moves MD to A[loc]. */
  lemma MoveToA(s: State, u: nat, loc: nat, upc: nat, io: Devices)
    requires upc > 0 && loc < 1024 && Dest(u) == 2048 + loc
    requires Op(u) == OP_ALU && !IsNop(u) && !PopJ(u) && MSrc(u) == M_SRC_MD
    requires AluOp(u) == 3 && OutputBus(u) == Alu.OB_ALU && QControl(u) == 0
    ensures Execute(s, u, upc, io)
         == Control(s.(pads := s.pads.(aMem := s.pads.aMem[loc := s.bus.md]),
                       alu := s.alu.(aluOut := s.bus.md, aluCarry := false, mLatch := 0)), upc, false)
  {
    hide Op, PopJ, ASrc, MSrc, Dest, OutputBus, CarryIn, AluOp, QControl, IsNop, WriteFunction, Alu.Arithmetic,
         Alu.Conditional;
  }

  /** What an instruction puts on the output bus. */
  function OutputOf(s: State, u: nat): word {
    var src := MSource(s, u);
    AluBus(src.s.(alu := src.s.alu.(mLatch := 0)), u, src.value, s.pads.aMem[ASrc(u)])
  }

  lemma ReadAOutputs(s: State, loc: nat)
    requires loc < 1024
    ensures OutputOf(s, ReadAWord(loc)) == s.pads.aMem[loc]
  {
    var f := Fields(loc, 0, 0, Alu.OB_ALU, ALU_SETA, 0);
    ConsoleWords(loc);
    DecodeAssembled(f);
    hide ReadAWord, Assemble, Op, PopJ, ASrc, MSrc, Dest, OutputBus, CarryIn, AluOp, QControl, IsNop;
  }

  /** The console reads back what it wrote: the write instruction, then any read
      instruction, puts MD on the bus for the same location and the old word for
      any other. */
  lemma ConsoleReadsBack(s: State, loc: nat, loc': nat, upc: nat, io: Devices)
    requires loc < 1024 && loc' < 1024 && upc > 0
    ensures DestInRange(WriteAWord(loc))
    ensures OutputOf(Execute(s, WriteAWord(loc), upc, io).s, ReadAWord(loc'))
         == if loc == loc' then s.bus.md else s.pads.aMem[loc']
  {
    WriteAExecutes(s, loc, upc, io);
    ReadAOutputs(Execute(s, WriteAWord(loc), upc, io).s, loc');
    hide Execute, WriteAWord, ReadAWord, OutputOf;
  }
}
