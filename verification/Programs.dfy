/** Straight-line microprograms in the control store, run by the pipeline: the multiply
    and divide sequences. */
module Programs {
  import opened Words
  import opened MicroWord
  import opened Cpu
  import opened Pipeline
  import opened Sequencing
  import opened Microcode
  import Alu
  import Divide

  const ALU_MSTEP := 64
  const ALU_DSTEP := 66
  const ALU_RSTEP := 74
  const ALU_DFSTEP := 82

  /** A step: ALU function, output selection and Q control. Its M source r is its
      destination too, and loc its A source. */
  datatype Code = Code(aluf: nat, ob: nat, q: nat)

  predicate Encodable(c: Code) { 0 < c.aluf < 128 && c.aluf % 2 == 0 && 1 <= c.ob < 4 && c.q < 4 }

  function StepWord(c: Code, r: index5, loc: index10): nat { Assemble(Fields(loc, r, r, c.ob, c.aluf, c.q)) }

  /** M memory word r, Q and the last ALU output. */
  function RegsOf(s: State, r: index5): Alu.Regs { Alu.Regs(s.pads.mMem[r], s.alu.q, s.alu.aluOut) }

  /** What one step does to them. */
  function Effect(c: Code, a: word, regs: Alu.Regs): Alu.Regs { Alu.Instr(c.aluf / 2, c.ob, c.q, a, regs) }

  function Effects(cs: seq<Code>, a: word, regs: Alu.Regs): Alu.Regs
    decreases |cs|
  {
    if cs == [] then regs else Effects(cs[1..], a, Effect(cs[0], a, regs))
  }

  // ---------------------------------------------------------------------
  // One step

  /** An ALU instruction from M memory to M memory. */
  lemma RegisterStep(s: State, u: nat, upc: nat, io: Devices)
    requires upc > 0 && Op(u) == OP_ALU && !IsNop(u) && !PopJ(u)
    requires MSrc(u) < 32 && Dest(u) < 32 && OutputBus(u) != 0
    ensures var res := Alu.Operate(AluOp(u), s.pads.mMem[MSrc(u)], s.pads.aMem[ASrc(u)], s.alu.q, s.alu.aluOut, CarryIn(u));
            Execute(s, u, upc, io)
            == Control(WriteM(s.(alu := AluRegs(Alu.NextQ(QControl(u), s.alu.q, res.out), res.out, res.carry, 0)),
                              Dest(u), Alu.Bus(OutputBus(u), res, s.alu.q)), upc, false)
  {
    hide Op, PopJ, ASrc, MSrc, Dest, OutputBus, CarryIn, AluOp, QControl, IsNop,
         Alu.Operate, Alu.NextQ, Alu.Bus;
  }

  /** An assembled step does to M[r], Q and the ALU output what the ALU model says, and
      leaves A[loc], the control store and the flow of control alone. */
  lemma StepExecutes(s: State, c: Code, r: index5, loc: index10, upc: nat, io: Devices)
    requires Encodable(c) && upc > 0
    ensures DestInRange(StepWord(c, r, loc))
    ensures var e := Execute(s, StepWord(c, r, loc), upc, io);
            && e.upc == upc && !e.annul && e.s.store == s.store && e.s.oa == s.oa
            && RegsOf(e.s, r) == Effect(c, s.pads.aMem[loc], RegsOf(s, r))
            && (loc != r ==> e.s.pads.aMem[loc] == s.pads.aMem[loc])
  {
    var u := StepWord(c, r, loc);
    DecodeAssembled(Fields(loc, r, r, c.ob, c.aluf, c.q));
    hide StepWord, Op, PopJ, ASrc, MSrc, Dest, OutputBus, CarryIn, AluOp, QControl, IsNop;
    RegisterStep(s, u, upc, io);
    hide Execute, Alu.Operate, Alu.NextQ, Alu.Bus;
  }

  // ---------------------------------------------------------------------
  // Programs

  /** The steps stand in consecutive words of the control store from x on. */
  predicate Loaded(s: State, x: nat, cs: seq<Code>, r: index5, loc: index10) {
    forall i :: 0 <= i < |cs| ==> LoadedAt(s, x + i, cs[i], r, loc)
  }

  predicate LoadedAt(s: State, x: nat, c: Code, r: index5, loc: index10) {
    PcInRange(s, x) && Fetch(s, x) == StepWord(c, r, loc)
  }

  /** The machine is about to execute the word at x, with no modifier pending. */
  predicate At(m: Machine, x: nat) {
    && m.s.store.running && !m.s.oa.oaLoSet && !m.s.oa.oaHiSet
    && !m.annul && m.p1pc == x && m.upc == x + 1 && PcInRange(m.s, x) && m.p1 == Fetch(m.s, x)
  }

  /** A cycle that executes a step goes on to the next address. */
  lemma StepRuns(m: Machine, inp: Input, x: nat, c: Code, r: index5, loc: index10)
    requires At(m, x) && PcInRange(m.s, x + 1) && Encodable(c) && Fetch(m.s, x) == StepWord(c, r, loc) && loc != r
    ensures Ready(m)
    ensures var m' := Step(m, inp);
            && At(m', x + 1) && m'.s.store == m.s.store && m'.s.pads.aMem[loc] == m.s.pads.aMem[loc]
            && RegsOf(m'.s, r) == Effect(c, m.s.pads.aMem[loc], RegsOf(m.s, r))
  {
    var s, u := Prepared(m.s, inp), StepWord(c, r, loc);
    StepExecutes(s, c, r, loc, m.upc + 1, inp.io);
    assert Instruction(m) == u;
    PreparedRegs(m.s, inp, r);
    hide StepWord, Execute, Effect, Prepared, DestInRange;
  }

  lemma PreparedRegs(s: State, inp: Input, r: index5)
    ensures var t := Prepared(s, inp);
            t.store == s.store && t.pads == s.pads && RegsOf(t, r) == RegsOf(s, r) && !t.oa.oaLoSet && !t.oa.oaHiSet
  {
  }

  /** Run from its first word, one cycle a word and whatever comes from outside, a
      program of steps has their effects on M[r] and Q, one after the other. */
  lemma {:induction false} ProgramRuns(m: Machine, ins: seq<Input>, x: nat, cs: seq<Code>, r: index5, loc: index10)
    requires At(m, x) && PcInRange(m.s, x + |cs|) && Loaded(m.s, x, cs, r, loc) && loc != r
    requires |ins| == |cs| && forall i :: 0 <= i < |cs| ==> Encodable(cs[i])
    ensures RunReady(m, ins)
    ensures var m' := Run(m, ins);
            && At(m', x + |cs|) && m'.s.pads.aMem[loc] == m.s.pads.aMem[loc]
            && RegsOf(m'.s, r) == Effects(cs, m.s.pads.aMem[loc], RegsOf(m.s, r))
    decreases |cs|
  {
    hide At, Step, StepWord, Effect, Ready, RegsOf, Encodable;
    if cs != [] {
      FirstLoaded(m.s, x, cs, r, loc);
      StepRuns(m, ins[0], x, cs[0], r, loc);
      var m' := Step(m, ins[0]);
      RestLoaded(m.s, m'.s, x, cs, r, loc);
      ProgramRuns(m', ins[1..], x + 1, cs[1..], r, loc);
    }
  }

  lemma FirstLoaded(s: State, x: nat, cs: seq<Code>, r: index5, loc: index10)
    requires cs != [] && Loaded(s, x, cs, r, loc) && PcInRange(s, x + |cs|)
    ensures PcInRange(s, x) && Fetch(s, x) == StepWord(cs[0], r, loc) && PcInRange(s, x + 1)
  {
    hide StepWord;
    assert LoadedAt(s, x + 0, cs[0], r, loc);
  }

  lemma RestLoaded(s: State, s': State, x: nat, cs: seq<Code>, r: index5, loc: index10)
    requires cs != [] && Loaded(s, x, cs, r, loc) && PcInRange(s, x + |cs|) && s'.store == s.store
    ensures Loaded(s', x + 1, cs[1..], r, loc) && PcInRange(s', x + 1 + |cs[1..]|)
  {
    var rest := cs[1..];
    forall i | 0 <= i < |rest| ensures LoadedAt(s', x + 1 + i, rest[i], r, loc) {
      assert LoadedAt(s, x + (i + 1), cs[i + 1], r, loc);
    }
    hide LoadedAt;
  }

  // ---------------------------------------------------------------------
  // Multiply and divide

  function Copies(c: Code, k: nat): (cs: seq<Code>)
    ensures |cs| == k && forall i :: 0 <= i < k ==> cs[i] == c
    decreases k
  {
    if k == 0 then [] else [c] + Copies(c, k - 1)
  }

  lemma {:induction false} CopiesRepeat(c: Code, k: nat, a: word, regs: Alu.Regs)
    ensures Effects(Copies(c, k), a, regs) == Alu.Repeat(c.aluf / 2, c.ob, c.q, a, regs, k)
    decreases k
  {
    hide Alu.Instr;
    if k > 0 {
      assert Copies(c, k)[1..] == Copies(c, k - 1);
      CopiesRepeat(c, k - 1, a, Effect(c, a, regs));
      RepeatFirst(c, k - 1, a, regs);
    }
  }

  lemma {:induction false} RepeatFirst(c: Code, k: nat, a: word, regs: Alu.Regs)
    ensures Alu.Repeat(c.aluf / 2, c.ob, c.q, a, Effect(c, a, regs), k)
         == Alu.Repeat(c.aluf / 2, c.ob, c.q, a, regs, k + 1)
    decreases k
  {
    hide Alu.Instr;
    if k > 0 { RepeatFirst(c, k - 1, a, regs); }
  }

  lemma {:induction false} EffectsJoin(cs: seq<Code>, ds: seq<Code>, a: word, regs: Alu.Regs)
    ensures Effects(cs + ds, a, regs) == Effects(ds, a, Effects(cs, a, regs))
    decreases |cs|
  {
    hide Effect;
    if cs == [] {
      assert cs + ds == ds;
    } else {
      assert (cs + ds)[1..] == cs[1..] + ds;
      EffectsJoin(cs[1..], ds, a, Effect(cs[0], a, regs));
    }
  }

  const MULTIPLY := Code(ALU_MSTEP, Alu.OB_RIGHT, Alu.Q_RIGHT)
  const DIVIDE_FIRST := Code(ALU_DFSTEP, Alu.OB_LEFT, Alu.Q_LEFT)
  const DIVIDE := Code(ALU_DSTEP, Alu.OB_LEFT, Alu.Q_LEFT)
  const DIVIDE_LAST := Code(ALU_DSTEP, Alu.OB_ALU, Alu.Q_LEFT)
  const CORRECT := Code(ALU_RSTEP, Alu.OB_ALU, 0)

  /** Thirty-two multiply words at x, run in as many cycles, leave in M[r] and Q the
      64-bit sum of the signed M[r] and the product of the signed A[loc] with the
      unsigned Q. */
  lemma MultiplyProgram(m: Machine, ins: seq<Input>, x: nat, r: index5, loc: index10)
    requires |ins| == 32 && At(m, x) && PcInRange(m.s, x + 32) && Loaded(m.s, x, Copies(MULTIPLY, 32), r, loc)
    requires loc != r
    ensures RunReady(m, ins) && At(Run(m, ins), x + 32)
    ensures var s, s' := m.s, Run(m, ins).s;
            Signed(s'.pads.mMem[r]) * 0x1_0000_0000 + s'.alu.q
            == Signed(s.pads.mMem[r]) + Signed(s.pads.aMem[loc]) * s.alu.q
  {
    hide At, Loaded, Run, RunReady, PcInRange, Copies, Alu.Repeat, Effects;
    ProgramRuns(m, ins, x, Copies(MULTIPLY, 32), r, loc);
    CopiesRepeat(MULTIPLY, 32, m.s.pads.aMem[loc], RegsOf(m.s, r));
    Alu.Multiply(m.s.pads.aMem[loc], RegsOf(m.s, r));
  }

  /** The division sequence: first step, 31 steps, a last unshifted step and the
      remainder correction. */
  function Division(): (cs: seq<Code>)
    ensures |cs| == 34 && forall i :: 0 <= i < 34 ==> Encodable(cs[i])
  {
    [DIVIDE_FIRST] + (Copies(DIVIDE, 31) + [DIVIDE_LAST, CORRECT])
  }

  lemma DivisionEffects(a: word, regs: Alu.Regs)
    ensures Effects(Division(), a, regs) == Divide.Division(a, regs)
  {
    hide Alu.Instr, Alu.Repeat, Copies;
    var r1 := Effect(DIVIDE_FIRST, a, regs);
    EffectsJoin([DIVIDE_FIRST], Copies(DIVIDE, 31) + [DIVIDE_LAST, CORRECT], a, regs);
    OneEffect(DIVIDE_FIRST, a, regs);
    EffectsJoin(Copies(DIVIDE, 31), [DIVIDE_LAST, CORRECT], a, r1);
    CopiesRepeat(DIVIDE, 31, a, r1);
    var r2 := Effects(Copies(DIVIDE, 31), a, r1);
    EffectsJoin([DIVIDE_LAST], [CORRECT], a, r2);
    assert [DIVIDE_LAST] + [CORRECT] == [DIVIDE_LAST, CORRECT];
    OneEffect(DIVIDE_LAST, a, r2);
    OneEffect(CORRECT, a, Effect(DIVIDE_LAST, a, r2));
    hide Effects;
  }

  lemma OneEffect(c: Code, a: word, regs: Alu.Regs)
    ensures Effects([c], a, regs) == Effect(c, a, regs)
  {
    hide Effect;
    assert Effects([c][1..], a, Effect(c, a, regs)) == Effect(c, a, regs);
  }

  /** Its thirty-four words at x, run in as many cycles, divide the 64-bit number
      (M[r], Q) by A[loc]: quotient in Q, remainder in M[r], for every divisor up to
      2^31 above the high word. */
  lemma DivideProgram(m: Machine, ins: seq<Input>, x: nat, r: index5, loc: index10)
    requires |ins| == 34 && At(m, x) && PcInRange(m.s, x + 34) && Loaded(m.s, x, Division(), r, loc)
    requires loc != r && m.s.pads.mMem[r] < m.s.pads.aMem[loc] <= 0x8000_0000
    ensures RunReady(m, ins) && At(Run(m, ins), x + 34)
    ensures var s, s', a := m.s, Run(m, ins).s, m.s.pads.aMem[loc];
            && s'.alu.q * a + s'.pads.mMem[r] == s.pads.mMem[r] * 0x1_0000_0000 + s.alu.q
            && 0 <= s'.pads.mMem[r] < a
  {
    hide At, Loaded, Run, RunReady, PcInRange, Division, Effects, Divide.Division, Encodable;
    ProgramRuns(m, ins, x, Division(), r, loc);
    DivisionEffects(m.s.pads.aMem[loc], RegsOf(m.s, r));
    Divide.DivisionIsExact(m.s.pads.aMem[loc], RegsOf(m.s, r));
  }
}
