/** Runs of the pipeline: refinement over whole runs, jump timing, jump conditions and
    the control-store write. */
module Sequencing {
  import opened Words
  import opened Mem
  import opened MicroWord
  import opened Cpu
  import opened Pipeline
  import opened Prefetch

  // ---------------------------------------------------------------------
  // Runs

  /** Every cycle is executable. */
  predicate RunReady(m: Machine, ins: seq<Input>)
    decreases |ins|
  {
    ins == [] || (Ready(m) && RunReady(Step(m, ins[0]), ins[1..]))
  }

  function Run(m: Machine, ins: seq<Input>): Machine
    requires RunReady(m, ins)
    decreases |ins|
  {
    if ins == [] then m else Run(Step(m, ins[0]), ins[1..])
  }

  predicate SeqRunReady(q: Seq, ins: seq<Input>)
    decreases |ins|
  {
    ins == [] || (SeqReady(q) && q.next + 1 < 0x4000 && SeqRunReady(SeqStep(q, ins[0]), ins[1..]))
  }

  function SeqRun(q: Seq, ins: seq<Input>): Seq
    requires SeqRunReady(q, ins)
    decreases |ins|
  {
    if ins == [] then q else SeqRun(SeqStep(q, ins[0]), ins[1..])
  }

  /** No cycle overwrites the word it prefetches. */
  predicate RunIntact(m: Machine, ins: seq<Input>)
    requires RunReady(m, ins)
    decreases |ins|
  {
    ins == [] || (!Overwrites(m, ins[0]) && RunIntact(Step(m, ins[0]), ins[1..]))
  }

  /** Every cycle leaves the last address of the control store unfetched. */
  predicate RunBelow(m: Machine, ins: seq<Input>)
    requires RunReady(m, ins)
    decreases |ins|
  {
    ins == [] || (m.upc + (if m.annul then 1 else 0) < 0x3FFF && RunBelow(Step(m, ins[0]), ins[1..]))
  }

  /** The two machines run and stand for each other before and after each cycle. */
  ghost predicate InStep(m: Machine, q: Seq, ins: seq<Input>)
    requires RunReady(m, ins)
    decreases |ins|
  {
    && Stands(m, q)
    && (ins == [] || (SeqReady(q) && InStep(Step(m, ins[0]), SeqStep(q, ins[0]), ins[1..])))
  }

  /** Over any run they stay in step exactly if no cycle overwrites its prefetch. */
  lemma {:induction false} InStepUnlessOverwritten(m: Machine, q: Seq, ins: seq<Input>)
    requires Stands(m, q) && RunReady(m, ins) && RunBelow(m, ins)
    ensures InStep(m, q, ins) <==> RunIntact(m, ins)
    decreases |ins|
  {
    hide Stands, Overwrites, Ready, SeqReady, Step, SeqStep;
    if ins != [] {
      NextBelow(m, q);
      StepRefines(m, q, ins[0]);
      if !Overwrites(m, ins[0]) {
        InStepUnlessOverwritten(Step(m, ins[0]), SeqStep(q, ins[0]), ins[1..]);
      } else {
        NotInStep(Step(m, ins[0]), SeqStep(q, ins[0]), ins[1..]);
      }
    }
  }

  lemma NotInStep(m: Machine, q: Seq, ins: seq<Input>)
    requires RunReady(m, ins) && !Stands(m, q)
    ensures !InStep(m, q, ins)
  {
    hide Stands, Ready, Step;
  }

  lemma NextBelow(m: Machine, q: Seq)
    requires Stands(m, q)
    ensures q.next == m.upc + (if m.annul then 1 else 0)
  {
    hide PrefetchIntact;
  }

  /** A run in step ends where the sequential machine ends, which can run it. */
  lemma {:induction false} InStepRuns(m: Machine, q: Seq, ins: seq<Input>)
    requires RunReady(m, ins) && RunBelow(m, ins) && InStep(m, q, ins)
    ensures SeqRunReady(q, ins) && Stands(Run(m, ins), SeqRun(q, ins))
    decreases |ins|
  {
    hide Stands, Ready, SeqReady, Step, SeqStep;
    if ins != [] {
      NextBelow(m, q);
      InStepRuns(Step(m, ins[0]), SeqStep(q, ins[0]), ins[1..]);
    }
  }

  /** Over any run that overwrites no prefetched word, the sequential machine can run
      as well, and the pipeline ends where it ends. */
  lemma RunRefines(m: Machine, q: Seq, ins: seq<Input>)
    requires Stands(m, q) && RunReady(m, ins) && RunBelow(m, ins) && RunIntact(m, ins)
    ensures SeqRunReady(q, ins) && Stands(Run(m, ins), SeqRun(q, ins))
  {
    hide *;
    InStepUnlessOverwritten(m, q, ins);
    InStepRuns(m, q, ins);
  }

  predicate SameStore(s: State, s': State) {
    && s'.store.promEnabled == s.store.promEnabled && s'.store.prom == s.store.prom
    && s'.store.ucode == s.store.ucode
  }

  /** Fixed microcode: no cycle changes a word of the control store or turns the
      PROM off. */
  predicate RunFixed(m: Machine, ins: seq<Input>)
    requires RunReady(m, ins)
    decreases |ins|
  {
    ins == [] || (SameStore(m.s, Step(m, ins[0]).s) && RunFixed(Step(m, ins[0]), ins[1..]))
  }

  /** A cycle that leaves the control store alone overwrites no prefetched word. */
  lemma FixedStoreIsIntact(m: Machine, inp: Input)
    requires Ready(m) && SameStore(m.s, Step(m, inp).s)
    ensures !Overwrites(m, inp)
  {
    IntactUnlessOverwritten(m, inp);
    hide Execute, Prepared, Instruction, Overwrites;
  }

  lemma {:induction false} FixedRunIsIntact(m: Machine, ins: seq<Input>)
    requires RunReady(m, ins) && RunFixed(m, ins)
    ensures RunIntact(m, ins)
    decreases |ins|
  {
    hide Ready, Step, Overwrites, SameStore;
    if ins != [] {
      FixedStoreIsIntact(m, ins[0]);
      FixedRunIsIntact(Step(m, ins[0]), ins[1..]);
    }
  }

  /** In particular over every run with fixed microcode. */
  lemma FixedRunRefines(m: Machine, q: Seq, ins: seq<Input>)
    requires Stands(m, q) && RunReady(m, ins) && RunBelow(m, ins) && RunFixed(m, ins)
    ensures SeqRunReady(q, ins) && Stands(Run(m, ins), SeqRun(q, ins))
  {
    hide *;
    FixedRunIsIntact(m, ins);
    RunRefines(m, q, ins);
  }

  /** run() enters with an empty pipeline: its first cycle executes a no-operation
      and leaves the pipeline standing for the sequential machine at address 0. */
  lemma ResetStands(s: State, inp: Input)
    requires Ready(Reset(s)) && !s.oa.oaLoSet && !s.oa.oaHiSet
    ensures var m := Step(Reset(s), inp);
            Stands(m, Seq(m.s, 0, 1))
  {
    hide Settle, ExecAlu, ExecJump, ExecDispatch, ExecByte, MaybePop;
    assert Instruction(Reset(s)) == 0;
    SettleStore(s, inp);
  }

  lemma SettleStore(s: State, inp: Input)
    ensures SameStore(s, Settle(s, inp))
  {
  }

  // ---------------------------------------------------------------------
  // Jump timing

  /** The current instruction is a taken jump with neither P nor R. */
  predicate PlainJump(m: Machine, inp: Input)
    requires Ready(m)
  {
    var s, u := Prepared(m.s, inp), Instruction(m);
    && Op(u) == OP_JUMP && Misc(u) != 1 && !PBit(u) && !RBit(u)
    && TakeJump(MSource(s, u).s.(alu := MSource(s, u).s.alu.(mLatch := 0)), u, MSource(s, u).value, s.pads.aMem[ASrc(u)])
  }

  lemma PlainJumpControl(m: Machine, inp: Input)
    requires Ready(m) && PlainJump(m, inp)
    ensures var u := Instruction(m);
            Step(m, inp).upc == JumpTarget(u) && Step(m, inp).annul == NBit(u)
            && Step(m, inp).p1pc == m.upc + (if m.annul then 1 else 0)
  {
    hide Prepared, MSource, Instruction, TakeJump, StoreAfter;
  }

  /** A taken jump at X to T: with N the next address executed is T; otherwise it
      is the one prefetched (X+1 in straight code), and then T unless that
      instruction itself transfers with N. */
  lemma TakenJumpTiming(m: Machine, in1: Input, in2: Input)
    requires Ready(m) && PlainJump(m, in1)
    ensures var u, m1 := Instruction(m), Step(m, in1);
            && (NBit(u) ==> ExecutingPc(m1) == JumpTarget(u))
            && (!NBit(u) ==> ExecutingPc(m1) == m.upc + (if m.annul then 1 else 0))
            && (!NBit(u) && Ready(m1) && !Step(m1, in2).annul ==>
                ExecutingPc(Step(m1, in2)) == JumpTarget(u))
  {
    PlainJumpControl(m, in1);
    hide PlainJump, Instruction, Execute, Prepared;
  }

  // ---------------------------------------------------------------------
  // Jump conditions and the control-store write

  predicate FaultOrInterrupt(s: State) { s.bus.pageFault || (InterruptEnabled(s) && InterruptPending(s)) }

  lemma FlagsInChar(s: State, withBreak: bool)
    ensures AsChar(JumpFlags(s, withBreak)) != 0 <==> FaultOrInterrupt(s)
  {
    hide InterruptEnabled, InterruptPending, SequenceBreak;
    var x := BitOr(Flag(s.bus.pageFault, 1), if InterruptEnabled(s) && InterruptPending(s) then 1 else 0);
    assert x == if FaultOrInterrupt(s) then 1 else 0;
    assert BitOr(x, 0x400_0000) == x + 0x400_0000 && BitOr(x, 0) == x;
  }

  /** Condition 6 is meant to include the sequence break; it is condition 5, and so
      departs from its meaning exactly when a sequence break is all there is. */
  lemma SequenceBreakIsLost(s: State, m: word, a: word)
    ensures ConditionHolds(s, 6, m, a) <==> ConditionHolds(s, 5, m, a)
    ensures ConditionHolds(s, 5, m, a) <==> FaultOrInterrupt(s)
    ensures (ConditionHolds(s, 6, m, a) <==> FaultOrInterrupt(s) || SequenceBreak(s))
       <==> !(SequenceBreak(s) && !FaultOrInterrupt(s))
  {
    hide FaultOrInterrupt, JumpFlags, SequenceBreak;
    FlagsInChar(s, true);
    FlagsInChar(s, false);
  }

  /** It happens: with the flag of a cleared machine set, interrupts off and no fault,
      condition 6 does not hold. */
  lemma SequenceBreakIgnored(prom: Prom, mem: Memory, m: word, a: word)
    ensures var s := Cleared(prom, mem);
            var t := s.(ctl := s.ctl.(interruptControl := 0x400_0000));
            SequenceBreak(t) && !ConditionHolds(t, 6, m, a)
  {
    var s := Cleared(prom, mem);
    var t := s.(ctl := s.ctl.(interruptControl := 0x400_0000));
    assert !t.bus.pageFault && !InterruptEnabled(t);
    hide Cleared, JumpFlags, ConditionHolds;
    SequenceBreakIsLost(t, m, a);
  }

  /** The cycle is a taken jump with both P and R. */
  predicate StoreJump(m: Machine, inp: Input)
    requires Ready(m)
  {
    var s, u := Prepared(m.s, inp), Instruction(m);
    var src := MSource(s, u);
    && Op(u) == OP_JUMP && Misc(u) != 1 && PBit(u) && RBit(u)
    && TakeJump(src.s.(alu := src.s.alu.(mLatch := 0)), u, src.value, s.pads.aMem[ASrc(u)])
  }

  /** It falls through with the ring pointer where its M source left it, which is where
      it was unless that is the popping source, having written the word its sources make
      at its target: without N the word after the next is next
      fetched, and with N the prefetched word is fetched afresh. */
  lemma StoreJumpFallsThrough(m: Machine, inp: Input)
    requires Ready(m) && StoreJump(m, inp) && m.upc + 2 < 0x4000
    ensures var m1, s, u, after := Step(m, inp), Prepared(m.s, inp), Instruction(m), m.upc + (if m.annul then 1 else 0);
            && ExecutingPc(m1) == after && m1.upc == (if NBit(u) then after else after + 1)
            && m1.s.ring.spcPtr == (if MSrc(u) == 44 then (m.s.ring.spcPtr + 31) % 32 else m.s.ring.spcPtr)
            && m1.s.store.ucode == m.s.store.ucode[JumpTarget(u) :=
                 (s.pads.aMem[ASrc(u)] % 0x1_0000) * 0x1_0000_0000 + JumpM(u, MSource(s, u).value)]
  {
    hide Prepared, Instruction, MSource, TakeJump, PopTarget, JumpM;
    var s, u, after := Prepared(m.s, inp), Instruction(m), m.upc + (if m.annul then 1 else 0);
    var src, a := MSource(s, u), s.pads.aMem[ASrc(u)];
    var s1 := src.s.(alu := src.s.alu.(mLatch := 0));
    PreparedStore(m.s, inp);
    PreparedRing(m.s, inp);
    SourceStore(s, u);
    SourcePointer(s, u);
    PushThenPop(s1, u, src.value, a, if NBit(u) then after else after + 1, inp.io);
  }

  lemma PreparedRing(s: State, inp: Input)
    ensures Prepared(s, inp).ring == s.ring
  {
  }

  lemma SourcePointer(s: State, u: nat)
    ensures MSource(s, u).s.ring.spcPtr == if MSrc(u) == 44 then (s.ring.spcPtr + 31) % 32 else s.ring.spcPtr
  {
    hide MapSource, StackTop, NoteWalk;
  }
}
