/** Which instructions leave the macroinstruction stream alone and which advance it, by
    their fields: what the runs of the stream theorems are made of. */
module StreamCycles {
  import opened Words
  import opened Mem
  import opened MicroWord
  import opened Cpu
  import opened Pipeline
  import opened Prefetch
  import opened Sequencing
  import opened Transfers
  import opened Stream
  import ByteUnit

  /** The same registers, maps and frames, though another walk may be remembered. */
  ghost predicate Same(s: State, t: State) {
    && SameRegisters(s, t)
    && t.mem.l1 == s.mem.l1 && t.mem.l2 == s.mem.l2 && t.mem.table == s.mem.table && t.mem.frames == s.mem.frames
  }

  lemma SameReading(s: State, t: State, va: word, io: Devices)
    requires Same(s, t)
    ensures ReadMem(t, va, io).value == ReadMem(s, va, io).value
  {
    assert Entry(t.mem, va) == Entry(s.mem, va);
    hide Entry, NoteWalk;
  }

  lemma SameIsSameWords(s: State, t: State, lo: nat, hi: nat, io: Devices)
    requires Same(s, t)
    ensures SameWords(s, t, lo, hi, io)
  {
    hide Same, ReadMem;
    forall va: word | lo <= va < hi ensures ReadMem(t, va, io).value == ReadMem(s, va, io).value {
      SameReading(s, t, va, io);
    }
  }

  lemma ReadLeaves(s: State, va: word, io: Devices)
    ensures Same(s, ReadMem(s, va, io).s)
  {
    hide Entry, FrameWord;
  }

  // ---------------------------------------------------------------------
  // Advances and returns

  /** An advance does the same to states that are the same. */
  lemma AdvanceSame(s: State, t: State, io: Devices)
    requires Same(s, t)
    ensures Same(AdvanceLc(s, io).s, AdvanceLc(t, io).s)
  {
    hide ReadMem, StepCounter;
    var c := StepCounter(s.ctl.lc, ByteMode(s));
    var s1, t1 := s.(ctl := s.ctl.(lc := c.lc)), t.(ctl := t.ctl.(lc := c.lc));
    var s2, t2 := s1.(bus := s1.bus.(vma := c.at / 4)), t1.(bus := t1.bus.(vma := c.at / 4));
    ReadLeaves(s2, c.at / 4, io);
    ReadLeaves(t2, c.at / 4, io);
    SameReading(s2, t2, c.at / 4, io);
  }

  lemma AdvanceKeepsFrames(s: State, io: Devices)
    ensures var t := AdvanceLc(s, io).s;
            t.mem.l1 == s.mem.l1 && t.mem.l2 == s.mem.l2 && t.mem.table == s.mem.table && t.mem.frames == s.mem.frames
  {
    hide ReadMem, StepCounter;
    var c := StepCounter(s.ctl.lc, ByteMode(s));
    var s1 := s.(ctl := s.ctl.(lc := c.lc));
    ReadLeaves(s1.(bus := s1.bus.(vma := c.at / 4)), c.at / 4, io);
  }

  /** A return advances the stream just when its address has bit 14. */
  lemma PopSame(s: State, t: State, io: Devices)
    requires Same(s, t)
    ensures if (t.ring.spc[t.ring.spcPtr] / 0x4000) % 2 == 0 then Same(s, PopTarget(t, io).s)
            else Same(AdvanceLc(s, io).s, PopTarget(t, io).s)
  {
    AdvanceSame(s, DropSpc(t), io);
    hide AdvanceLc;
  }

  // ---------------------------------------------------------------------
  // Instructions

  /** A destination other than the location counter, interrupt control, MD and those
      that start a memory cycle or write the map. */
  predicate QuietDest(dest: nat) { dest >= 2048 || dest / 32 !in {1, 2, 17, 18, 19, 24, 25, 26, 27} }

  /** By its fields, an instruction that leaves the stream alone but for its return. */
  predicate LeavesStream(u: nat) {
    match Op(u)
    case 0 => IsNop(u) || QuietDest(Dest(u))
    case 1 => true
    case 2 => Misc(u) == 2 || !AdvanceStream(u)
    case _ => QuietDest(Dest(u))
  }

  lemma SourceLeaves(s: State, u: nat)
    ensures Same(s, Sourced(s, u))
  {
    hide MapSource, StackTop, Entry, L1Of;
  }

  lemma FunctionLeaves(s: State, func: nat, v: word, io: Devices)
    requires func !in {1, 2, 17, 18, 19, 24, 25, 26, 27}
    ensures Same(s, WriteFunction(s, func, v, io))
  {
    hide ReadMem, WriteMem, WriteMap, LcWritten;
  }

  lemma DestLeaves(s: State, dest: nat, v: word, io: Devices)
    requires dest < 3072 && QuietDest(dest)
    ensures Same(s, WriteDest(s, dest, v, io))
  {
    if dest < 2048 { FunctionLeaves(s, dest / 32, v, io); }
    hide WriteFunction;
  }

  lemma AluLeaves(s: State, u: nat, m: word, a: word, io: Devices)
    requires Dest(u) < 3072 && QuietDest(Dest(u))
    ensures Same(s, ExecAlu(s, u, m, a, io))
  {
    forall s1: State | Same(s, s1) ensures Same(s, WriteDest(s1, Dest(u), AluBus(s, u, m, a), io)) {
      DestLeaves(s1, Dest(u), AluBus(s, u, m, a), io);
      hide WriteDest;
    }
    hide WriteDest, AluBus, QuietDest;
  }

  lemma ByteLeaves(s: State, u: nat, m: word, a: word, io: Devices)
    requires Dest(u) < 3072 && QuietDest(Dest(u))
    ensures Same(s, ExecByte(s, u, m, a, io))
  {
    DestLeaves(s, Dest(u), ByteUnit.Byte(ByteFunc(u), m, a, Position(s, u), WidthM1(u)), io);
    hide WriteDest;
  }

  lemma JumpLeaves(s: State, u: nat, m: word, a: word, take: bool, upc: nat)
    ensures Same(s, JumpEffects(s, u, m, a, take, upc))
  {
    hide StoreAfter;
  }

  /** A dispatch advances just when its advance bit is set. */
  lemma EffectsLeave(s: State, u: nat, io: Devices)
    ensures if AdvanceStream(u) then Same(AdvanceLc(s, io).s, DispatchEffects(s, u, io))
            else Same(s, DispatchEffects(s, u, io))
  {
    var s1 := if DispMap(u) != 0 then s.(mem := NoteWalk(s.mem, s.bus.md)) else s;
    var s2 := s1.(ctl := s1.ctl.(dispConst := DispConst(u)));
    assert Same(s, s2) by { hide Entry; }
    AdvanceSame(s, s2, io);
    hide AdvanceLc, NoteWalk;
  }

  lemma Through(s: State, t: State, w: State)
    requires Same(s, t) && Same(t, w)
    ensures Same(s, w)
  {
  }

  /** Up to its return an instruction leaves the stream alone, or is a dispatch that
      advances it. */
  lemma BeforePopLeaves(s: State, u: nat, upc: nat, io: Devices)
    requires upc > 0 && DestInRange(u)
    ensures LeavesStream(u) ==> Same(s, BeforePop(s, u, upc, io))
    ensures Op(u) == OP_DISPATCH && !LeavesStream(u) ==> Same(AdvanceLc(s, io).s, BeforePop(s, u, upc, io))
  {
    var t, m, a := Sourced(s, u), MSource(s, u).value, s.pads.aMem[ASrc(u)];
    SourceLeaves(s, u);
    hide Sourced, MSource, ExecAlu, ExecByte, JumpEffects, DispatchEffects, DispatchEntry, QuietDest, IsNop, TakeJump,
         AdvanceLc, PushedByDispatch;
    match Op(u) {
      case 0 => if !IsNop(u) && QuietDest(Dest(u)) { AluLeaves(t, u, m, a, io); }
      case 1 => if Misc(u) != 1 { JumpLeaves(t, u, m, a, TakeJump(t, u, m, a), upc); }
      case 2 =>
        EffectsLeave(t, u, io);
        AdvanceSame(s, t, io);
      case _ => if QuietDest(Dest(u)) { ByteLeaves(t, u, m, a, io); }
    }
  }

  // ---------------------------------------------------------------------
  // Cycles

  /** The instruction returns to an address with bit 14. */
  predicate NextMacro(s: State, u: nat, upc: nat, io: Devices)
    requires upc > 0 && DestInRange(u)
  {
    var r := BeforePop(s, u, upc, io).ring;
    PopsPc(s, u) && (r.spc[r.spcPtr] / 0x4000) % 2 == 1
  }

  /** The instruction advances the stream once: by its return, or by its dispatch. */
  predicate Advancing(s: State, u: nat, upc: nat, io: Devices)
    requires upc > 0 && DestInRange(u)
  {
    if LeavesStream(u) then NextMacro(s, u, upc, io) else Op(u) == OP_DISPATCH && !NextMacro(s, u, upc, io)
  }

  /** An instruction executed in state s, told from a state that is the same. */
  lemma ExecuteLeaves(t: State, s: State, u: nat, upc: nat, io: Devices)
    requires upc > 0 && DestInRange(u) && Same(t, s)
    ensures var s' := Execute(s, u, upc, io).s;
            && (LeavesStream(u) && !NextMacro(s, u, upc, io) ==> Same(t, s'))
            && (Advancing(s, u, upc, io) ==> Same(AdvanceLc(t, io).s, s'))
  {
    hide Execute, BeforePop, PopsPc, LeavesStream, AdvanceLc, PopTarget, Same;
    var b := BeforePop(s, u, upc, io);
    ExecuteSplits(s, u, upc, io);
    BeforePopLeaves(s, u, upc, io);
    if LeavesStream(u) {
      Through(t, s, b);
      PopSame(t, b, io);
    } else if Op(u) == OP_DISPATCH {
      AdvanceSame(t, s, io);
      Through(AdvanceLc(t, io).s, AdvanceLc(s, io).s, b);
      PopSame(AdvanceLc(t, io).s, b, io);
    }
  }

  lemma PreparedSame(s: State, inp: Input)
    ensures Same(Arrived(s), Prepared(s, inp))
  {
  }

  /** A cycle whose instruction leaves the stream alone is quiet, unless it returns to an
      address with bit 14. */
  lemma QuietCycle(m: Machine, inp: Input, lo: nat, hi: nat)
    requires Ready(m) && LeavesStream(Instruction(m))
    requires !NextMacro(Prepared(m.s, inp), Instruction(m), Prefetched(m) + 1, inp.io)
    ensures Quiet(m.s, Step(m, inp).s, lo, hi, inp.io)
  {
    hide Prepared, Instruction, Execute, LeavesStream, NextMacro, Same, Arrived, ReadMem, SameRegisters, SameWords;
    PreparedSame(m.s, inp);
    ExecuteLeaves(Arrived(m.s), Prepared(m.s, inp), Instruction(m), Prefetched(m) + 1, inp.io);
    SameQuiet(m.s, Step(m, inp).s, lo, hi, inp.io);
  }

  /** A cycle advances the stream if its instruction returns so, having left the stream
      alone, or is a dispatch with the advance bit that does not. */
  lemma AdvancingCycle(m: Machine, inp: Input, lo: nat, hi: nat)
    requires Ready(m) && Advancing(Prepared(m.s, inp), Instruction(m), Prefetched(m) + 1, inp.io)
    ensures Moves(m.s, Step(m, inp).s, lo, hi, inp.io)
  {
    hide Prepared, Instruction, Execute, Advancing, Same, Arrived, AdvanceLc, SameWords, SameRegisters;
    PreparedSame(m.s, inp);
    ExecuteLeaves(Arrived(m.s), Prepared(m.s, inp), Instruction(m), Prefetched(m) + 1, inp.io);
    SameMoves(m.s, Step(m, inp).s, lo, hi, inp.io);
  }

  /** Every cycle's instruction leaves the stream alone but for its return, or is an
      advancing dispatch. */
  ghost predicate StreamCode(m: Machine, ins: seq<Input>, io: Devices)
    requires RunReady(m, ins)
    decreases |ins|
  {
    ins == [] ||
      var s, u := Prepared(m.s, ins[0]), Instruction(m);
      && ins[0].io == io && (LeavesStream(u) || Advancing(s, u, Prefetched(m) + 1, io))
      && StreamCode(Step(m, ins[0]), ins[1..], io)
  }

  /** The stream theorems hold of every run of such instructions. */
  lemma {:induction false} StreamCodeRuns(m: Machine, ins: seq<Input>, lo: nat, hi: nat, io: Devices)
    requires RunReady(m, ins) && StreamCode(m, ins, io)
    ensures StreamRun(m, ins, lo, hi, io)
    decreases |ins|
  {
    hide Step, Instruction, Prepared, LeavesStream, NextMacro, Quiet, Moves;
    if ins != [] {
      var s, u := Prepared(m.s, ins[0]), Instruction(m);
      if Advancing(s, u, Prefetched(m) + 1, io) {
        AdvancingCycle(m, ins[0], lo, hi);
      } else {
        QuietCycle(m, ins[0], lo, hi);
      }
      StreamCodeRuns(Step(m, ins[0]), ins[1..], lo, hi, io);
    }
  }

  lemma SameQuiet(s: State, t: State, lo: nat, hi: nat, io: Devices)
    requires Same(Arrived(s), t)
    ensures Quiet(s, t, lo, hi, io)
  {
    hide SameRegisters, SameWords;
    FramesRead(s, t, lo, hi, io);
  }

  lemma SameMoves(s: State, t: State, lo: nat, hi: nat, io: Devices)
    requires Same(AdvanceLc(Arrived(s), io).s, t)
    ensures Moves(s, t, lo, hi, io)
  {
    hide AdvanceLc, SameRegisters, SameWords;
    AdvanceKeepsFrames(Arrived(s), io);
    FramesRead(s, t, lo, hi, io);
  }

  lemma FramesRead(s: State, t: State, lo: nat, hi: nat, io: Devices)
    requires t.mem.l1 == s.mem.l1 && t.mem.l2 == s.mem.l2 && t.mem.table == s.mem.table && t.mem.frames == s.mem.frames
    ensures SameWords(s, t, lo, hi, io)
  {
    hide ReadMem;
    var t1 := s.(mem := t.mem);
    SameIsSameWords(s, t1, lo, hi, io);
    forall va: word | lo <= va < hi ensures ReadMem(t, va, io).value == ReadMem(t1, va, io).value {
      SameReads(t1, t, va, io);
    }
  }
}
