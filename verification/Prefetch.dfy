/** When an instruction rewrites the word already prefetched, told before it is
    executed, and what that does to the refinement. */
module Prefetch {
  import opened Words
  import opened Mem
  import opened MicroWord
  import opened Cpu
  import opened Pipeline
  import ByteUnit

  // ---------------------------------------------------------------------
  // What an instruction does to the PROM switch and the control store

  /** A store of v at va reaches the Unibus register that turns the PROM off. */
  predicate HitsPromSwitch(m: MemData, va: word, v: word) {
    && Accessible(Entry(m, va)) && Writable(Entry(m, va))
    && PageNumber(Entry(m, va)) == 0x3FF6 && va % 0x100 == 5 && And(v, 0x24) == 0x24
  }

  /** Destinations 022 and 032 store MD at VMA, after loading one of them. */
  predicate DestDisables(s: State, dest: nat, v: word) {
    dest < 2048 && (if dest / 32 == 18 then HitsPromSwitch(s.mem, v, s.bus.md)
                    else dest / 32 == 26 && HitsPromSwitch(s.mem, s.bus.vma, v))
  }

  /** The state after the M source is read. */
  function Sourced(s: State, u: nat): State {
    var t := MSource(s, u).s;
    t.(alu := t.alu.(mLatch := 0))
  }

  /** The instruction turns the PROM off. */
  predicate DisablesProm(s: State, u: nat) {
    var t, m, a := Sourced(s, u), MSource(s, u).value, s.pads.aMem[ASrc(u)];
    match Op(u)
    case 0 => !IsNop(u) && DestDisables(t, Dest(u), AluBus(t, u, m, a))
    case 3 => DestDisables(t, Dest(u), ByteUnit.Byte(ByteFunc(u), m, a, Position(t, u), WidthM1(u)))
    case _ => false
  }

  /** The instruction writes the control store: a jump with P and R. */
  predicate WritesStore(u: nat) { Op(u) == OP_JUMP && Misc(u) != 1 && PBit(u) && RBit(u) }

  function StoredWord(s: State, u: nat): nat {
    (s.pads.aMem[ASrc(u)] % 0x1_0000) * 0x1_0000_0000 + JumpM(u, MSource(s, u).value)
  }

  /** A jump that is taken with N annuls the prefetched word. */
  predicate TakenWithN(s: State, u: nat) {
    NBit(u) && TakeJump(Sourced(s, u), u, MSource(s, u).value, s.pads.aMem[ASrc(u)])
  }

  /** Stores s and t differ at most by the PROM having been turned off. */
  predicate SwitchedOff(s: Stores, t: Stores, off: bool) {
    t == s.(promEnabled := s.promEnabled && !off)
  }

  lemma ReadStore(s: State, va: word, io: Devices)
    ensures ReadMem(s, va, io).s.store == s.store
  {
    hide Entry, NoteWalk, FrameWord;
  }

  lemma WriteStore(s: State, va: word, v: word)
    ensures SwitchedOff(s.store, WriteMem(s, va, v).s.store, HitsPromSwitch(s.mem, va, v))
  {
    hide Entry, NoteWalk, StoreWord, Masked, And;
  }

  lemma AdvanceStore(s: State, io: Devices)
    ensures AdvanceLc(s, io).s.store == s.store
  {
    forall s1: State, va: word ensures ReadMem(s1, va, io).s.store == s1.store { ReadStore(s1, va, io); }
    hide ReadMem;
  }

  lemma PopStore(s: State, u: nat, upc: nat, io: Devices)
    ensures PopTarget(s, io).s.store == s.store && MaybePop(s, u, upc, io).s.store == s.store
    ensures !MaybePop(s, u, upc, io).annul
  {
    AdvanceStore(DropSpc(s), io);
    hide AdvanceLc;
  }

  lemma SourceStore(s: State, u: nat)
    ensures Sourced(s, u).store == s.store
  {
    hide MapSource, StackTop, NoteWalk;
  }

  lemma FunctionStore(s: State, func: nat, v: word, io: Devices)
    requires func < 64
    ensures SwitchedOff(s.store, WriteFunction(s, func, v, io).store, DestDisables(s, 32 * func, v))
  {
    hide ReadMem, WriteMem, WriteMap, HitsPromSwitch, LcWritten;
    match func
    case 17 => ReadStore(s.(bus := s.bus.(vma := v)), v, io);
    case 18 => WriteStore(s.(bus := s.bus.(vma := v)), v, s.bus.md);
    case 25 => ReadStore(s.(bus := s.bus.(md := v)), s.bus.vma, io);
    case 26 => WriteStore(s.(bus := s.bus.(md := v)), s.bus.vma, v);
    case _ =>
  }

  lemma DestStore(s: State, dest: nat, v: word, io: Devices)
    requires dest < 3072
    ensures SwitchedOff(s.store, WriteDest(s, dest, v, io).store, DestDisables(s, dest, v))
  {
    if dest < 2048 { FunctionStore(s, dest / 32, v, io); }
    hide WriteFunction, HitsPromSwitch;
  }

  lemma AluStore(s: State, u: nat, m: word, a: word, io: Devices)
    requires Dest(u) < 3072
    ensures SwitchedOff(s.store, ExecAlu(s, u, m, a, io).store, DestDisables(s, Dest(u), AluBus(s, u, m, a)))
  {
    forall s1: State | s1.store == s.store && s1.mem == s.mem && s1.bus == s.bus
      ensures SwitchedOff(s.store, WriteDest(s1, Dest(u), AluBus(s, u, m, a), io).store,
                          DestDisables(s, Dest(u), AluBus(s, u, m, a)))
    {
      DestStore(s1, Dest(u), AluBus(s, u, m, a), io);
    }
    hide WriteDest, AluBus, DestDisables, SwitchedOff;
  }

  lemma JumpStore(s: State, u: nat, m: word, a: word, upc: nat, io: Devices)
    ensures var c := ExecJump(s, u, m, a, upc, io);
            && c.s.store.prom == s.store.prom && c.s.store.promEnabled == s.store.promEnabled
            && c.s.store.ucode == (if Misc(u) == 1 then s.store.ucode else StoreAfter(s.store.ucode, u, m, a))
            && c.annul == (Misc(u) != 1 && NBit(u) && TakeJump(s, u, m, a))
  {
    forall s1: State ensures PopTarget(s1, io).s.store == s1.store
      ensures MaybePop(s1, u, upc, io).s.store == s1.store && !MaybePop(s1, u, upc, io).annul
    {
      PopStore(s1, u, upc, io);
    }
    hide PopTarget, MaybePop, TakeJump, StoreAfter;
  }

  lemma EffectsStore(s: State, u: nat, io: Devices)
    ensures DispatchEffects(s, u, io).store == s.store
  {
    var s1 := if DispMap(u) != 0 then s.(mem := NoteWalk(s.mem, s.bus.md)) else s;
    AdvanceStore(s1.(ctl := s1.ctl.(dispConst := DispConst(u))), io);
    hide AdvanceLc, NoteWalk;
  }

  lemma TransferStore(s: State, u: nat, e: word, upc: nat, io: Devices)
    requires upc > 0
    ensures DispatchTransfer(s, u, e, upc, io).s.store == s.store
  {
    forall s1: State, pc: nat ensures PopTarget(s1, io).s.store == s1.store
      ensures MaybePop(s1, u, pc, io).s.store == s1.store
    {
      PopStore(s1, u, pc, io);
    }
    hide PopTarget, MaybePop;
  }

  lemma DispatchStore(s: State, u: nat, m: word, a: word, upc: nat, io: Devices)
    requires upc > 0
    ensures ExecDispatch(s, u, m, a, upc, io).s.store == s.store
  {
    if Misc(u) == 2 {
      PopStore(s.(pads := s.pads.(dispMem := s.pads.dispMem[DispAddr(u) := a])), u, upc, io);
    } else {
      EffectsStore(s, u, io);
      TransferStore(DispatchEffects(s, u, io), u, DispatchEntry(s, u, m), upc, io);
    }
    hide MaybePop, DispatchTransfer, DispatchEntry, DispatchEffects;
  }

  /** What executing an instruction does to the stores, and when it annuls. */
  lemma ExecuteStore(s: State, u: nat, upc: nat, io: Devices)
    requires upc > 0 && DestInRange(u)
    ensures var c := Execute(s, u, upc, io);
            && c.s.store.prom == s.store.prom
            && c.s.store.promEnabled == (s.store.promEnabled && !DisablesProm(s, u))
            && c.s.store.ucode == (if WritesStore(u) then s.store.ucode[JumpTarget(u) := StoredWord(s, u)]
                                   else s.store.ucode)
            && (DisablesProm(s, u) ==> !c.annul) && (WritesStore(u) ==> c.annul == TakenWithN(s, u))
    ensures JumpTarget(u) < 0x4000 && !(DisablesProm(s, u) && WritesStore(u))
  {
    hide MSource, ExecAlu, ExecByte, MaybePop, ExecJump, ExecDispatch, DestDisables, AluBus, TakeJump, JumpM,
         IsNop, Position, ByteUnit.Byte;
    var t, m, a := Sourced(s, u), MSource(s, u).value, s.pads.aMem[ASrc(u)];
    SourceStore(s, u);
    match Op(u) {
      case 0 =>
        if IsNop(u) {
          NopStore(s, u);
        } else {
          AluStore(t, u, m, a, io);
          PopStore(ExecAlu(t, u, m, a, io), u, upc, io);
        }
      case 1 => JumpStore(t, u, m, a, upc, io);
      case 2 => DispatchStore(t, u, m, a, upc, io);
      case _ =>
        ByteStore(t, u, m, a, io);
        PopStore(ExecByte(t, u, m, a, io), u, upc, io);
    }
  }

  lemma ByteStore(s: State, u: nat, m: word, a: word, io: Devices)
    requires Dest(u) < 3072
    ensures var v := ByteUnit.Byte(ByteFunc(u), m, a, Position(s, u), WidthM1(u));
            SwitchedOff(s.store, ExecByte(s, u, m, a, io).store, DestDisables(s, Dest(u), v))
  {
    DestStore(s, Dest(u), ByteUnit.Byte(ByteFunc(u), m, a, Position(s, u), WidthM1(u)), io);
  }

  lemma NopStore(s: State, u: nat)
    requires IsNop(u)
    ensures MSource(s, u).s == s
  {
    NopReadsM0(u);
    hide IsNop, MapSource, StackTop, NoteWalk;
  }

  // ---------------------------------------------------------------------
  // The prefetched word

  /** The cycle rewrites the word it prefetches: it turns the PROM off where PROM and
      control store differ, or it writes another word there without annulling it. */
  predicate Overwrites(m: Machine, inp: Input)
    requires Ready(m)
  {
    var s, u, next := Prepared(m.s, inp), Instruction(m), Prefetched(m);
    if m.s.store.promEnabled then DisablesProm(s, u) && m.s.store.prom[next] != m.s.store.ucode[next]
    else
      && WritesStore(u) && JumpTarget(u) == next && StoredWord(s, u) != m.s.store.ucode[next]
      && !TakenWithN(s, u)
  }

  lemma PreparedStore(s: State, inp: Input)
    ensures Prepared(s, inp).store == s.store
  {
  }

  /** So told before the cycle, the prefetched word is intact after it or not. */
  lemma IntactUnlessOverwritten(m: Machine, inp: Input)
    requires Ready(m)
    ensures PrefetchIntact(Step(m, inp)) <==> !Overwrites(m, inp)
  {
    hide Execute, Prepared, Instruction, DisablesProm, WritesStore, JumpTarget, StoredWord, TakenWithN, DestInRange;
    PreparedStore(m.s, inp);
    ExecuteStore(Prepared(m.s, inp), Instruction(m), Prefetched(m) + 1, inp.io);
  }

  /** One turn of the loop is one step of the sequential machine exactly unless the
      cycle overwrites the word it prefetches. */
  lemma StepRefines(m: Machine, q: Seq, inp: Input)
    requires Stands(m, q) && Ready(m) && q.next + 1 < 0x4000
    ensures SeqReady(q)
    ensures Stands(Step(m, inp), SeqStep(q, inp)) <==> !Overwrites(m, inp)
  {
    hide Stands, Ready, SeqReady, Overwrites, PrefetchIntact, Step, SeqStep;
    ReadyMeansSeqReady(m, q);
    StepMeans(m, q, inp);
    IntactUnlessOverwritten(m, inp);
    StandsMeans(Step(m, inp), SeqStep(q, inp), q);
  }

  lemma StandsMeans(m: Machine, q: Seq, before: Seq)
    requires q == Meaning(before, Control(m.s, m.upc, m.annul)) && m.p1pc == before.next
    ensures Stands(m, q) <==> PrefetchIntact(m)
  {
    hide Fetch, PcInRange;
  }

  /** When it does, both machines go to the same address in the same state, but the
      loop executes the word as it was prefetched where the sequential machine
      executes the new one. */
  lemma StaleWordExecuted(m: Machine, q: Seq, inp: Input)
    requires Stands(m, q) && Ready(m) && q.next + 1 < 0x4000 && Overwrites(m, inp)
    ensures SeqReady(q)
    ensures var m', q' := Step(m, inp), SeqStep(q, inp);
            && !m'.annul && m'.s == q'.s && m'.p1pc == q'.cur && m'.upc == q'.next
            && PcInRange(m.s, q'.cur) && PcInRange(q'.s, q'.cur)
            && m'.p1 == Fetch(m.s, q'.cur) && m'.p1 != Fetch(q'.s, q'.cur)
            && (FetchInRange(m') ==> Executing(m') == Fetch(m.s, q'.cur))
  {
    hide Stands, Ready, SeqReady, SeqStep;
    ReadyMeansSeqReady(m, q);
    StepMeans(m, q, inp);
    OverwrittenWord(m, inp);
    hide Step, Overwrites;
  }

  lemma OverwrittenWord(m: Machine, inp: Input)
    requires Ready(m) && Overwrites(m, inp)
    ensures var m' := Step(m, inp);
            && !m'.annul && PcInRange(m.s, m'.p1pc) && PcInRange(m'.s, m'.p1pc)
            && m'.p1 == Fetch(m.s, m'.p1pc) && m'.p1 != Fetch(m'.s, m'.p1pc)
  {
    hide Execute, Prepared, Instruction, DisablesProm, WritesStore, JumpTarget, StoredWord, TakenWithN, DestInRange;
    PreparedStore(m.s, inp);
    ExecuteStore(Prepared(m.s, inp), Instruction(m), Prefetched(m) + 1, inp.io);
  }

  /** An untaken jump with P and R to address 1, of M[0] and A[0]. */
  const STORE_AT_1 := 0x800_0000_1320

  /** It happens: such a jump at address 0 of a cleared RAM control store, with a one
      in M[0], writes address 1 while 0 is what was prefetched from there. */
  lemma OverwriteHappens(prom: Prom, mem: Memory, inp: Input)
    ensures var s := Cleared(prom, mem);
            var s1 := s.(pads := s.pads.(mMem := s.pads.mMem[0 := 1]), store := s.store.(promEnabled := false));
            var m := Machine(s1, STORE_AT_1, 0, 1, false);
            Ready(m) && Overwrites(m, inp)
  {
    var s := Cleared(prom, mem);
    var s1 := s.(pads := s.pads.(mMem := s.pads.mMem[0 := 1]), store := s.store.(promEnabled := false));
    var m, u := Machine(s1, STORE_AT_1, 0, 1, false), STORE_AT_1;
    assert Op(u) == OP_JUMP && Misc(u) == 0 && PBit(u) && RBit(u) && !NBit(u) && ConditionCoded(u);
    assert JumpTarget(u) == 1 && ASrc(u) == 0 && MSrc(u) == 0;
    assert Instruction(m) == u;
    assert Prepared(s1, inp).pads == s1.pads;
    hide Cleared, Op, Misc, PBit, RBit, NBit, ConditionCoded, JumpTarget, ASrc, MSrc, Prepared;
  }
}
