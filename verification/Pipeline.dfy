/** The fetch pipeline of run() and the sequential machine it implements. */
module Pipeline {
  import opened Words
  import opened Mem
  import opened MicroWord
  import opened Cpu

  /** run()'s locals: the prefetched word, its address, the fetch address and
      whether the prefetched word is to be skipped. */
  datatype Machine = Machine(s: State, p1: nat, p1pc: nat, upc: nat, annul: bool)

  predicate FetchInRange(m: Machine) {
    PcInRange(m.s, m.upc) && (m.annul ==> PcInRange(m.s, m.upc + 1))
  }

  /** The word and address the next cycle executes. */
  function Executing(m: Machine): nat
    requires FetchInRange(m)
  {
    if m.annul then Fetch(m.s, m.upc) else m.p1
  }

  function ExecutingPc(m: Machine): nat { if m.annul then m.upc else m.p1pc }

  /** The address prefetched under the instruction the next cycle executes. */
  function Prefetched(m: Machine): nat { m.upc + (if m.annul then 1 else 0) }

  function Instruction(m: Machine): nat
    requires FetchInRange(m)
  {
    Modified(m.s, Executing(m))
  }

  /** The loop turns: the machine runs and its next cycle stays inside its memories. */
  predicate Ready(m: Machine) {
    m.s.store.running && FetchInRange(m) && DestInRange(Instruction(m))
  }

  /** One turn of the loop. */
  function Step(m: Machine, inp: Input): Machine
    requires Ready(m)
  {
    var skip := if m.annul then 1 else 0;
    var upc := m.upc + skip + 1;
    var c := Execute(Prepared(m.s, inp), Instruction(m), upc, inp.io);
    Machine(c.s, Fetch(m.s, m.upc + skip), m.upc + skip, c.upc, c.annul)
  }

  /** The machine when run() is entered. */
  function Reset(s: State): Machine { Machine(s, 0, 0, 0, false) }

  // ---------------------------------------------------------------------
  // The sequential machine: an address, and the address after it.

  datatype Seq = Seq(s: State, cur: nat, next: nat)

  predicate SeqReady(q: Seq) {
    && q.s.store.running && PcInRange(q.s, q.cur) && PcInRange(q.s, q.next)
    && DestInRange(SeqInstruction(q))
  }

  function SeqInstruction(q: Seq): nat
    requires PcInRange(q.s, q.cur)
  {
    Modified(q.s, Fetch(q.s, q.cur))
  }

  function FallThrough(q: Seq, s: State): Seq { Seq(s, q.next, q.next + 1) }

  /** Transfer to t: after the next instruction, or with N instead of it. */
  function Transfer(q: Seq, s: State, t: nat, n: bool): Seq {
    if n then Seq(s, t, t + 1) else Seq(s, q.next, t)
  }

  function FallOrPop(q: Seq, s: State, u: nat, io: Devices): Seq {
    if PopJ(u) then
      var p := PopTarget(s, io);
      Transfer(q, p.s, p.target, false)
    else FallThrough(q, s)
  }

  /** Where a call comes back to: past the instruction executed under it. */
  function ReturnAddress(q: Seq, n: bool): nat { if n then q.next else q.next + 1 }

  /** A jump that would call and return at once leaves only the slot above the
      ring pointer overwritten. */
  function Scratch(s: State, v: word): State { s.(ring := s.ring.(spc := s.ring.spc[(s.ring.spcPtr + 1) % 32 := v])) }

  function SeqJump(q: Seq, s: State, u: nat, m: word, a: word, io: Devices): Seq {
    if Misc(u) == 1 then FallOrPop(q, s.(store := s.store.(running := false)), u, io)
    else if !TakeJump(s, u, m, a) then FallOrPop(q, WriteControlStore(s, u, m, a), u, io)
    else if PBit(u) && RBit(u) then
      FallThrough(q, WriteControlStore(Scratch(s, Wrap(ReturnAddress(q, NBit(u)))), u, m, a))
    else if RBit(u) then
      var p := PopTarget(s, io);
      Transfer(q, p.s, p.target, NBit(u))
    else if PBit(u) then
      Transfer(q, PushSpc(s, Wrap(ReturnAddress(q, NBit(u)))), JumpTarget(u), NBit(u))
    else Transfer(q, s, JumpTarget(u), NBit(u))
  }

  /** A dispatch falls through on P and R, skipping the next instruction on N; its
      N+1 bit makes N return to the dispatch itself, or not skip. */
  function SeqDispatch(q: Seq, s: State, u: nat, m: word, a: word, io: Devices): Seq
  {
    if Misc(u) == 2 then FallOrPop(q, s.(pads := s.pads.(dispMem := s.pads.dispMem[DispAddr(u) := a])), u, io)
    else
      var e, s1 := DispatchEntry(s, u, m), DispatchEffects(s, u, io);
      var n := EntryN(e);
      if EntryP(e) && EntryR(e) then
        if !n then FallOrPop(q, s1, u, io)
        else if PopJ(u) then
          var p := PopTarget(s1, io);
          Transfer(q, p.s, p.target, true)
        else Transfer(q, s1, if NPlus1(u) then q.next else q.next + 1, true)
      else if EntryR(e) then
        var p := PopTarget(s1, io);
        Transfer(q, p.s, p.target, n)
      else if EntryP(e) then
        Transfer(q, PushSpc(s1, Wrap(if n && NPlus1(u) then q.next - 1 else ReturnAddress(q, n))),
                 EntryTarget(e), n)
      else Transfer(q, s1, EntryTarget(e), n)
  }

  function SeqExecute(q: Seq, s: State, u: nat, io: Devices): Seq
    requires DestInRange(u)
  {
    var a, src := s.pads.aMem[ASrc(u)], MSource(s, u);
    if Op(u) == OP_ALU && IsNop(u) then FallThrough(q, s.(alu := s.alu.(mLatch := src.value)))
    else
      var s1 := src.s.(alu := src.s.alu.(mLatch := 0));
      match Op(u)
      case 0 => FallOrPop(q, ExecAlu(s1, u, src.value, a, io), u, io)
      case 1 => SeqJump(q, s1, u, src.value, a, io)
      case 2 => SeqDispatch(q, s1, u, src.value, a, io)
      case _ => FallOrPop(q, ExecByte(s1, u, src.value, a, io), u, io)
  }

  function SeqStep(q: Seq, inp: Input): Seq
    requires SeqReady(q)
  {
    SeqExecute(q, Prepared(q.s, inp), SeqInstruction(q), inp.io)
  }

  // ---------------------------------------------------------------------
  // Refinement

  /** The pipeline stands for the sequential machine: in a normal cycle with its
      prefetched word intact, in an annulled one with both words still to fetch. */
  ghost predicate Stands(m: Machine, q: Seq) {
    && m.s == q.s
    && if m.annul then m.upc == q.cur && q.next == q.cur + 1
       else m.p1pc == q.cur && m.upc == q.next && PrefetchIntact(m)
  }

  /** Nothing has rewritten the prefetched word since it was fetched. */
  predicate PrefetchIntact(m: Machine) {
    !m.annul ==> PcInRange(m.s, m.p1pc) && Fetch(m.s, m.p1pc) == m.p1
  }

  /** What a control decision of the emulator means to the sequential machine. */
  function Meaning(q: Seq, c: Control): Seq {
    if c.annul then Seq(c.s, c.upc, c.upc + 1) else Seq(c.s, q.next, c.upc)
  }

  lemma JumpMeans(q: Seq, s: State, u: nat, m: word, a: word, io: Devices)
    requires q.next + 1 < 0x4000
    ensures Meaning(q, ExecJump(s, u, m, a, q.next + 1, io)) == SeqJump(q, s, u, m, a, io)
  {
    if PBit(u) && RBit(u) {
      PushThenPop(s, u, m, a, ReturnAddress(q, NBit(u)), io);
    } else {
      NoStoreWrite(s, u, m, a);
      NoStoreWrite(PushSpc(s, Wrap(ReturnAddress(q, NBit(u)))), u, m, a);
    }
    hide TakeJump, PopTarget, WriteControlStore, PushSpc, Scratch;
  }

  lemma NoStoreWrite(s: State, u: nat, m: word, a: word)
    requires !(PBit(u) && RBit(u))
    ensures WriteControlStore(s, u, m, a) == s
  {
  }

  lemma PopPlain(s: State, ret: nat, io: Devices)
    requires ret < 0x4000 && s.ring.spc[s.ring.spcPtr] == ret
    ensures PopTarget(s, io) == Popped(DropSpc(s), ret)
  {
    hide AdvanceLc;
  }

  /** The control-store write does not touch the ring, so pushing an address and
      popping it again yields the address and the old pointer. */
  lemma PushThenPop(s: State, u: nat, m: word, a: word, ret: nat, io: Devices)
    requires ret < 0x4000
    ensures var p := PopTarget(WriteControlStore(PushSpc(s, Wrap(ret)), u, m, a), io);
            p.target == ret && p.s == WriteControlStore(Scratch(s, Wrap(ret)), u, m, a)
  {
    hide StoreAfter, PopTarget;
    PopPlain(WriteControlStore(PushSpc(s, ret), u, m, a), ret, io);
  }

  lemma DispatchMeans(q: Seq, s: State, u: nat, m: word, a: word, io: Devices)
    ensures Meaning(q, ExecDispatch(s, u, m, a, q.next + 1, io)) == SeqDispatch(q, s, u, m, a, io)
  {
    hide DispatchEntry, DispatchEffects, PopTarget;
  }

  lemma ExecuteMeans(q: Seq, s: State, u: nat, io: Devices)
    requires DestInRange(u) && q.next + 1 < 0x4000
    ensures Meaning(q, Execute(s, u, q.next + 1, io)) == SeqExecute(q, s, u, io)
  {
    var a, src := s.pads.aMem[ASrc(u)], MSource(s, u);
    var s1 := src.s.(alu := src.s.alu.(mLatch := 0));
    if Op(u) == OP_JUMP {
      JumpMeans(q, s1, u, src.value, a, io);
    } else if Op(u) == OP_DISPATCH {
      DispatchMeans(q, s1, u, src.value, a, io);
    }
    hide ExecAlu, ExecByte, SeqJump, SeqDispatch, ExecJump, ExecDispatch, MSource, PopTarget;
  }

  lemma SameInstruction(m: Machine, q: Seq)
    requires Stands(m, q) && Ready(m) && SeqReady(q)
    ensures Instruction(m) == SeqInstruction(q) && ExecutingPc(m) == q.cur
    ensures m.upc + (if m.annul then 1 else 0) == q.next
    ensures m.s == q.s && FetchInRange(m) && DestInRange(Instruction(m)) && PcInRange(q.s, q.cur)
  {
    hide Modified, DestInRange;
  }

  lemma StepMeans(m: Machine, q: Seq, inp: Input)
    requires Stands(m, q) && Ready(m) && SeqReady(q) && q.next + 1 < 0x4000
    ensures var m' := Step(m, inp);
            && SeqStep(q, inp) == Meaning(q, Control(m'.s, m'.upc, m'.annul))
            && m'.p1pc == q.next
  {
    hide Execute, SeqExecute, Prepared, DestInRange, Instruction, SeqInstruction, Stands, PcInRange, Fetch,
         Ready, SeqReady;
    SameInstruction(m, q);
    ExecuteMeans(q, Prepared(m.s, inp), Instruction(m), inp.io);
  }

  /** While the pipeline stands for it, the sequential machine can run when the
      pipeline can. */
  lemma ReadyMeansSeqReady(m: Machine, q: Seq)
    requires Stands(m, q) && Ready(m)
    ensures SeqReady(q)
  {
    hide DestInRange, Modified;
  }
}
