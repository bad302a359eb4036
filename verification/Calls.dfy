/** Calls that come back through the ring of micro-return addresses, over whole runs. */
module Calls {
  import opened Words
  import opened Mem
  import opened MicroWord
  import opened Cpu
  import opened Pipeline
  import opened Prefetch
  import opened Sequencing
  import opened Transfers
  import ByteUnit

  // ---------------------------------------------------------------------
  // The micro-return ring

  datatype SpcOp = Push(value: word) | Pop

  function Apply(r: MicroStack, op: SpcOp): MicroStack {
    match op
    case Push(v) =>
      var p := (r.spcPtr + 1) % 32;
      MicroStack(r.spc[p := v], p)
    case Pop => r.(spcPtr := (r.spcPtr + 31) % 32)
  }

  function ApplyAll(r: MicroStack, ops: seq<SpcOp>): MicroStack
    decreases |ops|
  {
    if ops == [] then r else ApplyAll(Apply(r, ops[0]), ops[1..])
  }

  /** From nesting depth d the operations never pop below depth 0. */
  predicate Stays(ops: seq<SpcOp>, d: nat)
    decreases |ops|
  {
    if ops == [] then true
    else match ops[0]
      case Push(_) => Stays(ops[1..], d + 1)
      case Pop => d > 0 && Stays(ops[1..], d - 1)
  }

  function EndDepth(ops: seq<SpcOp>, d: nat): nat
    requires Stays(ops, d)
    decreases |ops|
  {
    if ops == [] then d
    else match ops[0]
      case Push(_) => EndDepth(ops[1..], d + 1)
      case Pop => EndDepth(ops[1..], d - 1)
  }

  /** How deep the operations get. */
  function Deepest(ops: seq<SpcOp>, d: nat): nat
    requires Stays(ops, d)
    decreases |ops|
  {
    if ops == [] then d
    else
      var rest := if ops[0].Push? then Deepest(ops[1..], d + 1) else Deepest(ops[1..], d - 1);
      if rest > d then rest else d
  }

  /** Every push is popped again, and nothing else is. */
  predicate Bracketed(ops: seq<SpcOp>) { Stays(ops, 0) && EndDepth(ops, 0) == 0 }

  /** The values pushed onto the slot of depth 0, which is that of every depth that is
      a multiple of 32, in order. */
  function Clobbers(ops: seq<SpcOp>, d: nat): seq<word>
    requires Stays(ops, d)
    decreases |ops|
  {
    if ops == [] then []
    else match ops[0]
      case Push(v) => (if (d + 1) % 32 == 0 then [v] else []) + Clobbers(ops[1..], d + 1)
      case Pop => Clobbers(ops[1..], d - 1)
  }

  function Latest(v: word, vs: seq<word>): word { if vs == [] then v else vs[|vs| - 1] }

  lemma LatestOfMore(v: word, w: word, vs: seq<word>)
    ensures Latest(w, vs) == Latest(v, [w] + vs)
  {
  }

  /** Operations of any depth: where the pointer ends, and what the slot of depth 0
      then holds. */
  lemma {:induction false} RingHolds(r: MicroStack, ops: seq<SpcOp>, d: nat, top: index5)
    requires Stays(ops, d) && r.spcPtr == (top + d) % 32
    ensures var r' := ApplyAll(r, ops);
            r'.spcPtr == (top + EndDepth(ops, d)) % 32 && r'.spc[top] == Latest(r.spc[top], Clobbers(ops, d))
    decreases |ops|
  {
    hide Apply;
    if ops != [] {
      OneOperation(r, ops[0], d, top);
      match ops[0]
      case Push(v) =>
        RingHolds(Apply(r, ops[0]), ops[1..], d + 1, top);
        if (d + 1) % 32 == 0 {
          LatestOfMore(r.spc[top], v, Clobbers(ops[1..], d + 1));
        } else {
          assert Clobbers(ops, d) == Clobbers(ops[1..], d + 1);
        }
      case Pop => RingHolds(Apply(r, ops[0]), ops[1..], d - 1, top);
    }
  }

  /** One operation at depth d, seen from the slot of depth 0. */
  lemma OneOperation(r: MicroStack, op: SpcOp, d: nat, top: index5)
    requires r.spcPtr == (top + d) % 32 && (op.Pop? ==> d > 0)
    ensures var r' := Apply(r, op);
            && r'.spcPtr == (top + (if op.Push? then d + 1 else d - 1)) % 32
            && r'.spc[top] == if op.Push? && (d + 1) % 32 == 0 then op.value else r.spc[top]
  {
    SlotOfDepth(top, d + 1);
    PointerMoves(top + d);
  }

  lemma PointerMoves(x: nat)
    ensures (x % 32 + 1) % 32 == (x + 1) % 32 && (x > 0 ==> (x % 32 + 31) % 32 == (x - 1) % 32)
  {
  }

  lemma SlotOfDepth(top: index5, d: nat)
    ensures (top + d) % 32 == top <==> d % 32 == 0
  {
  }

  /** What a return finds after `ops` were done under a push of v. */
  function Found(v: word, ops: seq<SpcOp>): word
    requires Stays(ops, 0)
  {
    Latest(v, Clobbers(ops, 0))
  }

  /** After a push and bracketed operations of any depth the pointer is back, and the
      top is the pushed address exactly if no push reached a multiple of 32 levels
      under it, or the last that did pushed the same address. */
  lemma ReturnFinds(r: MicroStack, v: word, ops: seq<SpcOp>)
    requires Bracketed(ops)
    ensures var r', over := ApplyAll(Apply(r, Push(v)), ops), Clobbers(ops, 0);
            && r'.spcPtr == (r.spcPtr + 1) % 32 && Apply(r', Pop).spcPtr == r.spcPtr
            && r'.spc[r'.spcPtr] == Found(v, ops)
            && (r'.spc[r'.spcPtr] == v <==> over == [] || over[|over| - 1] == v)
  {
    var r1 := Apply(r, Push(v));
    RingHolds(r1, ops, 0, r1.spcPtr);
  }

  /** Nested at most 31 deep, no push does: with its own level, the ring holds 32. */
  lemma {:induction false} ShallowClobbersNothing(ops: seq<SpcOp>, d: nat)
    requires Stays(ops, d) && Deepest(ops, d) <= 31
    ensures Clobbers(ops, d) == []
    decreases |ops|
  {
    if ops != [] {
      match ops[0]
      case Push(_) =>
        ShallowClobbersNothing(ops[1..], d + 1);
        DeepestFromHere(ops[1..], d + 1);
      case Pop => ShallowClobbersNothing(ops[1..], d - 1);
    }
  }

  lemma DeepestFromHere(ops: seq<SpcOp>, d: nat)
    requires Stays(ops, d)
    ensures Deepest(ops, d) >= d
  {
  }

  function Pushes(vs: seq<word>): seq<SpcOp>
    decreases |vs|
  {
    if vs == [] then [] else [Push(vs[0])] + Pushes(vs[1..])
  }

  /** One level more does: the last of thirty-two pushes lands on the address. */
  lemma ThirtyThirdOverwrites(r: MicroStack, v: word, vs: seq<word>)
    requires |vs| == 32
    ensures var r1 := Apply(r, Push(v));
            var r2 := ApplyAll(r1, Pushes(vs));
            r2.spcPtr == r1.spcPtr && r2.spc[r1.spcPtr] == vs[31]
  {
    var r1 := Apply(r, Push(v));
    PushesClobber(vs, 0);
    RingHolds(r1, Pushes(vs), 0, r1.spcPtr);
  }

  lemma {:induction false} PushesClobber(vs: seq<word>, d: nat)
    requires d + |vs| == 32
    ensures Stays(Pushes(vs), d) && EndDepth(Pushes(vs), d) == 32
    ensures vs != [] ==> Clobbers(Pushes(vs), d) == [vs[|vs| - 1]]
    decreases |vs|
  {
    hide Stays, EndDepth, Clobbers, Pushes;
    if vs == [] {
      NothingPushed(d);
    } else {
      PushesStep(vs);
      PushesClobber(vs[1..], d + 1);
      PushFirst(vs[0], Pushes(vs[1..]), d);
      if |vs| == 1 {
        NothingPushed(d + 1);
        assert vs[1..] == [];
        assert Clobbers(Pushes(vs), d) == [vs[0]] + [];
      } else {
        assert Clobbers(Pushes(vs), d) == [] + Clobbers(Pushes(vs[1..]), d + 1);
      }
    }
  }

  lemma PushesStep(vs: seq<word>)
    requires vs != []
    ensures Pushes(vs) == [Push(vs[0])] + Pushes(vs[1..])
  {
  }

  lemma NothingPushed(d: nat)
    ensures Pushes([]) == [] && Stays([], d) && EndDepth([], d) == d && Clobbers([], d) == []
  {
  }

  lemma PushFirst(v: word, ops: seq<SpcOp>, d: nat)
    requires Stays(ops, d + 1)
    ensures Stays([Push(v)] + ops, d) && EndDepth([Push(v)] + ops, d) == EndDepth(ops, d + 1)
    ensures Clobbers([Push(v)] + ops, d) == (if (d + 1) % 32 == 0 then [v] else []) + Clobbers(ops, d + 1)
  {
    assert ([Push(v)] + ops)[1..] == ops;
  }

  lemma {:induction false} ClobbersJoin(a: seq<SpcOp>, b: seq<SpcOp>, d: nat)
    requires Stays(a, d) && Stays(b, EndDepth(a, d))
    ensures Stays(a + b, d) && EndDepth(a + b, d) == EndDepth(b, EndDepth(a, d))
    ensures Clobbers(a + b, d) == Clobbers(a, d) + Clobbers(b, EndDepth(a, d))
    decreases |a|
  {
    if a == [] {
      assert a + b == b;
    } else {
      assert (a + b)[0] == a[0] && (a + b)[1..] == a[1..] + b;
      ClobbersJoin(a[1..], b, if a[0].Push? then d + 1 else d - 1);
    }
  }

  function Pops(k: nat): seq<SpcOp>
    decreases k
  {
    if k == 0 then [] else [Pop] + Pops(k - 1)
  }

  lemma {:induction false} PopsClobberNothing(k: nat)
    ensures Stays(Pops(k), k) && EndDepth(Pops(k), k) == 0 && Clobbers(Pops(k), k) == []
    decreases k
  {
    if k > 0 {
      PopsClobberNothing(k - 1);
      assert Pops(k)[1..] == Pops(k - 1);
    }
  }

  /** So a return after thirty-two calls and their returns goes wrong: it finds the
      deepest call's address. */
  lemma DeepReturnFails(v: word, vs: seq<word>)
    requires |vs| == 32 && vs[31] != v
    ensures Bracketed(Pushes(vs) + Pops(32)) && Found(v, Pushes(vs) + Pops(32)) == vs[31] != v
  {
    hide *;
    PushesClobber(vs, 0);
    PopsClobberNothing(32);
    ClobbersJoin(Pushes(vs), Pops(32), 0);
    FoundLast(v, Pushes(vs) + Pops(32), vs[31]);
  }

  lemma FoundLast(v: word, ops: seq<SpcOp>, w: word)
    requires Stays(ops, 0) && EndDepth(ops, 0) == 0 && Clobbers(ops, 0) == [w] + []
    ensures Bracketed(ops) && Found(v, ops) == w
  {
  }

  // ---------------------------------------------------------------------
  // Ring operations of an instruction

  function If(b: bool, op: SpcOp): seq<SpcOp> { if b then [op] else [] }

  function SourceOps(u: nat): seq<SpcOp> { If(MSrc(u) == 44, Pop) }

  function DestOps(u: nat, v: word): seq<SpcOp> { If(Dest(u) < 2048 && Dest(u) / 32 == 13, Push(v)) }

  function PopJOps(u: nat): seq<SpcOp> { If(PopJ(u), Pop) }

  function JumpOps(s: State, u: nat, m: word, a: word, upc: nat): seq<SpcOp> {
    if Misc(u) == 1 || !TakeJump(s, u, m, a) then PopJOps(u)
    else If(PBit(u), Push(Wrap(if NBit(u) then upc - 1 else upc))) + If(RBit(u), Pop)
  }

  function DispatchOps(s: State, u: nat, m: word, upc: nat): seq<SpcOp> {
    var e := DispatchEntry(s, u, m);
    if Misc(u) == 2 || (EntryP(e) && EntryR(e)) then PopJOps(u)
    else If(EntryP(e), Push(PushedByDispatch(u, e, upc))) + If(EntryR(e), Pop)
  }

  function OwnOps(s: State, u: nat, m: word, a: word, upc: nat): seq<SpcOp> {
    match Op(u)
    case 0 => if IsNop(u) then [] else DestOps(u, AluBus(s, u, m, a)) + PopJOps(u)
    case 1 => JumpOps(s, u, m, a, upc)
    case 2 => DispatchOps(s, u, m, upc)
    case _ =>
      DestOps(u, ByteUnit.Byte(ByteFunc(u), m, a, Position(s, u), WidthM1(u))) + PopJOps(u)
  }

  function Ops(s: State, u: nat, upc: nat): seq<SpcOp> {
    var src := MSource(s, u);
    SourceOps(u) + OwnOps(src.s.(alu := src.s.alu.(mLatch := 0)), u, src.value, s.pads.aMem[ASrc(u)], upc)
  }

  lemma ApplyNone(r: MicroStack)
    ensures ApplyAll(r, []) == r
  {
  }

  lemma ApplyOne(r: MicroStack, op: SpcOp)
    ensures ApplyAll(r, [op]) == Apply(r, op)
  {
    assert ApplyAll(Apply(r, op), []) == Apply(r, op);
  }

  lemma {:induction false} ApplyConcat(r: MicroStack, a: seq<SpcOp>, b: seq<SpcOp>)
    ensures ApplyAll(r, a + b) == ApplyAll(ApplyAll(r, a), b)
    decreases |a|
  {
    if a == [] {
      assert a + b == b;
    } else {
      assert (a + b)[1..] == a[1..] + b;
      ApplyConcat(Apply(r, a[0]), a[1..], b);
    }
  }

  lemma ReadRing(s: State, va: word, io: Devices)
    ensures ReadMem(s, va, io).s.ring == s.ring
  {
    hide Entry, NoteWalk, FrameWord;
  }

  lemma WriteRing(s: State, va: word, v: word)
    ensures WriteMem(s, va, v).s.ring == s.ring
  {
    hide Entry, NoteWalk, StoreWord, Masked;
  }

  lemma AdvanceRing(s: State, io: Devices)
    ensures AdvanceLc(s, io).s.ring == s.ring
  {
    hide ReadMem;
    forall s1: State, va: word ensures ReadMem(s1, va, io).s.ring == s1.ring { ReadRing(s1, va, io); }
  }

  lemma PopRing(s: State, io: Devices)
    ensures PopTarget(s, io).s.ring == Apply(s.ring, Pop)
  {
    AdvanceRing(DropSpc(s), io);
    hide AdvanceLc;
  }

  lemma MaybePopRing(s: State, u: nat, upc: nat, io: Devices)
    ensures MaybePop(s, u, upc, io).s.ring == ApplyAll(s.ring, PopJOps(u))
  {
    PopRing(s, io);
    ApplyOne(s.ring, Pop);
    hide PopTarget;
  }

  lemma SourceRing(s: State, u: nat)
    ensures MSource(s, u).s.ring == ApplyAll(s.ring, SourceOps(u))
  {
    ApplyOne(s.ring, Pop);
    assert ApplyAll(s.ring, []) == s.ring;
    hide MapSource, StackTop, NoteWalk, ApplyAll, L1Of, Entry;
  }

  lemma FunctionRing(s: State, func: nat, v: word, io: Devices)
    ensures WriteFunction(s, func, v, io).ring == if func == 13 then Apply(s.ring, Push(v)) else s.ring
  {
    match func
    case 17 => ReadRing(s.(bus := s.bus.(vma := v)), v, io);
    case 18 => WriteRing(s.(bus := s.bus.(vma := v)), v, s.bus.md);
    case 25 => ReadRing(s.(bus := s.bus.(md := v)), s.bus.vma, io);
    case 26 => WriteRing(s.(bus := s.bus.(md := v)), s.bus.vma, v);
    case _ =>
  }

  lemma DestRing(s: State, u: nat, v: word, io: Devices)
    requires Dest(u) < 3072
    ensures WriteDest(s, Dest(u), v, io).ring == ApplyAll(s.ring, DestOps(u, v))
  {
    FunctionRing(s, Dest(u) / 32, v, io);
    ApplyOne(s.ring, Push(v));
    hide WriteFunction;
  }

  lemma PushPopRing(s: State, p: bool, r: bool, v: word)
    ensures ApplyAll(s.ring, If(p, Push(v)) + If(r, Pop))
         == var s1 := if p then PushSpc(s, v) else s;
            if r then Apply(s1.ring, Pop) else s1.ring
  {
    ApplyConcat(s.ring, If(p, Push(v)), If(r, Pop));
    ApplyOne(s.ring, Push(v));
    ApplyOne(s.ring, Pop);
    ApplyOne(PushSpc(s, v).ring, Pop);
  }

  lemma JumpRing(s: State, u: nat, m: word, a: word, upc: nat, io: Devices)
    ensures ExecJump(s, u, m, a, upc, io).s.ring == ApplyAll(s.ring, JumpOps(s, u, m, a, upc))
  {
    var v := Wrap(if NBit(u) then upc - 1 else upc);
    PushPopRing(s, PBit(u), RBit(u), v);
    forall s1: State
      ensures PopTarget(s1, io).s.ring == Apply(s1.ring, Pop)
      ensures MaybePop(s1, u, upc, io).s.ring == ApplyAll(s1.ring, PopJOps(u))
    {
      PopRing(s1, io);
      MaybePopRing(s1, u, upc, io);
    }
    hide PopTarget, MaybePop, ApplyAll, TakeJump, StoreAfter, Apply, PushSpc, PopJOps, If;
    assert PushSpc(s, v).ring == PushSpc(s, v).ring;
  }

  lemma EffectsRing(s: State, u: nat, io: Devices)
    ensures DispatchEffects(s, u, io).ring == s.ring
  {
    forall s1: State ensures AdvanceLc(s1, io).s.ring == s1.ring { AdvanceRing(s1, io); }
    hide AdvanceLc, NoteWalk;
  }

  lemma DispatchRing(s: State, u: nat, m: word, a: word, upc: nat, io: Devices)
    requires upc > 0
    ensures ExecDispatch(s, u, m, a, upc, io).s.ring == ApplyAll(s.ring, DispatchOps(s, u, m, upc))
  {
    hide PopTarget, MaybePop, ApplyAll, Apply, DispatchEntry, DispatchEffects, PushedByDispatch, If, PushSpc;
    if Misc(u) == 2 {
      MaybePopRing(s.(pads := s.pads.(dispMem := s.pads.dispMem[DispAddr(u) := a])), u, upc, io);
    } else {
      hide ExecDispatch;
      var e, t := DispatchEntry(s, u, m), DispatchEffects(s, u, io);
      EffectsRing(s, u, io);
      DispatchSplits(s, u, m, a, upc, io);
      PopRing(t, io);
      PushPopRing(t, EntryP(e), EntryR(e), PushedByDispatch(u, e, upc));
      PopJRing(t.ring, u);
    }
  }

  lemma PopJRing(r: MicroStack, u: nat)
    ensures ApplyAll(r, PopJOps(u)) == if PopJ(u) then Apply(r, Pop) else r
  {
    ApplyOne(r, Pop);
    ApplyNone(r);
  }

  /** Fields shared by the two instructions that write a destination. */
  lemma DestThenPopRing(r: MicroStack, s1: State, u: nat, v: word, upc: nat, io: Devices)
    requires s1.ring == ApplyAll(r, DestOps(u, v))
    ensures MaybePop(s1, u, upc, io).s.ring == ApplyAll(r, DestOps(u, v) + PopJOps(u))
  {
    MaybePopRing(s1, u, upc, io);
    ApplyConcat(r, DestOps(u, v), PopJOps(u));
    hide MaybePop, ApplyAll, DestOps, PopJOps;
  }

  /** An instruction works on the ring by the operations `Ops` lists. */
  lemma ExecuteRing(s: State, u: nat, upc: nat, io: Devices)
    requires upc > 0 && DestInRange(u)
    ensures Execute(s, u, upc, io).s.ring == ApplyAll(s.ring, Ops(s, u, upc))
  {
    hide MSource, ExecAlu, ExecByte, MaybePop, ExecJump, ExecDispatch, SourceOps, DestOps, PopJOps,
         JumpOps, DispatchOps, AluBus, Position, ByteUnit.Byte, ApplyAll;
    var a, src := s.pads.aMem[ASrc(u)], MSource(s, u);
    var s1, m := src.s.(alu := src.s.alu.(mLatch := 0)), src.value;
    SourceRing(s, u);
    ApplyConcat(s.ring, SourceOps(u), OwnOps(s1, u, m, a, upc));
    match Op(u) {
      case 0 =>
        if IsNop(u) {
          NopOps(s.ring, u);
        } else {
          AluRing(s1, u, m, a, io);
          DestThenPopRing(s1.ring, ExecAlu(s1, u, m, a, io), u, AluBus(s1, u, m, a), upc, io);
        }
      case 1 => JumpRing(s1, u, m, a, upc, io);
      case 2 => DispatchRing(s1, u, m, a, upc, io);
      case _ =>
        ByteRing(s1, u, m, a, io);
        DestThenPopRing(s1.ring, ExecByte(s1, u, m, a, io), u,
                        ByteUnit.Byte(ByteFunc(u), m, a, Position(s1, u), WidthM1(u)), upc, io);
    }
  }

  lemma NopOps(r: MicroStack, u: nat)
    requires IsNop(u)
    ensures SourceOps(u) == [] && ApplyAll(r, SourceOps(u) + []) == r
  {
    NopReadsM0(u);
    hide IsNop, MSrc;
  }

  lemma ByteRing(s: State, u: nat, m: word, a: word, io: Devices)
    requires Dest(u) < 3072
    ensures ExecByte(s, u, m, a, io).ring
         == ApplyAll(s.ring, DestOps(u, ByteUnit.Byte(ByteFunc(u), m, a, Position(s, u), WidthM1(u))))
  {
    DestRing(s, u, ByteUnit.Byte(ByteFunc(u), m, a, Position(s, u), WidthM1(u)), io);
  }

  lemma AluRing(s: State, u: nat, m: word, a: word, io: Devices)
    requires Dest(u) < 3072
    ensures ExecAlu(s, u, m, a, io).ring == ApplyAll(s.ring, DestOps(u, AluBus(s, u, m, a)))
  {
    forall s1: State | s1.ring == s.ring
      ensures WriteDest(s1, Dest(u), AluBus(s, u, m, a), io).ring == ApplyAll(s.ring, DestOps(u, AluBus(s, u, m, a)))
    {
      DestRing(s1, u, AluBus(s, u, m, a), io);
    }
    hide WriteDest, AluBus, ApplyAll, DestOps;
  }

  // ---------------------------------------------------------------------
  // Calls come back

  function StepOps(m: Machine, inp: Input): seq<SpcOp>
    requires Ready(m)
  {
    Ops(Prepared(m.s, inp), Instruction(m), m.upc + (if m.annul then 2 else 1))
  }

  function RunOps(m: Machine, ins: seq<Input>): seq<SpcOp>
    requires RunReady(m, ins)
    decreases |ins|
  {
    if ins == [] then [] else StepOps(m, ins[0]) + RunOps(Step(m, ins[0]), ins[1..])
  }

  lemma SettleRing(s: State, inp: Input)
    ensures Prepared(s, inp).ring == s.ring
  {
  }

  lemma StepRing(m: Machine, inp: Input)
    requires Ready(m)
    ensures Step(m, inp).s.ring == ApplyAll(m.s.ring, StepOps(m, inp))
  {
    SettleRing(m.s, inp);
    ExecuteRing(Prepared(m.s, inp), Instruction(m), m.upc + (if m.annul then 2 else 1), inp.io);
    hide Execute, Prepared, Instruction, Ops, ApplyAll;
  }

  lemma {:induction false} RunRing(m: Machine, ins: seq<Input>)
    requires RunReady(m, ins)
    ensures Run(m, ins).s.ring == ApplyAll(m.s.ring, RunOps(m, ins))
    decreases |ins|
  {
    if ins != [] {
      StepRing(m, ins[0]);
      RunRing(Step(m, ins[0]), ins[1..]);
      ApplyConcat(m.s.ring, StepOps(m, ins[0]), RunOps(Step(m, ins[0]), ins[1..]));
    }
    hide Step, StepOps, Ready;
  }

  /** The cycle is a return: past what its M source does, its only ring operation is a
      pop. */
  predicate Returns(m: Machine, inp: Input)
    requires Ready(m)
  {
    StepOps(m, inp) == SourceOps(Instruction(m)) + [Pop]
  }

  lemma PairIsPop(p: bool, r: bool, v: word)
    ensures If(p, Push(v)) + If(r, Pop) == [Pop] <==> !p && r
  {
    var both := If(p, Push(v)) + If(r, Pop);
    if p { assert both[0] == Push(v); }
  }

  lemma OneIsPop(r: bool)
    ensures If(r, Pop) == [Pop] <==> r
  {
  }

  /** Such an instruction sets the program counter from the ring as its M source left
      it. */
  lemma OwnPop(s: State, u: nat, upc: nat, io: Devices)
    requires upc > 0 && DestInRange(u)
    requires OwnOps(Sourced(s, u), u, MSource(s, u).value, s.pads.aMem[ASrc(u)], upc) == [Pop]
    ensures PopsPc(s, u) && BeforePop(s, u, upc, io).ring == Sourced(s, u).ring
  {
    hide MSource, Sourced, ExecAlu, ExecByte, AluBus, Position, ByteUnit.Byte, TakeJump, StoreAfter, DispatchEntry,
         DispatchEffects, ApplyAll, If, Dest;
    var t, m, a := Sourced(s, u), MSource(s, u).value, s.pads.aMem[ASrc(u)];
    OneIsPop(PopJ(u));
    match Op(u) {
      case 0 =>
        AluRing(t, u, m, a, io);
        DestPop(t.ring, u, AluBus(t, u, m, a));
      case 1 => PairIsPop(PBit(u), RBit(u), Wrap(if NBit(u) then upc - 1 else upc));
      case 2 =>
        var e := DispatchEntry(t, u, m);
        PairIsPop(EntryP(e), EntryR(e), PushedByDispatch(u, e, upc));
        EffectsRing(t, u, io);
      case _ =>
        ByteRing(t, u, m, a, io);
        DestPop(t.ring, u, ByteUnit.Byte(ByteFunc(u), m, a, Position(t, u), WidthM1(u)));
    }
  }

  lemma DestPop(r: MicroStack, u: nat, v: word)
    requires DestOps(u, v) + PopJOps(u) == [Pop]
    ensures PopJ(u) && ApplyAll(r, DestOps(u, v)) == r
  {
    hide Dest, PopJ;
    PairIsPop(Dest(u) < 2048 && Dest(u) / 32 == 13, PopJ(u), v);
    ApplyNone(r);
  }

  lemma SuffixIs(a: seq<SpcOp>, b: seq<SpcOp>, c: seq<SpcOp>)
    requires a + b == a + c
    ensures b == c
  {
    assert b == (a + b)[|a|..] && c == (a + c)[|a|..];
  }

  /** Whatever instruction returns, it goes where the address then on top leads. */
  lemma ExecuteReturns(s: State, u: nat, upc: nat, io: Devices)
    requires upc > 0 && DestInRange(u) && Ops(s, u, upc) == SourceOps(u) + [Pop]
    ensures var r := ApplyAll(s.ring, SourceOps(u));
            Execute(s, u, upc, io).upc == ReturnTarget(r.spc[r.spcPtr], WouldFetch(BeforePop(s, u, upc, io)))
  {
    hide MSource, Execute, BeforePop, PopsPc, OwnOps, PopTarget, ReturnTarget, WouldFetch, ApplyAll, SourceOps;
    SuffixIs(SourceOps(u), OwnOps(Sourced(s, u), u, MSource(s, u).value, s.pads.aMem[ASrc(u)], upc), [Pop]);
    OwnPop(s, u, upc, io);
    SourceRing(s, u);
    ExecuteSplits(s, u, upc, io);
    PopGoes(BeforePop(s, u, upc, io), io);
  }

  /** The cycle after which address t is the next to be executed, or the one after
      the word already prefetched unless that word transfers with N. */
  ghost predicate GoesTo(m: Machine, t: nat) {
    && m.upc == t
    && (m.annul ==> ExecutingPc(m) == t)
    && (!m.annul && Ready(m) ==>
          forall inp: Input :: !Step(m, inp).annul ==> ExecutingPc(Step(m, inp)) == t)
  }

  lemma FetchedNext(m: Machine, t: nat)
    requires m.upc == t
    ensures GoesTo(m, t)
  {
    hide Execute, Prepared, Instruction, Ready;
  }

  /** The ring as a cycle's M source leaves it. */
  function RingAtPop(m: Machine): MicroStack
    requires Ready(m)
  {
    ApplyAll(m.s.ring, SourceOps(Instruction(m)))
  }

  /** Whether a return in this cycle to an address with bit 14 would fetch a word. */
  function FetchAtPop(m: Machine, inp: Input): bool
    requires Ready(m)
  {
    WouldFetch(BeforePop(Prepared(m.s, inp), Instruction(m), m.upc + (if m.annul then 2 else 1), inp.io))
  }

  /** Returning goes where the address on top of the ring leads. */
  lemma ReturnGoes(m: Machine, inp: Input)
    requires Ready(m) && Returns(m, inp)
    ensures var r := RingAtPop(m);
            GoesTo(Step(m, inp), ReturnTarget(r.spc[r.spcPtr], FetchAtPop(m, inp)))
  {
    hide Prepared, Instruction, Execute, Ops, GoesTo, BeforePop, WouldFetch, ReturnTarget, ApplyAll, SourceOps;
    PreparedRing(m.s, inp);
    ExecuteReturns(Prepared(m.s, inp), Instruction(m), m.upc + (if m.annul then 2 else 1), inp.io);
    FetchedNext(Step(m, inp), Step(m, inp).upc);
  }

  /** What happens to the ring between a call and the pop of its return. */
  function Between(m: Machine, ins: seq<Input>): seq<SpcOp>
    requires RunReady(m, ins) && Ready(Run(m, ins))
  {
    RunOps(m, ins) + SourceOps(Instruction(Run(m, ins)))
  }

  lemma RingBetween(m: Machine, ins: seq<Input>)
    requires RunReady(m, ins) && Ready(Run(m, ins))
    ensures RingAtPop(Run(m, ins)) == ApplyAll(m.s.ring, Between(m, ins))
  {
    var src := SourceOps(Instruction(Run(m, ins)));
    hide Ready, RunOps, SourceOps, ApplyAll, Instruction;
    RunRing(m, ins);
    ApplyConcat(m.s.ring, RunOps(m, ins), src);
  }

  /** A call and its return, with any bracketed run between: the return goes where what
      the ring then holds leads, and that is the pushed address exactly when
      `ReturnFinds` says so. */
  lemma CallReturns(m: Machine, call: Input, ins: seq<Input>, back: Input, pre: seq<SpcOp>, ret: word)
    requires Ready(m) && StepOps(m, call) == pre + [Push(ret)]
    requires RunReady(Step(m, call), ins) && Ready(Run(Step(m, call), ins))
    requires Bracketed(Between(Step(m, call), ins)) && Returns(Run(Step(m, call), ins), back)
    ensures var r := Run(Step(m, call), ins);
            GoesTo(Step(r, back), ReturnTarget(Found(ret, Between(Step(m, call), ins)), FetchAtPop(r, back)))
  {
    var m1 := Step(m, call);
    hide Step, StepOps, Ready, Returns, Run, Bracketed, Found, GoesTo, Clobbers, Between, RingAtPop, FetchAtPop,
         ReturnTarget, ApplyAll, Apply;
    StepRing(m, call);
    ApplyConcat(m.s.ring, pre, [Push(ret)]);
    ApplyOne(ApplyAll(m.s.ring, pre), Push(ret));
    RingBetween(m1, ins);
    ReturnFinds(ApplyAll(m.s.ring, pre), ret, Between(m1, ins));
    ReturnGoes(Run(m1, ins), back);
  }

  // ---------------------------------------------------------------------
  // What a call pushes

  /** The kinds of call: a taken jump with P, and a dispatch whose table entry has
      P, with the N and n + 1 bits that move the return address back. */
  datatype Call = NoCall | Call(n: bool, nPlus1: bool)

  function CallOf(s: State, u: nat): Call {
    var t, m := Sourced(s, u), MSource(s, u).value;
    if Op(u) == OP_JUMP then
      if Misc(u) != 1 && PBit(u) && !RBit(u) && TakeJump(t, u, m, s.pads.aMem[ASrc(u)])
      then Call(NBit(u), false) else NoCall
    else if Op(u) == OP_DISPATCH then
      var e := DispatchEntry(t, u, m);
      if Misc(u) != 2 && EntryP(e) && !EntryR(e) then Call(EntryN(e), NPlus1(u)) else NoCall
    else NoCall
  }

  /** Where a call comes back to, `next` being the address prefetched under it: the
      address after that, `next` itself with N, and the one before it, which in
      straight code is the dispatch's own, with N and n + 1. */
  function ComesBackTo(next: nat, c: Call): int
    requires c.Call?
  {
    if !c.n then next + 1 else if c.nPlus1 then next - 1 else next
  }

  lemma CallPushes(m: Machine, inp: Input)
    requires Ready(m)
    requires CallOf(Prepared(m.s, inp), Instruction(m)).Call?
    ensures var c := CallOf(Prepared(m.s, inp), Instruction(m));
            StepOps(m, inp) == SourceOps(Instruction(m)) + [Push(Wrap(ComesBackTo(Prefetched(m), c)))]
  {
    hide Prepared, Instruction, MSource, TakeJump, DispatchEntry, SourceOps;
  }

  /** A call at X in straight code comes back: when what runs between is bracketed and
      at most 31 deep, the return goes to X+2, to X+1 for a call with N, and to X for a
      dispatch with N and n + 1. */
  lemma CallComesBack(m: Machine, call: Input, ins: seq<Input>, back: Input)
    requires Ready(m) && Prefetched(m) == ExecutingPc(m) + 1 < 0x3FFF
    requires CallOf(Prepared(m.s, call), Instruction(m)).Call?
    requires RunReady(Step(m, call), ins) && Ready(Run(Step(m, call), ins))
    requires Bracketed(Between(Step(m, call), ins)) && Deepest(Between(Step(m, call), ins), 0) <= 31
    requires Returns(Run(Step(m, call), ins), back)
    ensures var c, x := CallOf(Prepared(m.s, call), Instruction(m)), ExecutingPc(m);
            GoesTo(Step(Run(Step(m, call), ins), back), if !c.n then x + 2 else if c.nPlus1 then x else x + 1)
  {
    var c := CallOf(Prepared(m.s, call), Instruction(m));
    hide *;
    var t := StraightReturn(Prefetched(m), ExecutingPc(m), c);
    CallPushes(m, call);
    ShallowReturnFinds(t, Between(Step(m, call), ins));
    CallReturns(m, call, ins, back, SourceOps(Instruction(m)), t);
    PlainTarget(t, FetchAtPop(Run(Step(m, call), ins), back));
  }

  /** In an annulled cycle, and in any that follows straight code, the prefetched
      address is the one after that executed. */
  lemma AnnulledIsStraight(m: Machine)
    requires m.annul || m.upc == m.p1pc + 1
    ensures Prefetched(m) == ExecutingPc(m) + 1
  {
  }

  lemma StraightReturn(next: nat, x: nat, c: Call) returns (t: word)
    requires c.Call? && next == x + 1 && next < 0x3FFF
    ensures t == (if !c.n then x + 2 else if c.nPlus1 then x else x + 1)
    ensures t < 0x4000 && Wrap(ComesBackTo(next, c)) == t
  {
    t := if !c.n then x + 2 else if c.nPlus1 then x else x + 1;
  }

  lemma ShallowReturnFinds(v: word, ops: seq<SpcOp>)
    requires Bracketed(ops) && Deepest(ops, 0) <= 31
    ensures Found(v, ops) == v
  {
    ShallowClobbersNothing(ops, 0);
  }
}
