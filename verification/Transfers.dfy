/** Executing an instruction in two parts: what it does up to setting the program counter
    from the ring of micro-return addresses, and doing so. */
module Transfers {
  import opened Words
  import opened Mem
  import opened MicroWord
  import opened Cpu
  import opened Prefetch
  import ByteUnit

  /** The instruction sets the program counter from the ring. */
  predicate PopsPc(s: State, u: nat) {
    var t, m, a := Sourced(s, u), MSource(s, u).value, s.pads.aMem[ASrc(u)];
    match Op(u)
    case 0 => !IsNop(u) && PopJ(u)
    case 1 => if Misc(u) == 1 || !TakeJump(t, u, m, a) then PopJ(u) else RBit(u)
    case 2 =>
      var e := DispatchEntry(t, u, m);
      if Misc(u) == 2 || (EntryP(e) && EntryR(e)) then PopJ(u) else EntryR(e)
    case _ => PopJ(u)
  }

  /** The state before it does, or at the end if it does not. */
  function BeforePop(s: State, u: nat, upc: nat, io: Devices): State
    requires upc > 0 && DestInRange(u)
  {
    var t, m, a := Sourced(s, u), MSource(s, u).value, s.pads.aMem[ASrc(u)];
    match Op(u)
    case 0 => if IsNop(u) then s.(alu := s.alu.(mLatch := m)) else ExecAlu(t, u, m, a, io)
    case 1 =>
      if Misc(u) == 1 then t.(store := t.store.(running := false))
      else JumpEffects(t, u, m, a, TakeJump(t, u, m, a), upc)
    case 2 =>
      if Misc(u) == 2 then t.(pads := t.pads.(dispMem := t.pads.dispMem[DispAddr(u) := a]))
      else
        var e, t1 := DispatchEntry(t, u, m), DispatchEffects(t, u, io);
        if EntryP(e) && !EntryR(e) then PushSpc(t1, PushedByDispatch(u, e, upc)) else t1
    case _ => ExecByte(t, u, m, a, io)
  }

  /** A dispatch call's return address, moved back by N and by N with n + 1. */
  function PushedByDispatch(u: nat, e: word, upc: nat): word {
    Wrap(upc - (if EntryN(e) then 1 else 0) - (if NPlus1(u) && EntryN(e) then 1 else 0))
  }

  lemma DispatchSplits(s: State, u: nat, m: word, a: word, upc: nat, io: Devices)
    requires upc > 0 && Misc(u) != 2
    ensures var e, t, c := DispatchEntry(s, u, m), DispatchEffects(s, u, io), ExecDispatch(s, u, m, a, upc, io);
            if EntryP(e) && EntryR(e) then
              if PopJ(u) then c.s == PopTarget(t, io).s && c.upc == PopTarget(t, io).target else c.s == t
            else if EntryR(e) then c.s == PopTarget(t, io).s && c.upc == PopTarget(t, io).target
            else c.s == if EntryP(e) then PushSpc(t, PushedByDispatch(u, e, upc)) else t
  {
    hide PopTarget, DispatchEntry, DispatchEffects, PushSpc;
  }

  /** The two parts make up the whole. */
  lemma ExecuteSplits(s: State, u: nat, upc: nat, io: Devices)
    requires upc > 0 && DestInRange(u)
    ensures var c, b := Execute(s, u, upc, io), BeforePop(s, u, upc, io);
            if PopsPc(s, u) then c.s == PopTarget(b, io).s && c.upc == PopTarget(b, io).target else c.s == b
  {
    hide MSource, ExecAlu, ExecByte, PopTarget, JumpEffects, DispatchEntry, DispatchEffects, TakeJump, PushSpc,
         PushedByDispatch;
    var t, m, a := Sourced(s, u), MSource(s, u).value, s.pads.aMem[ASrc(u)];
    if Op(u) == OP_DISPATCH && Misc(u) != 2 {
      DispatchSplits(t, u, m, a, upc, io);
      hide ExecDispatch;
    } else if Op(u) == OP_ALU && IsNop(u) {
      NopStore(s, u);
    }
  }

  /** Where a return address leads: to itself, in fourteen bits, or two further when
      bit 14 asks for the next macroinstruction, bit 1 is clear and no word is to be
      fetched for it. */
  function ReturnTarget(v: word, fetched: bool): nat {
    (if (v / 0x4000) % 2 == 0 || fetched || (v / 2) % 2 == 1 then v else v + 2) % 0x4000
  }

  /** A plain address leads to itself. */
  lemma PlainTarget(v: word, fetched: bool)
    requires v < 0x4000
    ensures ReturnTarget(v, fetched) == v
  {
  }

  /** Whether an advance of the location counter fetches. */
  predicate WouldFetch(s: State) { StepCounter(s.ctl.lc, ByteMode(s)).need }

  lemma PopGoes(s: State, io: Devices)
    ensures PopTarget(s, io).target == ReturnTarget(s.ring.spc[s.ring.spcPtr], WouldFetch(s))
  {
    hide StartRead, StepCounter;
  }
}
