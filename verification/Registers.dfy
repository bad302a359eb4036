/** What the functional sources read of what the functional destinations wrote, the bits
    of the registers with parts, and the PDL buffer as a stack. */
module Registers {
  import opened Words
  import opened Mem
  import opened MicroWord
  import opened Cpu
  import Alu
  import ByteUnit

  // Functional sources and destinations as lcadmc.h numbers them (octal in comments); PP
  // and PI are the PDL buffer's pointer and index, and C_ what stands there.
  const M_SRC_DISP_CONST := 32              // 040
  const M_SRC_MICRO_STACK := 33             // 041
  const M_SRC_PP := 34
  const M_SRC_PI := 35
  const M_SRC_C_PI := 37                    // 045
  const M_SRC_OPC := 38
  const M_SRC_Q := 39
  const M_SRC_VMA := 40                     // 050
  const M_SRC_MAP := 41
  const M_SRC_MD := 42
  const M_SRC_LC := 43
  const M_SRC_MICRO_STACK_POP := 44
  const M_SRC_C_PP_POP := 52                // 064
  const M_SRC_C_PP := 53
  const FUNC_DEST_LC := 1
  const FUNC_DEST_INT_CNTRL := 2
  const FUNC_DEST_C_PP := 8                 // 010
  const FUNC_DEST_PDL_PUSH := 9
  const FUNC_DEST_C_PI := 10
  const FUNC_DEST_PI := 11
  const FUNC_DEST_PP := 12
  const FUNC_DEST_MICRO_STACK_PUSH := 13
  const FUNC_DEST_OA_LOW := 14
  const FUNC_DEST_OA_HIGH := 15
  const FUNC_DEST_VMA := 16                 // 020
  const FUNC_DEST_MD := 24                  // 030

  // ---------------------------------------------------------------------
  // What was written is read

  /** The source that reads what a destination writes. */
  function ReadBy(func: nat): nat {
    match func
    case 1 => M_SRC_LC
    case 8 => M_SRC_C_PP
    case 9 => M_SRC_C_PP
    case 10 => M_SRC_C_PI
    case 11 => M_SRC_PI
    case 12 => M_SRC_PP
    case 13 => M_SRC_MICRO_STACK
    case 24 => M_SRC_MD
    case _ => M_SRC_VMA
  }

  /** The destinations that only load a register or a stack. */
  predicate LoadsRegister(func: nat) {
    func in {FUNC_DEST_LC, FUNC_DEST_C_PP, FUNC_DEST_PDL_PUSH, FUNC_DEST_C_PI, FUNC_DEST_PI,
             FUNC_DEST_PP, FUNC_DEST_MICRO_STACK_PUSH, FUNC_DEST_VMA, FUNC_DEST_MD}
  }

  /** The sources a destination may change: its own, and those that look through a
      pointer it moves. */
  predicate Disturbs(func: nat, src: nat) {
    match func
    case 1 => src == M_SRC_LC
    case 8 => src in {M_SRC_C_PP, M_SRC_C_PP_POP, M_SRC_C_PI}
    case 9 => src in {M_SRC_C_PP, M_SRC_C_PP_POP, M_SRC_C_PI, M_SRC_PP}
    case 10 => src in {M_SRC_C_PP, M_SRC_C_PP_POP, M_SRC_C_PI}
    case 11 => src in {M_SRC_PI, M_SRC_C_PI}
    case 12 => src in {M_SRC_PP, M_SRC_C_PP, M_SRC_C_PP_POP}
    case 13 => src in {M_SRC_MICRO_STACK, M_SRC_MICRO_STACK_POP}
    case 24 => src in {M_SRC_MD, M_SRC_MAP}
    case _ => src == M_SRC_VMA
  }

  /** What the source then reads: the word, or as much of it as the register holds. */
  function Kept(s: State, func: nat, v: word): word {
    match func
    case 1 => LcWritten(s.ctl.lc, v, ByteMode(s))
    case 11 => v % 1024
    case 12 => v % 1024
    case 13 => ((s.ring.spcPtr + 1) % 32) * 0x100_0000 + v % 0x8_0000
    case _ => v
  }

  /** A destination's value is read by its source, and by every other source what was read
      before. */
  lemma WrittenIsRead(s: State, func: nat, v: word, io: Devices, u: nat)
    requires LoadsRegister(func)
    ensures var t := WriteFunction(s, func, v, io);
            && (MSrc(u) == ReadBy(func) ==> MSource(t, u).value == Kept(s, func, v))
            && (!Disturbs(func, MSrc(u)) ==> MSource(t, u).value == MSource(s, u).value)
  {
    if func == 1 {
      LcEven(s.ctl.lc, v);
    }
    hide LcWritten, Entry, L1Of, Windowed, NoteWalk;
  }

  lemma LcEven(lc: word, v: word)
    ensures LcWritten(lc, v, false) % 2 == 0
  {
  }

  /** Every instruction with a destination leaves its result in M and A memory too, or in A
      memory alone, and nowhere else in them. */
  lemma MemoriesWritten(s: State, dest: nat, v: word, io: Devices)
    requires dest < 3072
    ensures var t := WriteDest(s, dest, v, io);
            if dest >= 2048 then t == s.(pads := s.pads.(aMem := s.pads.aMem[dest - 2048 := v]))
            else t.pads.mMem == s.pads.mMem[dest % 32 := v] && t.pads.aMem == s.pads.aMem[dest % 32 := v]
  {
    if dest < 2048 { FunctionKeepsMemories(s, dest / 32, v, io); }
    hide WriteFunction;
  }

  lemma FunctionKeepsMemories(s: State, func: nat, v: word, io: Devices)
    ensures var t := WriteFunction(s, func, v, io);
            t.pads.mMem == s.pads.mMem && t.pads.aMem == s.pads.aMem && t.pads.dispMem == s.pads.dispMem
  {
    ReadKeepsPads(s, io);
    WriteKeepsPads(s);
    hide ReadMem, WriteMem, WriteMap, LcWritten;
  }

  lemma ReadKeepsPads(s: State, io: Devices)
    ensures forall t: State, va: word :: ReadMem(t, va, io).s.pads == t.pads
  {
    hide Entry, NoteWalk, FrameWord;
  }

  lemma WriteKeepsPads(s: State)
    ensures forall t: State, va: word, v: word :: WriteMem(t, va, v).s.pads == t.pads
  {
    hide Entry, NoteWalk, StoreWord, Masked;
  }

  /** In a cleared machine every source but MAP reads 0, no fault is flagged, nothing is
      pending, and the PROM is enabled. */
  lemma ClearedReads(prom: Prom, mem: Memory, u: nat, i: nat)
    requires i < 1024
    ensures var s := Cleared(prom, mem);
            && (MSrc(u) != M_SRC_MAP ==> MSource(s, u).value == 0) && s.pads.aMem[i] == 0
            && s.pads.dispMem[i] == s.pads.dispMem[i + 1024] == 0
            && !s.bus.pageFault && !s.bus.accessFault && !s.bus.writeFault && s.bus.newMdDelay == 0
            && !s.oa.oaLoSet && !s.oa.oaHiSet && s.ctl.interruptControl == s.ctl.interruptStatus == 0
            && s.alu.aluOut == 0 && !s.alu.aluCarry
            && s.store.running && s.store.promEnabled && s.store.prom == prom && s.mem == mem && s.log == []
  {
    hide Entry, L1Of, NoteWalk;
  }

  // ---------------------------------------------------------------------
  // The PDL buffer

  function PushAll(s: State, vs: seq<word>, io: Devices): State
    decreases |vs|
  {
    if vs == [] then s
    else WriteFunction(PushAll(s, vs[..|vs| - 1], io), FUNC_DEST_PDL_PUSH, vs[|vs| - 1], io)
  }

  /** After k reads of the popping source. */
  function PopTimes(s: State, u: nat, k: nat): State
    decreases k
  {
    if k == 0 then s else MSource(PopTimes(s, u, k - 1), u).s
  }

  /** The slot k above the pointer. */
  function PdlSlot(s: State, k: int): index10 { (s.pads.pdlPtr + k) % 1024 }

  lemma {:induction false} PushedWords(s: State, vs: seq<word>, io: Devices)
    requires |vs| <= 1024
    ensures var t := PushAll(s, vs, io);
            && t == s.(pads := s.pads.(pdl := t.pads.pdl, pdlPtr := t.pads.pdlPtr))
            && t.pads.pdlPtr == PdlSlot(s, |vs|)
            && forall j :: 1 <= j <= |vs| ==> t.pads.pdl[PdlSlot(s, j)] == vs[j - 1]
    decreases |vs|
  {
    if vs != [] {
      var n := |vs| - 1;
      PushedWords(s, vs[..n], io);
      PushMoves(PushAll(s, vs[..n], io), vs[n], io);
      SlotAfter(s, n);
      forall j | 1 <= j <= n ensures PdlSlot(s, j) != PdlSlot(s, n + 1) { SlotsDiffer(s, j, n + 1); }
      hide PdlSlot, WriteFunction;
    }
  }

  lemma SlotAfter(s: State, n: nat)
    ensures PdlSlot(s, n + 1) == (PdlSlot(s, n) + 1) % 1024
  {
    var x := s.pads.pdlPtr + n;
    assert (x + 1) % 1024 == if x % 1024 == 1023 then 0 else x % 1024 + 1;
  }

  lemma PushMoves(s: State, v: word, io: Devices)
    ensures var p := (s.pads.pdlPtr + 1) % 1024;
            WriteFunction(s, FUNC_DEST_PDL_PUSH, v, io)
            == s.(pads := s.pads.(pdlPtr := p, pdl := s.pads.pdl[p := v]))
  {
  }

  lemma SlotsDiffer(s: State, j: nat, k: nat)
    requires j < k < j + 1024
    ensures PdlSlot(s, j) != PdlSlot(s, k)
  {
  }

  lemma StepBack(n: int, k: int)
    ensures ((n - (k - 1)) % 1024 + 1023) % 1024 == (n - k) % 1024
  {
    var x := n - k;
    assert (x + 1) % 1024 == if x % 1024 == 1023 then 0 else x % 1024 + 1;
  }

  lemma PopMoves(s: State, u: nat)
    requires MSrc(u) == M_SRC_C_PP_POP
    ensures MSource(s, u).value == s.pads.pdl[s.pads.pdlPtr]
    ensures MSource(s, u).s == s.(pads := s.pads.(pdlPtr := (s.pads.pdlPtr + 1023) % 1024))
  {
  }

  lemma {:induction false} PoppedPointer(s: State, u: nat, n: nat, k: nat)
    requires MSrc(u) == M_SRC_C_PP_POP && k <= n && s.pads.pdlPtr == n % 1024
    ensures PopTimes(s, u, k) == s.(pads := s.pads.(pdlPtr := (n - k) % 1024))
    decreases k
  {
    if k > 0 {
      PoppedPointer(s, u, n, k - 1);
      StepBack(n, k);
      PopMoves(PopTimes(s, u, k - 1), u);
      hide MSource;
    }
  }

  /** Up to 1024 words pushed are popped in the opposite order, and then the pointer is
      where it was. */
  lemma PdlIsStack(s: State, vs: seq<word>, u: nat, k: nat, io: Devices)
    requires MSrc(u) == M_SRC_C_PP_POP && k < |vs| <= 1024
    ensures MSource(PopTimes(PushAll(s, vs, io), u, k), u).value == vs[|vs| - 1 - k]
    ensures PopTimes(PushAll(s, vs, io), u, |vs|).pads.pdlPtr == s.pads.pdlPtr
  {
    hide *;
    var t, n := PushAll(s, vs, io), s.pads.pdlPtr + |vs|;
    PushedWords(s, vs, io);
    SlotIs(s, |vs|);
    SlotIs(s, |vs| - k);
    SlotIs(s, 0);
    PoppedPointer(t, u, n, k);
    PoppedPointer(t, u, n, |vs|);
    PopMoves(PopTimes(t, u, k), u);
  }

  lemma SlotIs(s: State, k: int)
    ensures PdlSlot(s, k) == (s.pads.pdlPtr + k) % 1024 && PdlSlot(s, 0) == s.pads.pdlPtr
  {
  }


  /** A micro-return address pushed is popped again, with the pointer then on top of it as
      the ring stood. */
  lemma StackPopRestores(s: State, v: word, io: Devices, u: nat)
    requires MSrc(u) == M_SRC_MICRO_STACK_POP
    ensures var t := WriteFunction(s, FUNC_DEST_MICRO_STACK_PUSH, v, io);
            && MSource(t, u).value == ((s.ring.spcPtr + 1) % 32) * 0x100_0000 + v % 0x8_0000
            && MSource(t, u).s.ring.spcPtr == s.ring.spcPtr
            && MSource(t, u).s.ring.spc == s.ring.spc[(s.ring.spcPtr + 1) % 32 := v]
  {
  }

  /** Q is what an ALU instruction with Q control 3 put out, the dispatch constant what the
      last dispatch held in bits 41 to 32, and OPC and the fault flags what memory left. */
  lemma LatchedSources(s: State, w: nat, u: nat, m: word, a: word, io: Devices)
    ensures MSrc(u) == M_SRC_DISP_CONST && !AdvanceStream(w) ==>
              MSource(DispatchEffects(s, w, io), u).value == (w / 0x1_0000_0000) % 1024
    ensures MSrc(u) == M_SRC_OPC ==> MSource(s, u).value == s.bus.opc
    ensures MSrc(u) == M_SRC_Q ==> MSource(s, u).value == s.alu.q
  {
    hide NoteWalk;
  }

  /** Destinations 021 to 023 and 031 to 033 load VMA or MD, and then read into MD after
      two cycles, write MD, or write the map, at VMA. */
  lemma MemoryCycle(s: State, func: nat, v: word, io: Devices)
    requires func in {17, 18, 19, 25, 26, 27}
    ensures var s1 := WriteFunction(s, if func < 20 then FUNC_DEST_VMA else FUNC_DEST_MD, v, io);
            var t, va := WriteFunction(s, func, v, io), if func < 20 then v else s.bus.vma;
            var data := if func < 20 then s.bus.md else v;
            match func % 8
            case 1 => && t.bus.newMd == ReadMem(s1, va, io).value && t.bus.newMdDelay == 2
                      && t.bus.vma == va && t.bus.md == data
            case 2 => t == WriteMem(s1, va, data).s
            case _ => t == s1.(mem := WriteMap(s.mem, data, va))
  {
    ReadKeepsPort(io);
    hide ReadMem, WriteMem, WriteMap;
  }

  /** The word a read found is in MD when the second instruction after it executes, and not
      when the first does; with nothing on its way MD stays. */
  lemma ReadArrives(s: State, func: nat, v: word, first: Input, second: Input, io: Devices)
    requires func in {17, 25}
    ensures var t, va := WriteFunction(s, func, v, io), if func == 17 then v else s.bus.vma;
            var data, one := if func == 17 then s.bus.md else v, Prepared(t, first);
            var s1 := WriteFunction(s, if func == 17 then FUNC_DEST_VMA else FUNC_DEST_MD, v, io);
            && one.bus.md == data && Prepared(one, second).bus.md == ReadMem(s1, va, io).value
            && Prepared(one, second).bus.newMdDelay == 0
            && (s.bus.newMdDelay == 0 ==> Prepared(s, first).bus == s.bus)
  {
    hide *;
    MemoryCycle(s, func, v, io);
    TwoCycles(WriteFunction(s, func, v, io), first, second);
    NothingArrives(s, first);
  }

  lemma TwoCycles(s: State, first: Input, second: Input)
    requires s.bus.newMdDelay == 2
    ensures var one, two := Prepared(s, first), Prepared(Prepared(s, first), second);
            one.bus.md == s.bus.md && two.bus.md == s.bus.newMd && two.bus.newMdDelay == 0
  {
  }

  lemma NothingArrives(s: State, inp: Input)
    ensures s.bus.newMdDelay == 0 ==> Prepared(s, inp).bus == s.bus
  {
  }

  lemma ReadKeepsPort(io: Devices)
    ensures forall t: State, va: word :: ReadMem(t, va, io).s.bus.vma == t.bus.vma && ReadMem(t, va, io).s.bus.md == t.bus.md
  {
    hide Entry, NoteWalk, FrameWord;
  }

  // ---------------------------------------------------------------------
  // Registers with parts

  /** Interrupt control: byte mode is bit 29, interrupts bit 27 and the sequence break 26. */
  lemma ControlBits(s: State)
    ensures (ByteMode(s) <==> Bit(s.ctl.interruptControl, 29)) && (SequenceBreak(s) <==> Bit(s.ctl.interruptControl, 26))
    ensures InterruptEnabled(s) <==> Bit(s.ctl.interruptControl, 27)
  {
    Powers();
    BitIsDigit(s.ctl.interruptControl, 29);
    BitIsDigit(s.ctl.interruptControl, 27);
    BitIsDigit(s.ctl.interruptControl, 26);
    assert Pow2(29) == 0x2000_0000 && Pow2(27) == 0x800_0000;
    hide Bit, Pow2;
  }

  /** Writing the location counter sets NEED-FETCH, bit 31, and bits 25 to 0 but in halfword
      mode bit 0; bits 30 to 26 stay. */
  lemma LcWrittenBits(lc: word, v: word, byteMode: bool, i: nat)
    requires i < 32
    ensures Bit(LcWritten(lc, v, byteMode), i) ==
              if i == 31 then true else if i >= 26 then Bit(lc, i) else if i == 0 then byteMode && Bit(v, 0) else Bit(v, i)
  {
    var low := v % 0x400_0000;
    var low' := if byteMode then low else low - low % 2;
    var high := (lc / 0x400_0000) % 32;
    LcParts(lc, v, byteMode, low', high);
    Powers();
    Alu.Pow2Is31();
    BitsOfSplit(1, high * Pow2(26) + low', 31, i);
    BitsOfSplit(high, low', 26, i);
    if i >= 31 { OneBit(true, i - 31); }
    if 26 <= i < 31 { BitsOfField(lc, 26, 5, i - 26); }
    if i < 26 {
      BitsOfMod(v, 26, i);
      Evened(low, i);
    }
    hide Bit, Pow2, LcWritten;
  }

  lemma Evened(x: nat, i: nat)
    ensures Bit(x - x % 2, i) == (i > 0 && Bit(x, i))
  {
    assert (x - x % 2) / 2 == x / 2;
  }

  lemma LcParts(lc: word, v: word, byteMode: bool, low: nat, high: nat)
    requires low == if byteMode then v % 0x400_0000 else v % 0x400_0000 - v % 0x400_0000 % 2
    requires high == (lc / 0x400_0000) % 32
    ensures low < 0x400_0000 && high < 32
    ensures LcWritten(lc, v, byteMode) == low + high * 0x400_0000 + 0x8000_0000
  {
    var top := lc / 0x400_0000;
    assert lc - lc % 0x400_0000 == top * 0x400_0000 && top < 64;
    assert high == if top < 32 then top else top - 32;
  }

  /** Stepping the location counter adds 1 in byte mode and 2 in halfword mode to its low 31
      bits; a word is needed if bit 31 is then set, and will be after the last item of a
      word: when the low two bits are then 0, or in halfword mode bit 1 is. */
  lemma CounterSteps(lc: word, byteMode: bool)
    ensures var c, stepped := StepCounter(lc, byteMode), lc + (if byteMode then 1 else 2);
            && c.lc % 0x8000_0000 == stepped % 0x8000_0000
            && (c.need <==> 0x8000_0000 <= stepped < 0x1_0000_0000)
            && (c.lc >= 0x8000_0000 <==> if byteMode then stepped % 4 == 0 else (stepped / 2) % 2 == 0)
            && c.at == lc % 0x400_0000
  {
    hide *;
    var stepped := lc + (if byteMode then 1 else 2);
    var k, plain := stepped / 0x8000_0000, stepped % 0x8000_0000;
    CounterParts(lc, byteMode);
    LowTwo(plain);
    LowTwo(stepped);
    SameLowBits(plain, k);
    TopBit(plain);
  }

  lemma TopBit(plain: nat)
    requires plain < 0x8000_0000
    ensures (plain + 0x8000_0000) % 0x8000_0000 == plain % 0x8000_0000 == plain
  {
  }

  lemma SameLowBits(x: nat, k: nat)
    ensures (x + 0x8000_0000 * k) % 4 == x % 4 && ((x + 0x8000_0000 * k) / 2) % 2 == (x / 2) % 2
  {
    var y := x + 0x8000_0000 * k;
    DivModUnique(y, 4, x / 4 + 0x2000_0000 * k, x % 4);
    LowTwo(x);
    LowTwo(y);
    DivModUnique(y, 2, x / 2 + 0x4000_0000 * k, x % 2);
  }

  lemma CounterParts(lc: word, byteMode: bool)
    ensures var c, stepped := StepCounter(lc, byteMode), lc + (if byteMode then 1 else 2);
            var plain := stepped % 0x8000_0000;
            && c.lc == (if !(byteMode && plain % 2 == 1) && (plain / 2) % 2 == 0 then plain + 0x8000_0000 else plain)
            && (c.need <==> 0x8000_0000 <= stepped < 0x1_0000_0000) && c.at == lc % 0x400_0000
  {
  }

  /** Writing interrupt control also sets bits 29 to 26 of the location counter. */
  lemma InterruptControlBits(s: State, v: word, io: Devices, i: nat)
    requires i < 32
    ensures var t := WriteFunction(s, FUNC_DEST_INT_CNTRL, v, io);
            && t.ctl.interruptControl == v
            && Bit(t.ctl.lc, i) == Bit(if 26 <= i < 30 then v else s.ctl.lc, i)
  {
    var lc, t := s.ctl.lc, WriteInterruptControl(s, v);
    var low, mid, top := lc % 0x400_0000, (v / 0x400_0000) % 16, lc / 0x4000_0000;
    LcFlags(s, v);
    Powers();
    assert WriteFunction(s, FUNC_DEST_INT_CNTRL, v, io) == t && t.ctl.interruptControl == v;
    assert Pow2(30) == 0x4000_0000 && Pow2(4) == 16 && low < Pow2(26) && low + mid * Pow2(26) < Pow2(30);
    hide *;
    BitsOfSplit(top, low + mid * Pow2(26), 30, i);
    BitsOfSplit(mid, low, 26, i);
    if i < 26 { BitsOfMod(lc, 26, i); }
    if 26 <= i < 30 { BitsOfField(v, 26, 4, i - 26); }
    if 30 <= i { BitsOfShr(lc, 30, i - 30); ShrIsDiv(lc, 30); }
  }

  lemma LcFlags(s: State, v: word)
    ensures WriteInterruptControl(s, v).ctl.lc
         == s.ctl.lc % 0x400_0000 + ((v / 0x400_0000) % 16) * 0x400_0000 + (s.ctl.lc / 0x4000_0000) * 0x4000_0000
  {
    var x := s.ctl.lc / 0x400_0000;
    assert s.ctl.lc == x * 0x400_0000 + s.ctl.lc % 0x400_0000;
    assert x == 16 * (x / 16) + x % 16 && s.ctl.lc / 0x4000_0000 == x / 16;
  }

  /** The MAP source: the write and access fault flags on top, then the level-1 value in
      bits 28 to 24, then the level-2 entry for MD. */
  lemma MapSourceBits(s: State, i: nat)
    requires i < 32
    ensures Bit(MapSource(s), i) ==
              if i == 31 then s.bus.writeFault else if i == 30 then s.bus.accessFault
              else if i == 29 then false
              else if i >= 24 then !Windowed(s.bus.md) && Bit(L1Of(s.mem, s.bus.md), i - 24)
              else Bit(Entry(s.mem, s.bus.md), i)
  {
    var l1 := if Windowed(s.bus.md) then 0 else L1Of(s.mem, s.bus.md);
    var flags := 2 * ((if s.bus.accessFault then 1 else 0) + 2 * (if s.bus.writeFault then 1 else 0));
    MapSourceParts(s, l1, flags);
    hide *;
    if Windowed(s.bus.md) && i >= 24 { ZeroBits(i - 24); }
    PartBits(Entry(s.mem, s.bus.md), l1, flags, i);
    if i >= 29 { FlagBits(s.bus.accessFault, s.bus.writeFault, i - 29); }
  }

  lemma PartBits(entry: nat, l1: nat, flags: nat, i: nat)
    requires l1 < 32
    ensures Bit(entry % 0x100_0000 + (l1 + flags * 32) * 0x100_0000, i) ==
              if i < 24 then Bit(entry, i) else if i < 29 then Bit(l1, i - 24) else Bit(flags, i - 29)
  {
    Powers();
    hide Bit, Pow2;
    BitsOfSplit(l1 + flags * 32, entry % 0x100_0000, 24, i);
    if i < 24 { BitsOfMod(entry, 24, i); } else { BitsOfSplit(flags, l1, 5, i - 24); }
  }

  lemma MapSourceParts(s: State, l1: nat, flags: nat)
    requires l1 == if Windowed(s.bus.md) then 0 else L1Of(s.mem, s.bus.md)
    requires flags == 2 * ((if s.bus.accessFault then 1 else 0) + 2 * (if s.bus.writeFault then 1 else 0))
    ensures l1 < 32 && MapSource(s) == Entry(s.mem, s.bus.md) % 0x100_0000 + (l1 + flags * 32) * 0x100_0000
  {
    hide Entry, Windowed;
  }

  lemma FlagBits(access: bool, write: bool, i: nat)
    requires i < 3
    ensures Bit(2 * ((if access then 1 else 0) + 2 * (if write then 1 else 0)), i) ==
              if i == 0 then false else if i == 1 then access else write
  {
    var x := (if access then 1 else 0) + 2 * (if write then 1 else 0);
    assert (2 * x) / 2 == x && (2 * x) % 2 == 0;
    assert x / 2 == if write then 1 else 0;
  }

  // ---------------------------------------------------------------------
  // The next-instruction modifiers

  /** The next instruction has the pending modifiers' bits as well as its own. */
  lemma ModifiedBits(s: State, u: nat, i: nat)
    requires s.oa.oaLo < 0x400_0000
    ensures Bit(Modified(s, u), i) <==>
              || Bit(u, i)
              || (s.oa.oaLoSet && i < 26 && Bit(s.oa.oaLo, i))
              || (s.oa.oaHiSet && i >= 26 && Bit(s.oa.oaHi, i - 26))
  {
    var u1 := if s.oa.oaLoSet then BitOr(u, s.oa.oaLo) else u;
    Powers();
    BitsOfOr(u, s.oa.oaLo, i);
    BitsOfOr(u1, s.oa.oaHi * Pow2(26), i);
    BitsOfMultiple(s.oa.oaHi, 26, i);
    if i >= 26 { NoBitsAbove(s.oa.oaLo, 26, i); }
    hide Bit, BitOr, Pow2;
  }

  /** So what is written to the two modifiers is ORed into the next instruction: the low 26
      bits of the one, and the other from bit 26 up. */
  lemma ModifierApplies(s: State, v: word, io: Devices, u: nat, i: nat)
    requires !s.oa.oaLoSet && !s.oa.oaHiSet
    ensures Bit(Modified(WriteFunction(s, FUNC_DEST_OA_LOW, v, io), u), i) <==> Bit(u, i) || (i < 26 && Bit(v, i))
    ensures Bit(Modified(WriteFunction(s, FUNC_DEST_OA_HIGH, v, io), u), i) <==>
              Bit(u, i) || (i >= 26 && Bit(v, i - 26))
  {
    var lo, hi := WriteFunction(s, FUNC_DEST_OA_LOW, v, io), WriteFunction(s, FUNC_DEST_OA_HIGH, v, io);
    Powers();
    ModifiedBits(lo, u, i);
    if i < 26 { BitsOfMod(v, 26, i); }
    HighModifier(s, v, u, i);
    hide Bit, Modified, Pow2;
  }

  lemma HighModifier(s: State, v: word, u: nat, i: nat)
    requires !s.oa.oaLoSet
    ensures Bit(Modified(s.(oa := s.oa.(oaHi := v, oaHiSet := true)), u), i) <==>
              Bit(u, i) || (i >= 26 && Bit(v, i - 26))
  {
    Powers();
    BitsOfOr(u, v * Pow2(26), i);
    BitsOfMultiple(v, 26, i);
    hide Bit, BitOr, Pow2;
  }

  // ---------------------------------------------------------------------
  // The output bus without the ALU

  /** Output selection 0 puts the rotated M source on the bus. */
  lemma MaskBusBits(s: State, u: nat, m: word, a: word, i: nat)
    requires OutputBus(u) == 0 && i < 32
    ensures Bit(AluBus(s, u, m, a), (i + Rotation(u)) % 32) == Bit(m, i)
  {
    hide *;
    MaskBus(s, u, m, a);
    Rotated(m, Rotation(u), i);
  }

  lemma MaskBus(s: State, u: nat, m: word, a: word)
    requires OutputBus(u) == 0
    ensures Rotation(u) < 32 && AluBus(s, u, m, a) == ByteUnit.RotateLeft(m, Rotation(u))
  {
    hide ByteUnit.RotateLeft, OutputBus;
  }

  lemma Rotated(m: word, n: nat, i: nat)
    requires n < 32 && i < 32
    ensures Bit(ByteUnit.RotateLeft(m, n), (i + n) % 32) == Bit(m, i)
  {
    hide *;
    var j := if i + n < 32 then i + n else i + n - 32;
    Around(i, n);
    ByteUnit.RotateBits(m, n, j);
  }

  lemma Around(i: nat, n: nat)
    requires i < 32 && n < 32
    ensures (i + n) % 32 == if i + n < 32 then i + n else i + n - 32
  {
  }
}
