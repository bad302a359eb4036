/** One microinstruction of the CADR, as a function of the machine state. */
module Cpu {
  import opened Words
  import opened Mem
  import opened MicroWord
  import Alu
  import ByteUnit

  type AMem = s: seq<word> | |s| == 1024 witness seq(1024, i => 0)
  type MMem = s: seq<word> | |s| == 32 witness seq(32, i => 0)
  type DispMem = s: seq<word> | |s| == 2048 witness seq(2048, i => 0)
  type Ring = s: seq<word> | |s| == 32 witness seq(32, i => 0)
  type index5 = x: int | 0 <= x < 32
  type index10 = x: int | 0 <= x < 1024
  type ControlStore = s: seq<nat> | |s| == 0x4000 witness seq(0x4000, i => 0)
  type Prom = s: seq<nat> | |s| == 512 witness seq(512, i => 0)

  datatype IoWrite = IoWrite(page: nat, register: nat, value: word)

  /** Value of a device register at (page, register), supplied from outside. */
  type Devices = (nat, nat) -> word

  /** A, M, dispatch and PDL memories. */
  datatype Scratchpads = Scratchpads(
    aMem: AMem, mMem: MMem, dispMem: DispMem, pdl: AMem, pdlPtr: index10, pdlIndex: index10)

  /** The ring of micro-return addresses. */
  datatype MicroStack = MicroStack(spc: Ring, spcPtr: index5)

  /** The memory interface; a read's word waits in newMd until it reaches MD. */
  datatype MemoryPort = MemoryPort(
    md: word, vma: word, opc: word, newMd: word, newMdDelay: nat,
    pageFault: bool, writeFault: bool, accessFault: bool)

  /** Q, the last ALU output, and what an undefined M source reads. */
  datatype AluRegs = AluRegs(q: word, aluOut: word, aluCarry: bool, mLatch: word)

  /** Bits to OR into the next instruction. */
  datatype Modifiers = Modifiers(oaLo: word, oaHi: word, oaLoSet: bool, oaHiSet: bool)

  datatype Controls = Controls(
    lc: word, interruptControl: word, interruptStatus: word, dispConst: word)

  datatype Stores = Stores(running: bool, promEnabled: bool, prom: Prom, ucode: ControlStore)

  datatype State = State(
    pads: Scratchpads, ring: MicroStack, bus: MemoryPort, alu: AluRegs, oa: Modifiers,
    ctl: Controls, store: Stores, mem: Memory, log: seq<IoWrite>)

  /** State, next fetch address, and whether the prefetched word is annulled. */
  datatype Control = Control(s: State, upc: nat, annul: bool)

  const NEED_FETCH := 0x8000_0000

  predicate ByteMode(s: State) { (s.ctl.interruptControl / 0x2000_0000) % 2 == 1 }
  predicate InterruptEnabled(s: State) { (s.ctl.interruptControl / 0x800_0000) % 2 == 1 }
  predicate SequenceBreak(s: State) { (s.ctl.interruptControl / 0x400_0000) % 2 == 1 }
  predicate InterruptPending(s: State) { (s.ctl.interruptStatus / 0x4000) % 4 != 0 }

  // ---------------------------------------------------------------------
  // Virtual memory accesses

  datatype Read = Read(s: State, value: word, ok: bool)
  datatype Write = Write(s: State, ok: bool)

  predicate ColorWindow(va: word) { VirtualPage(va) / 0x80 == 0x1FA }

  function Walked(s: State, va: word): State {
    s.(bus := s.bus.(accessFault := false, writeFault := false, pageFault := false), mem := NoteWalk(s.mem, va))
  }

  /** A page that has no frame and is no device. */
  function PageFault(s: State, pn: nat): State
    requires pn < 0x4000
  {
    s.(bus := s.bus.(pageFault := true, opc := pn))
  }

  predicate DevicePage(pn: nat) { pn == 0x3FF4 || pn == DISK_PAGE || 0x3DFC <= pn <= 0x3DFE }

  /** Device registers on read: page 037764 is the I/O board, word addresses
      doubled; on 036777 only the disk and TV registers answer. */
  function DeviceRead(pn: nat, offset: nat, io: Devices): word {
    if pn == 0x3FF4 then io(pn, 2 * offset)
    else if pn == DISK_PAGE && offset < 0xF8 && offset != 0xF0 then 0
    else io(pn, offset)
  }

  predicate UnibusReadable(offset: nat) { offset in {32, 36, 64, 68, 72, 76} }

  function ReadMem(s: State, va: word, io: Devices): Read {
    var entry := Entry(s.mem, va);
    var pn, offset := PageNumber(entry), va % 0x100;
    var s1 := Walked(s, va);
    if !Accessible(entry) then Read(PageFault(s1.(bus := s1.bus.(accessFault := true)), pn), 0, false)
    else if pn < RAM_PAGES && s.mem.table[pn].Some? then Read(s1, FrameWord(s.mem, pn, offset), true)
    else if RAM_PAGES <= pn < TV_PAGE then Read(s1, 0xFFFF_FFFF, true)
    else if pn == TV_PAGE then Read(s1, if ColorWindow(va) then 0 else io(pn, va % 0x8000), true)
    else if pn == 0x3FF6 && UnibusReadable(offset) then Read(s1, 0, true)
    else if DevicePage(pn) then Read(s1, DeviceRead(pn, offset, io), true)
    else if s.mem.table[pn].None? then Read(PageFault(s1, pn), 0, false)
    else Read(s1, FrameWord(s.mem, pn, offset), true)
  }

  /** Replace the masked bits of the interrupt status. */
  function Masked(was: word, mask: word, v: word): word { Or(And(was, Not(mask)), And(v, mask)) }

  predicate UnibusWritable(reg: nat) {
    reg <= 30 || reg in {32, 34, 36, 64, 68, 72, 76} || 96 <= reg <= 126
  }

  /** Unibus registers on write, at doubled word addresses: the PROM switch, the
      interrupt registers, the debug interface and the mapping registers. */
  function UnibusWrite(s: State, reg: nat, v: word): State {
    if reg == 10 && And(v, 0x24) == 0x24 then s.(store := s.store.(promEnabled := false))
    else if reg == 32 then s.(ctl := s.ctl.(interruptStatus := Masked(s.ctl.interruptStatus, 0x3C01, v)))
    else if reg == 34 then s.(ctl := s.ctl.(interruptStatus := Masked(s.ctl.interruptStatus, 0x83FC, v)))
    else if reg in {64, 68, 72, 76} then s.(log := s.log + [IoWrite(0x3FF6, reg, v)])
    else s
  }

  function Log(s: State, pn: nat, register: nat, v: word): State {
    s.(log := s.log + [IoWrite(pn, register, v)])
  }

  /** A store that is neither RAM nor a device: it needs a frame. C doubles the
      offset on the Unibus page and may then leave the page; such a store is not
      modelled and changes nothing here. */
  function LastResort(s: State, pn: nat, offset: nat, v: word): Write
    requires pn < 0x4000
  {
    if s.mem.table[pn].None? then Write(PageFault(s, pn), false)
    else if offset < 256 then Write(s.(mem := StoreWord(s.mem, pn, offset, v)), true)
    else Write(s, true)
  }

  function WriteMem(s: State, va: word, v: word): Write {
    var entry := Entry(s.mem, va);
    var pn, offset := PageNumber(entry), va % 0x100;
    var s1 := Walked(s, va);
    if !Accessible(entry) then Write(PageFault(s1.(bus := s1.bus.(accessFault := true)), pn), false)
    else if !Writable(entry) then Write(PageFault(s1.(bus := s1.bus.(writeFault := true)), pn), false)
    else if pn < RAM_PAGES && s.mem.table[pn].Some? then
      Write(s1.(mem := StoreWord(s1.mem, pn, offset, v)), true)
    else if pn == TV_PAGE then
      Write(if ColorWindow(va) then s1 else Log(s1, pn, va % 0x8000, v), true)
    else if pn == 0x3FF0 then Write(s1, true)
    else if pn == 0x3FF4 then Write(Log(s1, pn, 2 * offset, v), true)
    else if pn == 0x3FF6 then
      if UnibusWritable(2 * offset) then Write(UnibusWrite(s1, 2 * offset, v), true)
      else LastResort(s1, pn, 2 * offset, v)
    else if pn == DISK_PAGE && offset < 0xF8 && offset != 0xF0 then LastResort(s1, pn, offset, v)
    else if DevicePage(pn) then Write(Log(s1, pn, offset, v), true)
    else LastResort(s1, pn, offset, v)
  }

  // ---------------------------------------------------------------------
  // The micro-return ring and the instruction stream

  function PushSpc(s: State, v: word): State {
    var p := (s.ring.spcPtr + 1) % 32;
    s.(ring := s.ring.(spcPtr := p, spc := s.ring.spc[p := v]))
  }

  function DropSpc(s: State): State { s.(ring := s.ring.(spcPtr := (s.ring.spcPtr + 31) % 32)) }

  /** A stepped location counter, where it was, and whether it needed a fetch. */
  datatype Counter = Counter(lc: word, at: word, need: bool)

  /** Step the counter by a byte or a halfword; NEED-FETCH moves from before the
      step to after a word's last item. */
  function StepCounter(lc: word, byteMode: bool): Counter {
    var stepped := Wrap(lc + (if byteMode then 1 else 2));
    var need := stepped >= NEED_FETCH;
    var plain := if need then stepped - NEED_FETCH else stepped;
    var last := !(byteMode && plain % 2 == 1) && (plain / 2) % 2 == 0;
    Counter(if last then plain + NEED_FETCH else plain, lc % 0x400_0000, need)
  }

  datatype Advance = Advance(s: State, fetched: bool)

  /** advance_lc: step the location counter, fetching the word it pointed at when
      NEED-FETCH is set. */
  function AdvanceLc(s: State, io: Devices): Advance {
    var c := StepCounter(s.ctl.lc, ByteMode(s));
    var s1 := s.(ctl := s.ctl.(lc := c.lc));
    Advance(if c.need then StartRead(s1.(bus := s1.bus.(vma := c.at / 4)), c.at / 4, io) else s1, c.need)
  }

  /** Start a main memory read; the word reaches MD two cycles later. */
  function StartRead(s: State, va: word, io: Devices): State {
    var r := ReadMem(s, va, io);
    r.s.(bus := r.s.bus.(newMd := r.value, newMdDelay := 2))
  }

  datatype Popped = Popped(s: State, target: nat)

  /** A return address off the ring; bit 14 asks for the next macroinstruction
      and, when no word need be fetched for it, skips two microinstructions. */
  function PopTarget(s: State, io: Devices): Popped {
    var v, s1 := s.ring.spc[s.ring.spcPtr], DropSpc(s);
    if (v / 0x4000) % 2 == 0 then Popped(s1, v % 0x4000)
    else
      var adv := AdvanceLc(s1, io);
      Popped(adv.s, (if adv.fetched || (v / 2) % 2 == 1 then v else v + 2) % 0x4000)
  }

  // ---------------------------------------------------------------------
  // Sources and destinations

  datatype Source = Source(s: State, value: word)

  function Flag(b: bool, weight: nat): nat { if b then weight else 0 }

  /** The MAP source: fault bits, level-1 value and level-2 entry for MD. */
  function MapSource(s: State): word {
    var l1 := if Windowed(s.bus.md) then 0 else L1Of(s.mem, s.bus.md);
    Flag(s.bus.writeFault, 0x8000_0000) + Flag(s.bus.accessFault, 0x4000_0000)
      + l1 * 0x100_0000 + Entry(s.mem, s.bus.md) % 0x100_0000
  }

  function StackTop(s: State): word { s.ring.spcPtr * 0x100_0000 + s.ring.spc[s.ring.spcPtr] % 0x8_0000 }

  function MSource(s: State, u: nat): Source {
    if MSrc(u) < 32 then Source(s, s.pads.mMem[MSrc(u)])
    else
      match MSrc(u) - 32
      case 0 => Source(s, s.ctl.dispConst)
      case 1 => Source(s, StackTop(s))
      case 2 => Source(s, s.pads.pdlPtr)
      case 3 => Source(s, s.pads.pdlIndex)
      case 5 => Source(s, s.pads.pdl[s.pads.pdlIndex])
      case 6 => Source(s, s.bus.opc)
      case 7 => Source(s, s.alu.q)
      case 8 => Source(s, s.bus.vma)
      case 9 => Source(s.(mem := NoteWalk(s.mem, s.bus.md)), MapSource(s))
      case 10 => Source(s, s.bus.md)
      case 11 => Source(s, if ByteMode(s) then s.ctl.lc else s.ctl.lc - s.ctl.lc % 2)
      case 12 => Source(DropSpc(s), StackTop(s))
      case 20 => Source(s.(pads := s.pads.(pdlPtr := (s.pads.pdlPtr + 1023) % 1024)), s.pads.pdl[s.pads.pdlPtr])
      case 21 => Source(s, s.pads.pdl[s.pads.pdlPtr])
      case _ => Source(s, s.alu.mLatch)
  }

  function WriteA(s: State, loc: index10, v: word): State { s.(pads := s.pads.(aMem := s.pads.aMem[loc := v])) }

  /** M memory shadows the first 32 words of A memory. */
  function WriteM(s: State, loc: index5, v: word): State {
    s.(pads := s.pads.(mMem := s.pads.mMem[loc := v], aMem := s.pads.aMem[loc := v]))
  }

  function LcWritten(lc: word, v: word, byteMode: bool): word {
    var low := v % 0x400_0000;
    var kept := lc - lc % 0x400_0000 + (if byteMode then low else low - low % 2);
    if kept < NEED_FETCH then kept + NEED_FETCH else kept
  }

  function WriteLc(s: State, v: word): State {
    s.(ctl := s.ctl.(lc := LcWritten(s.ctl.lc, v, ByteMode(s))))
  }

  /** Interrupt control bits 29-26 also show in the location counter. */
  function WriteInterruptControl(s: State, v: word): State {
    var flags := ((s.ctl.lc / 0x400_0000) % 16) * 0x400_0000;
    s.(ctl := s.ctl.(interruptControl := v, lc := s.ctl.lc - flags + ((v / 0x400_0000) % 16) * 0x400_0000))
  }

  /** The functional destinations, before the copy into M memory. */
  function WriteFunction(s: State, func: nat, v: word, io: Devices): State {
    match func
    case 1 => WriteLc(s, v)
    case 2 => WriteInterruptControl(s, v)
    case 8 => s.(pads := s.pads.(pdl := s.pads.pdl[s.pads.pdlPtr := v]))
    case 9 => var p := (s.pads.pdlPtr + 1) % 1024; s.(pads := s.pads.(pdlPtr := p, pdl := s.pads.pdl[p := v]))
    case 10 => s.(pads := s.pads.(pdl := s.pads.pdl[s.pads.pdlIndex := v]))
    case 11 => s.(pads := s.pads.(pdlIndex := v % 1024))
    case 12 => s.(pads := s.pads.(pdlPtr := v % 1024))
    case 13 => PushSpc(s, v)
    case 14 => s.(oa := s.oa.(oaLo := v % 0x400_0000, oaLoSet := true))
    case 15 => s.(oa := s.oa.(oaHi := v, oaHiSet := true))
    case 16 => s.(bus := s.bus.(vma := v))
    case 17 => StartRead(s.(bus := s.bus.(vma := v)), v, io)
    case 18 => WriteMem(s.(bus := s.bus.(vma := v)), v, s.bus.md).s
    case 19 => s.(bus := s.bus.(vma := v), mem := WriteMap(s.mem, s.bus.md, v))
    case 24 => s.(bus := s.bus.(md := v))
    case 25 => StartRead(s.(bus := s.bus.(md := v)), s.bus.vma, io)
    case 26 => WriteMem(s.(bus := s.bus.(md := v)), s.bus.vma, v).s
    case 27 => s.(bus := s.bus.(md := v), mem := WriteMap(s.mem, v, s.bus.vma))
    case _ => s
  }

  function WriteDest(s: State, dest: nat, v: word, io: Devices): State
    requires dest < 3072
  {
    if dest >= 2048 then WriteA(s, dest - 2048, v)
    else WriteM(WriteFunction(s, dest / 32, v, io), dest % 32, v)
  }

  // ---------------------------------------------------------------------
  // ALU

  /** The output bus of an ALU instruction; mask output rotates the M source. */
  function AluBus(s: State, u: nat, m: word, a: word): word {
    if OutputBus(u) == 0 then ByteUnit.RotateLeft(m, Rotation(u))
    else Alu.Bus(OutputBus(u), Alu.Operate(AluOp(u), m, a, s.alu.q, s.alu.aluOut, CarryIn(u)), s.alu.q)
  }

  function ExecAlu(s: State, u: nat, m: word, a: word, io: Devices): State
    requires Dest(u) < 3072
  {
    var r := Alu.Operate(AluOp(u), m, a, s.alu.q, s.alu.aluOut, CarryIn(u));
    var s1 := s.(alu := s.alu.(aluOut := r.out, aluCarry := r.carry, q := Alu.NextQ(QControl(u), s.alu.q, r.out)));
    WriteDest(s1, Dest(u), AluBus(s, u, m, a), io)
  }

  // ---------------------------------------------------------------------
  // BYTE and DISPATCH positions

  /** Misc function 3 takes the field position from the location counter. */
  function Position(s: State, u: nat): index5 {
    if Misc(u) != 3 then Rotation(u)
    else
      var ir4, ir3, lc1, lc0 := (u / 16) % 2, (u / 8) % 2, (s.ctl.lc / 2) % 2, s.ctl.lc % 2;
      if ByteMode(s) then
        u % 8 + 16 * ((ir4 + lc1 + lc0) % 2) + 8 * ((ir3 + lc0) % 2)
      else u % 16 + (if ir4 == lc1 then 16 else 0)
  }

  function ExecByte(s: State, u: nat, m: word, a: word, io: Devices): State
    requires Dest(u) < 3072
  {
    WriteDest(s, Dest(u), ByteUnit.Byte(ByteFunc(u), m, a, Position(s, u), WidthM1(u)), io)
  }

  // ---------------------------------------------------------------------
  // JUMP

  /** The source stores the sum of three flags in a char: the sequence-break
      flag, bit 26 of an int, does not survive. */
  function AsChar(x: nat): nat { x % 256 }

  function JumpFlags(s: State, withBreak: bool): nat {
    var interrupt := if InterruptEnabled(s) && InterruptPending(s) then 1 else 0;
    BitOr(BitOr(Flag(s.bus.pageFault, 1), interrupt), Flag(withBreak && SequenceBreak(s), 0x400_0000))
  }

  predicate ConditionHolds(s: State, cond: nat, m: word, a: word) {
    match cond
    case 1 => Signed(m) < Signed(a)
    case 2 => Signed(m) <= Signed(a)
    case 3 => m == a
    case 4 => s.bus.pageFault
    case 5 => AsChar(JumpFlags(s, false)) != 0
    case 6 => AsChar(JumpFlags(s, true)) != 0
    case 7 => true
    case _ => false
  }

  /** The M source as the rest of a jump sees it: rotated by a bit jump. */
  function JumpM(u: nat, m: word): word {
    if ConditionCoded(u) then m else ByteUnit.RotateLeft(m, Rotation(u))
  }

  predicate TakeJump(s: State, u: nat, m: word, a: word) {
    var holds := if ConditionCoded(u) then ConditionHolds(s, Condition(u), m, a) else JumpM(u, m) % 2 == 1;
    holds != InvertSense(u)
  }

  /** P and R together write the control store, whether the jump is taken or not. */
  function StoreAfter(words: ControlStore, u: nat, m: word, a: word): ControlStore {
    if PBit(u) && RBit(u) then
      words[JumpTarget(u) := (a % 0x1_0000) * 0x1_0000_0000 + JumpM(u, m)]
    else words
  }

  function WriteControlStore(s: State, u: nat, m: word, a: word): State {
    s.(store := s.store.(ucode := StoreAfter(s.store.ucode, u, m, a)))
  }

  /** A jump before its transfer: call pushed, control store written. */
  function JumpEffects(s: State, u: nat, m: word, a: word, take: bool, upc: nat): State {
    var s1 := if PBit(u) && take then PushSpc(s, Wrap(if NBit(u) then upc - 1 else upc)) else s;
    WriteControlStore(s1, u, m, a)
  }

  function ExecJump(s: State, u: nat, m: word, a: word, upc: nat, io: Devices): Control {
    if Misc(u) == 1 then MaybePop(s.(store := s.store.(running := false)), u, upc, io)
    else
      var take := TakeJump(s, u, m, a);
      var s2 := JumpEffects(s, u, m, a, take, upc);
      if !take then MaybePop(s2, u, upc, io)
      else if RBit(u) then
        var p := PopTarget(s2, io);
        Control(p.s, p.target, NBit(u))
      else Control(s2, JumpTarget(u), NBit(u))
  }

  /** POPJ, unless a taken jump inhibited it. */
  function MaybePop(s: State, u: nat, upc: nat, io: Devices): Control {
    if PopJ(u) then
      var p := PopTarget(s, io);
      Control(p.s, p.target, false)
    else Control(s, upc, false)
  }

  // ---------------------------------------------------------------------
  // DISPATCH

  /** The dispatch table index: address, rotated and masked M source, map bits. */
  function DispatchIndex(s: State, u: nat, m: word): nat {
    var mask: word := if DispLength(u) == 0 then 0 else Shr(0xFFFF_FFFF, 32 - DispLength(u));
    var entry := Entry(s.mem, s.bus.md);
    var bit18, bit19 := (entry / 0x4_0000) % 2, (entry / 0x8_0000) % 2;
    var mapBits := match DispMap(u)
      case 0 => 0
      case 1 => bit18
      case 2 => bit19
      case _ => BitOr(bit18, bit19);
    BitOr(BitOr(DispAddr(u), And(ByteUnit.RotateLeft(m, Position(s, u)), mask)), mapBits) % 2048
  }

  function DispatchEntry(s: State, u: nat, m: word): word { s.pads.dispMem[DispatchIndex(s, u, m)] }

  /** A dispatch before its transfer: constant latched, map walked, stream advanced. */
  function DispatchEffects(s: State, u: nat, io: Devices): State {
    var s1 := if DispMap(u) != 0 then s.(mem := NoteWalk(s.mem, s.bus.md)) else s;
    var s2 := s1.(ctl := s1.ctl.(dispConst := DispConst(u)));
    if AdvanceStream(u) then AdvanceLc(s2, io).s else s2
  }

  /** The transfer a table entry asks for, with n + 1 backing the address up. */
  function DispatchTransfer(s: State, u: nat, e: word, upc: nat, io: Devices): Control
    requires upc > 0
  {
    var upc1 := if NPlus1(u) && EntryN(e) then upc - 1 else upc;
    if EntryP(e) && EntryR(e) then MaybePop(s, u, upc1, io).(annul := EntryN(e))
    else if EntryR(e) then
      var p := PopTarget(s, io);
      Control(p.s, p.target, EntryN(e))
    else
      var s1 := if EntryP(e) then PushSpc(s, Wrap(if EntryN(e) then upc1 - 1 else upc1)) else s;
      Control(s1, EntryTarget(e), EntryN(e))
  }

  /** Misc function 2 writes the dispatch memory instead of dispatching. */
  function ExecDispatch(s: State, u: nat, m: word, a: word, upc: nat, io: Devices): Control
    requires upc > 0
  {
    if Misc(u) == 2 then
      MaybePop(s.(pads := s.pads.(dispMem := s.pads.dispMem[DispAddr(u) := a])), u, upc, io)
    else DispatchTransfer(DispatchEffects(s, u, io), u, DispatchEntry(s, u, m), upc, io)
  }

  // ---------------------------------------------------------------------
  // One instruction and one cycle

  function ExecOp(s: State, u: nat, m: word, a: word, upc: nat, io: Devices): Control
    requires upc > 0 && (Op(u) in {OP_ALU, OP_BYTE} ==> Dest(u) < 3072)
  {
    match Op(u)
    case 0 => MaybePop(ExecAlu(s, u, m, a, io), u, upc, io)
    case 1 => ExecJump(s, u, m, a, upc, io)
    case 2 => ExecDispatch(s, u, m, a, upc, io)
    case _ => MaybePop(ExecByte(s, u, m, a, io), u, upc, io)
  }

  /** Execute u; upc is the address after the prefetched one. */
  function Execute(s: State, u: nat, upc: nat, io: Devices): Control
    requires upc > 0 && DestInRange(u)
  {
    var a := s.pads.aMem[ASrc(u)];
    var src := MSource(s, u);
    if Op(u) == OP_ALU && IsNop(u) then Control(s.(alu := s.alu.(mLatch := src.value)), upc, false)
    else ExecOp(src.s.(alu := src.s.alu.(mLatch := 0)), u, src.value, a, upc, io)
  }

  /** What a cycle takes from outside: the interrupt status the polled devices
      leave, and what their registers read. */
  datatype Input = Input(status: Option<word>, io: Devices)

  /** The polled devices may change the interrupt status. */
  function Polled(s: State, inp: Input): State {
    if inp.status.None? then s else s.(ctl := s.ctl.(interruptStatus := inp.status.value))
  }

  /** Memory data reaches MD when its delay has run out. */
  function Arrived(s: State): State {
    if s.bus.newMdDelay == 0 then s
    else if s.bus.newMdDelay == 1 then s.(bus := s.bus.(newMdDelay := 0, md := s.bus.newMd))
    else s.(bus := s.bus.(newMdDelay := s.bus.newMdDelay - 1))
  }

  function Settle(s: State, inp: Input): State { Arrived(Polled(s, inp)) }

  /** The instruction with the pending OA modifiers ORed in. */
  function Modified(s: State, u: nat): nat {
    var u1 := if s.oa.oaLoSet then BitOr(u, s.oa.oaLo) else u;
    if s.oa.oaHiSet then BitOr(u1, s.oa.oaHi * 0x400_0000) else u1
  }

  function ClearModifiers(s: State): State { s.(oa := s.oa.(oaLoSet := false, oaHiSet := false)) }

  /** The state an instruction executes in. */
  function Prepared(s: State, inp: Input): State { ClearModifiers(Settle(s, inp)) }

  predicate PcInRange(s: State, pc: nat) { pc < if s.store.promEnabled then 512 else 0x4000 }

  function Fetch(s: State, pc: nat): nat
    requires PcInRange(s, pc)
  {
    if s.store.promEnabled then s.store.prom[pc] else s.store.ucode[pc]
  }

  /** Every register and memory word zero, the PROM enabled. */
  function Cleared(prom: Prom, mem: Memory): State {
    State(Scratchpads(seq(1024, i => 0), seq(32, i => 0), seq(2048, i => 0), seq(1024, i => 0), 0, 0),
          MicroStack(seq(32, i => 0), 0), MemoryPort(0, 0, 0, 0, 0, false, false, false),
          AluRegs(0, 0, false, 0), Modifiers(0, 0, false, false), Controls(0, 0, 0, 0),
          Stores(true, true, prom, seq(0x4000, i => 0)), mem, [])
  }

  /** The state in which run() starts its loop. */
  function PowerOn(prom: Prom, junk: nat -> Page): State { Cleared(prom, Initial(junk)) }
}
