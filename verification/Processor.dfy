/** The processor as the emulator keeps it: memories updated in place, registers in
    variables, and run()'s body as a method, each proved against the state model. */
module Processor {
  import opened Words
  import opened Mem
  import opened MicroWord
  import opened Cpu
  import opened MemoryUnit
  import Alu
  import ByteUnit
  import Pipeline

  /** The processor's memories, cleared. */
  method ClearedMemories() returns (a: array<word>, m: array<word>, d: array<word>, pdl: array<word>, spc: array<word>,
                                    store: array<nat>)
    ensures fresh(a) && fresh(m) && fresh(d) && fresh(pdl) && fresh(spc) && fresh(store)
    ensures a != pdl && m != spc
    ensures a.Length == pdl.Length == 1024 && a[..] == pdl[..] == seq(1024, i => 0)
    ensures m.Length == spc.Length == 32 && m[..] == spc[..] == seq(32, i => 0)
    ensures d.Length == 2048 && d[..] == seq(2048, i => 0)
    ensures store.Length == 0x4000 && store[..] == seq(0x4000, i => 0)
  {
    a, pdl := new word[1024](i => 0), new word[1024](i => 0);
    m, spc := new word[32](i => 0), new word[32](i => 0);
    d := new word[2048](i => 0);
    store := new nat[0x4000](i => 0);
  }

  class Cadr {
    const aMemory: array<word>
    const mMemory: array<word>
    const dispatchMemory: array<word>
    const pdlMemory: array<word>
    const spcStack: array<word>
    const ucode: array<nat>
    const promUcode: Prom
    const mem: MemUnit
    var pdlPtr: index10
    var pdlIndex: index10
    var spcStackPtr: index5
    var bus: MemoryPort
    var alu: AluRegs
    var oa: Modifiers
    var ctl: Controls
    var running: bool
    var promEnabled: bool
    var log: seq<IoWrite>
    // run()'s pipeline
    var p1: nat
    var p1Pc: nat
    var uPc: nat
    var noExecNext: bool

    ghost function Arrays(): set<object> {
      {aMemory as object, mMemory, dispatchMemory, pdlMemory, spcStack, ucode}
    }

    ghost function Own(): set<object> {
      {this} + Arrays()
    }

    ghost function Repr(): set<object>
      reads mem
    {
      Own() + mem.Repr()
    }

    ghost predicate Sized() {
      && aMemory.Length == 1024 && mMemory.Length == 32 && dispatchMemory.Length == 2048
      && pdlMemory.Length == 1024 && spcStack.Length == 32 && ucode.Length == 0x4000
      && aMemory != pdlMemory && mMemory != spcStack
    }

    ghost predicate Valid()
      reads mem, mem.Repr()
    {
      Sized() && mem.Valid() && Own() !! mem.Repr()
    }

    ghost function Pads(): Scratchpads
      reads `pdlPtr, `pdlIndex, aMemory, mMemory, dispatchMemory, pdlMemory
      requires Sized()
    {
      Scratchpads(aMemory[..], mMemory[..], dispatchMemory[..], pdlMemory[..], pdlPtr, pdlIndex)
    }

    ghost function Ring(): MicroStack
      reads `spcStackPtr, spcStack
      requires Sized()
    {
      MicroStack(spcStack[..], spcStackPtr)
    }

    ghost function Store(): Stores
      reads `running, `promEnabled, ucode
      requires Sized()
    {
      Stores(running, promEnabled, promUcode, ucode[..])
    }

    ghost function State(): State
      reads `pdlPtr, `pdlIndex, `spcStackPtr, `bus, `alu, `oa, `ctl, `running, `promEnabled, `log
      reads Arrays(), mem, mem.Repr()
      requires Valid()
    {
      Cpu.State(Pads(), Ring(), bus, alu, oa, ctl, Store(), mem.State(), log)
    }

    ghost function Machine(): Pipeline.Machine
      reads this, Arrays(), mem, mem.Repr()
      requires Valid()
    {
      Pipeline.Machine(State(), p1, p1Pc, uPc, noExecNext)
    }

    /** The pipeline locals, which data operations leave alone. */
    ghost function Locals(): (nat, nat, nat, bool)
      reads this
    {
      (p1, p1Pc, uPc, noExecNext)
    }

    /** A processor over a given memory: everything zero, the PROM enabled. */
    constructor (memory: MemUnit, prom: Prom)
      requires memory.Valid()
      ensures Valid() && fresh(Own()) && mem == memory
      ensures memory.State() == old(memory.State())
      ensures Machine() == Pipeline.Reset(Cleared(prom, memory.State()))
    {
      hide MemUnit.State, MemUnit.Valid;
      var a, m, d, pdl, spc, store := ClearedMemories();
      aMemory, mMemory, dispatchMemory, pdlMemory, spcStack, ucode := a, m, d, pdl, spc, store;
      promUcode := prom;
      mem := memory;
      pdlPtr, pdlIndex, spcStackPtr := 0, 0, 0;
      bus := MemoryPort(0, 0, 0, 0, 0, false, false, false);
      alu := AluRegs(0, 0, false, 0);
      oa := Modifiers(0, 0, false, false);
      ctl := Controls(0, 0, 0, 0);
      running, promEnabled, log := true, true, [];
      p1, p1Pc, uPc, noExecNext := 0, 0, 0, false;
      new;
      assert mem.Repr() == old(memory.Repr());
    }

    // -------------------------------------------------------------------
    // The micro-return ring

    method PushSpc(v: word)
      requires Valid()
      modifies `spcStackPtr, spcStack
      ensures Valid() && State() == Cpu.PushSpc(old(State()), v) && Repr() == old(Repr())
    {
      hide Pads, Store, MemUnit.Valid, MemUnit.State;
      spcStackPtr := (spcStackPtr + 1) % 32;
      spcStack[spcStackPtr] := v;
    }

    method PopSpc() returns (v: word)
      requires Valid()
      modifies `spcStackPtr
      ensures Valid() && State() == DropSpc(old(State())) && Repr() == old(Repr())
      ensures v == old(State()).ring.spc[old(State()).ring.spcPtr]
    {
      hide Pads, Store, MemUnit.Valid, MemUnit.State;
      v := spcStack[spcStackPtr];
      spcStackPtr := (spcStackPtr + 31) % 32;
    }

    // -------------------------------------------------------------------
    // Virtual memory

    /** The map walk every access starts with, its fault bits cleared. */
    method Walk(va: word) returns (entry: word, offset: nat)
      requires Valid()
      modifies `bus, mem`lastVirt, mem`lastL1, mem`lastL2
      ensures Valid() && Repr() == old(Repr()) && State() == Walked(old(State()), va)
      ensures entry == Entry(old(State()).mem, va) && offset == va % 0x100
    {
      hide Pads, Ring, Store, MemUnit.Valid, MemUnit.State;
      bus := bus.(accessFault := false, writeFault := false, pageFault := false);
      var l2, _, inPage := mem.MapVtop(va);
      entry, offset := l2, inPage;
    }

    /** A fault on page pn, with the access or the write fault bit if that is why. */
    method Fault(pn: nat, access: bool, write: bool)
      requires Valid() && pn < 0x4000
      modifies `bus
      ensures Valid() && Repr() == old(Repr())
      ensures var s := old(State());
              State() == PageFault(s.(bus := s.bus.(accessFault := s.bus.accessFault || access,
                                                    writeFault := s.bus.writeFault || write)), pn)
    {
      hide Pads, Ring, Store, MemUnit.Valid, MemUnit.State;
      bus := bus.(accessFault := bus.accessFault || access, writeFault := bus.writeFault || write,
                  pageFault := true, opc := pn);
    }

    method PageThere(pn: nat) returns (there: bool)
      requires Valid() && pn < 0x4000
      ensures there == State().mem.table[pn].Some?
    {
      hide Pads, Ring, Store, MemUnit.Valid, MemUnit.State;
      there := mem.HasPage(pn);
    }

    method LoadWord(pn: nat, offset: nat) returns (v: word)
      requires Valid() && pn < 0x4000 && offset < 256 && State().mem.table[pn].Some?
      ensures v == FrameWord(State().mem, pn, offset)
    {
      hide Pads, Ring, Store, MemUnit.Valid, MemUnit.State, FrameWord;
      v := mem.ReadFrame(pn, offset);
    }

    method StoreWordAt(pn: nat, offset: nat, v: word)
      requires Valid() && pn < 0x4000 && offset < 256 && State().mem.table[pn].Some?
      modifies mem.blocks, mem`frames
      ensures Valid() && Repr() == old(Repr())
      ensures State() == old(State()).(mem := StoreWord(old(State()).mem, pn, offset, v))
    {
      hide Pads, Ring, Store, MemUnit.Valid, MemUnit.State, StoreWord;
      mem.WriteFrame(pn, offset, v);
    }

    method LogWrite(pn: nat, register: nat, v: word)
      requires Valid()
      modifies `log
      ensures Valid() && Repr() == old(Repr()) && State() == Log(old(State()), pn, register, v)
    {
      hide Pads, Ring, Store, MemUnit.Valid, MemUnit.State;
      log := log + [IoWrite(pn, register, v)];
    }

    method ReadMem(va: word, io: Devices) returns (v: word, ok: bool)
      requires Valid()
      modifies `bus, mem`lastVirt, mem`lastL1, mem`lastL2
      ensures Valid() && Repr() == old(Repr())
      ensures Cpu.Read(State(), v, ok) == Cpu.ReadMem(old(State()), va, io)
    {
      WalkedSame(State(), va);
      hide Cadr.State, MemUnit.Valid, Entry, Walked, FrameWord, DeviceRead, UnibusReadable, ColorWindow, Accessible;
      var entry, offset := Walk(va);
      var pn := PageNumber(entry);
      if !Accessible(entry) {
        Fault(pn, true, false);
        return 0, false;
      }
      var there := PageThere(pn);
      if pn < RAM_PAGES && there {
        v := LoadWord(pn, offset);
        return v, true;
      }
      if RAM_PAGES <= pn < TV_PAGE {
        return 0xFFFF_FFFF, true;
      }
      if pn == TV_PAGE {
        return if ColorWindow(va) then 0 else io(pn, va % 0x8000), true;
      }
      if pn == 0x3FF6 && UnibusReadable(offset) {
        return 0, true;
      }
      if DevicePage(pn) {
        return DeviceRead(pn, offset, io), true;
      }
      if !there {
        Fault(pn, false, false);
        return 0, false;
      }
      v := LoadWord(pn, offset);
      ok := true;
    }

    method StoreOrFault(pn: nat, offset: nat, v: word) returns (ok: bool)
      requires Valid() && pn < 0x4000
      modifies `bus, mem.blocks, mem`frames
      ensures Valid() && Repr() == old(Repr())
      ensures Cpu.Write(State(), ok) == LastResort(old(State()), pn, offset, v)
    {
      hide Cadr.State, MemUnit.Valid, StoreWord;
      var there := PageThere(pn);
      if !there {
        Fault(pn, false, false);
        return false;
      }
      if offset < 256 {
        StoreWordAt(pn, offset, v);
      }
      ok := true;
    }

    method WriteUnibus(reg: nat, v: word)
      requires Valid()
      modifies `promEnabled, `ctl, `log
      ensures Valid() && Repr() == old(Repr())
      ensures State() == UnibusWrite(old(State()), reg, v)
    {
      hide Pads, Ring, MemUnit.Valid, MemUnit.State;
      if reg == 10 && And(v, 0x24) == 0x24 {
        promEnabled := false;
      } else if reg == 32 {
        ctl := ctl.(interruptStatus := Masked(ctl.interruptStatus, 0x3C01, v));
      } else if reg == 34 {
        ctl := ctl.(interruptStatus := Masked(ctl.interruptStatus, 0x83FC, v));
      } else if reg in {64, 68, 72, 76} {
        log := log + [IoWrite(0x3FF6, reg, v)];
      }
    }

    method WriteMem(va: word, v: word) returns (ok: bool)
      requires Valid()
      modifies `bus, `promEnabled, `ctl, `log, mem`lastVirt, mem`lastL1, mem`lastL2, mem.blocks, mem`frames
      ensures Valid() && Repr() == old(Repr())
      ensures Cpu.Write(State(), ok) == Cpu.WriteMem(old(State()), va, v)
    {
      WalkedSame(State(), va);
      hide Cadr.State, MemUnit.Valid, Entry, Walked, StoreWord, UnibusWrite, LastResort, Accessible, Writable,
           UnibusWritable, ColorWindow, Log;
      var entry, offset := Walk(va);
      var pn := PageNumber(entry);
      if !Accessible(entry) {
        Fault(pn, true, false);
        return false;
      }
      if !Writable(entry) {
        Fault(pn, false, true);
        return false;
      }
      ok := true;
      var there := PageThere(pn);
      if pn < RAM_PAGES && there {
        StoreWordAt(pn, offset, v);
      } else if pn == TV_PAGE {
        if !ColorWindow(va) {
          LogWrite(pn, va % 0x8000, v);
        }
      } else if pn == 0x3FF0 {
      } else if pn == 0x3FF4 {
        LogWrite(pn, 2 * offset, v);
      } else if pn == 0x3FF6 {
        if UnibusWritable(2 * offset) {
          WriteUnibus(2 * offset, v);
        } else {
          ok := StoreOrFault(pn, 2 * offset, v);
        }
      } else if DevicePage(pn) && (pn != DISK_PAGE || offset >= 0xF8 || offset == 0xF0) {
        LogWrite(pn, offset, v);
      } else {
        ok := StoreOrFault(pn, offset, v);
      }
    }

    method StartRead(va: word, io: Devices)
      requires Valid()
      modifies `bus, mem`lastVirt, mem`lastL1, mem`lastL2
      ensures Valid() && Repr() == old(Repr())
      ensures State() == Cpu.StartRead(old(State()), va, io)
    {
      hide Pads, Ring, Store;
      var v, _ := ReadMem(va, io);
      bus := bus.(newMd := v, newMdDelay := 2);
    }

    // -------------------------------------------------------------------
    // The instruction stream

    method SetLc(lc: word)
      requires Valid()
      modifies `ctl
      ensures Valid() && Repr() == old(Repr())
      ensures State() == old(State()).(ctl := old(State()).ctl.(lc := lc))
    {
      hide Pads, Ring, Store, MemUnit.Valid, MemUnit.State;
      ctl := ctl.(lc := lc);
    }

    method AdvanceLc(io: Devices) returns (fetched: bool)
      requires Valid()
      modifies `ctl, `bus, mem`lastVirt, mem`lastL1, mem`lastL2
      ensures Valid() && Repr() == old(Repr())
      ensures Cpu.Advance(State(), fetched) == Cpu.AdvanceLc(old(State()), io)
    {
      RegistersOf();
      hide Cadr.State, MemUnit.Valid, Cpu.StartRead;
      ghost var s := State();
      var byteMode := (ctl.interruptControl / 0x2000_0000) % 2 == 1;
      var at: word := ctl.lc % 0x400_0000;
      var lc := Wrap(ctl.lc + (if byteMode then 1 else 2));
      fetched := lc >= NEED_FETCH;
      if fetched {
        lc := lc - NEED_FETCH;
      }
      var lastItem := !(byteMode && lc % 2 == 1) && (lc / 2) % 2 == 0;
      if lastItem {
        lc := lc + NEED_FETCH;
      }
      assert Counter(lc, at, fetched) == StepCounter(s.ctl.lc, byteMode);
      hide StepCounter;
      SetLc(lc);
      if fetched {
        SetVma(at / 4);
        StartRead(at / 4, io);
      }
    }

    method PopTarget(io: Devices) returns (target: nat)
      requires Valid()
      modifies `spcStackPtr, `ctl, `bus, mem`lastVirt, mem`lastL1, mem`lastL2
      ensures Valid() && Repr() == old(Repr())
      ensures Popped(State(), target) == Cpu.PopTarget(old(State()), io)
    {
      hide Cpu.AdvanceLc, MemUnit.Valid, Cadr.State;
      var v := PopSpc();
      target := v;
      if (v / 0x4000) % 2 == 1 {
        var fetched := AdvanceLc(io);
        if !fetched && (v / 2) % 2 == 0 {
          target := target + 2;
        }
      }
      target := target % 0x4000;
    }

    // -------------------------------------------------------------------
    // Sources and destinations

    method ReadMSource(u: nat) returns (v: word)
      requires Valid()
      modifies `spcStackPtr, `pdlPtr, mem`lastVirt, mem`lastL1, mem`lastL2
      ensures Valid() && Repr() == old(Repr())
      ensures Source(State(), v) == MSource(old(State()), u)
    {
      hide Store;
      if MSrc(u) < 32 {
        return mMemory[MSrc(u)];
      }
      match MSrc(u) - 32 {
        case 0 => v := ctl.dispConst;
        case 1 => v := spcStackPtr * 0x100_0000 + spcStack[spcStackPtr] % 0x8_0000;
        case 2 => v := pdlPtr;
        case 3 => v := pdlIndex;
        case 5 => v := pdlMemory[pdlIndex];
        case 6 => v := bus.opc;
        case 7 => v := alu.q;
        case 8 => v := bus.vma;
        case 9 => v := ReadMapSource();
        case 10 => v := bus.md;
        case 11 => v := if (ctl.interruptControl / 0x2000_0000) % 2 == 1 then ctl.lc else ctl.lc - ctl.lc % 2;
        case 12 =>
          v := spcStackPtr * 0x100_0000 + spcStack[spcStackPtr] % 0x8_0000;
          spcStackPtr := (spcStackPtr + 31) % 32;
        case 20 =>
          v := pdlMemory[pdlPtr];
          pdlPtr := (pdlPtr + 1023) % 1024;
        case 21 => v := pdlMemory[pdlPtr];
        case _ => v := alu.mLatch;
      }
    }

    method ReadMapSource() returns (v: word)
      requires Valid()
      modifies mem`lastVirt, mem`lastL1, mem`lastL2
      ensures Valid() && Repr() == old(Repr())
      ensures v == MapSource(old(State()))
      ensures State() == old(State()).(mem := NoteWalk(old(State()).mem, bus.md))
    {
      hide Pads, Ring, Store;
      var entry, l1, _ := mem.MapVtop(bus.md);
      v := Flag(bus.writeFault, 0x8000_0000) + Flag(bus.accessFault, 0x4000_0000)
           + (if l1.Some? then l1.value else 0) * 0x100_0000 + entry % 0x100_0000;
    }

    method WriteAMem(loc: index10, v: word)
      requires Valid()
      modifies aMemory
      ensures Valid() && Repr() == old(Repr()) && State() == WriteA(old(State()), loc, v)
    {
      hide Ring, Store, MemUnit.Valid, MemUnit.State;
      aMemory[loc] := v;
    }

    method WriteMMem(loc: index5, v: word)
      requires Valid()
      modifies aMemory, mMemory
      ensures Valid() && Repr() == old(Repr()) && State() == WriteM(old(State()), loc, v)
    {
      hide Ring, Store, MemUnit.Valid, MemUnit.State;
      mMemory[loc] := v;
      aMemory[loc] := v;
    }

    /** Destinations in the PDL buffer and its index registers. */
    method WritePdl(func: nat, v: word)
      requires Valid() && 8 <= func <= 12
      modifies pdlMemory, `pdlPtr, `pdlIndex
      ensures Valid() && Repr() == old(Repr())
      ensures forall io :: State() == WriteFunction(old(State()), func, v, io)
    {
      hide Ring, Store, MemUnit.Valid, MemUnit.State;
      match func {
        case 8 => pdlMemory[pdlPtr] := v;
        case 9 =>
          pdlPtr := (pdlPtr + 1) % 1024;
          pdlMemory[pdlPtr] := v;
        case 10 => pdlMemory[pdlIndex] := v;
        case 11 => pdlIndex := v % 1024;
        case _ => pdlPtr := v % 1024;
      }
    }

    /** Destinations that are control registers. */
    method WriteControl(func: nat, v: word)
      requires Valid() && func <= 16 && func != 13 && !(8 <= func <= 12)
      modifies `ctl, `oa, `bus
      ensures Valid() && Repr() == old(Repr())
      ensures forall io :: State() == WriteFunction(old(State()), func, v, io)
    {
      hide Pads, Ring, Store, MemUnit.Valid, MemUnit.State;
      match func {
        case 1 =>
          var byteMode := (ctl.interruptControl / 0x2000_0000) % 2 == 1;
          var low := v % 0x400_0000;
          var lc := ctl.lc - ctl.lc % 0x400_0000 + (if byteMode then low else low - low % 2);
          ctl := ctl.(lc := if lc < NEED_FETCH then lc + NEED_FETCH else lc);
        case 2 =>
          var flags := ((ctl.lc / 0x400_0000) % 16) * 0x400_0000;
          ctl := ctl.(interruptControl := v, lc := ctl.lc - flags + ((v / 0x400_0000) % 16) * 0x400_0000);
        case 14 => oa := oa.(oaLo := v % 0x400_0000, oaLoSet := true);
        case 15 => oa := oa.(oaHi := v, oaHiSet := true);
        case 16 => bus := bus.(vma := v);
        case _ =>
      }
    }

    method SetVma(v: word)
      requires Valid()
      modifies `bus
      ensures Valid() && Repr() == old(Repr())
      ensures State() == old(State()).(bus := old(State()).bus.(vma := v)) && bus.vma == v && bus.md == old(bus.md)
    {
      hide Pads, Ring, Store, MemUnit.Valid, MemUnit.State;
      bus := bus.(vma := v);
    }

    method SetMd(v: word)
      requires Valid()
      modifies `bus
      ensures Valid() && Repr() == old(Repr())
      ensures State() == old(State()).(bus := old(State()).bus.(md := v)) && bus.md == v && bus.vma == old(bus.vma)
    {
      hide Pads, Ring, Store, MemUnit.Valid, MemUnit.State;
      bus := bus.(md := v);
    }

    method UpdateMap(md: word, vma: word)
      requires Valid()
      modifies mem.Repr()
      ensures Valid() && fresh(Repr() - old(Repr()))
      ensures State() == old(State()).(mem := WriteMap(old(State()).mem, md, vma))
    {
      hide WriteMap, MemUnit.Valid, MemUnit.State;
      mem.WriteMapEntries(md, vma);
    }

    /** Destinations of the memory interface. */
    method WriteMemoryPort(func: nat, v: word, io: Devices)
      requires Valid() && func > 16
      modifies Repr()
      ensures Valid() && fresh(Repr() - old(Repr())) && Locals() == old(Locals())
      ensures State() == WriteFunction(old(State()), func, v, io)
    {
      RegistersOf();
      Parts();
      ghost var s := State();
      ghost var s1 := s.(bus := PortSet(s.bus, func, v));
      PortFunction(s, func, v, io);
      hide *;
      if 17 <= func <= 19 {
        SetVma(v);
      } else if 24 <= func <= 27 {
        SetMd(v);
      } else {
        return;
      }
      assert State() == s1;
      UsePort(func, io);
    }

    /** The read, write or map write of function func, if it has one. */
    method UsePort(func: nat, io: Devices)
      requires Valid()
      modifies Repr()
      ensures Valid() && fresh(Repr() - old(Repr())) && Locals() == old(Locals())
      ensures State() == PortUsed(old(State()), func, io)
    {
      RegistersOf();
      Parts();
      hide Valid, Cadr.State, Repr, Own, Arrays, Locals, MemUnit.Valid, Cpu.StartRead, Cpu.WriteMem, WriteMap;
      if func % 8 == 1 {
        StartRead(bus.vma, io);
      } else if func % 8 == 2 {
        var _ := WriteMem(bus.vma, bus.md);
      } else if func % 8 == 3 {
        UpdateMap(bus.md, bus.vma);
      }
    }

    lemma Parts()
      requires Valid()
      ensures this in Repr() && mem in Repr() && Arrays() <= Repr()
      ensures aMemory in Repr() && mMemory in Repr() && dispatchMemory in Repr() && pdlMemory in Repr()
      ensures spcStack in Repr() && ucode in Repr()
      ensures forall b :: b in mem.blocks ==> b in Repr()
    {
    }

    lemma RegistersOf()
      requires Valid()
      ensures State().bus == bus && State().ctl == ctl
    {
    }

    method WriteDest(dest: nat, v: word, io: Devices)
      requires Valid() && dest < 3072
      modifies Repr()
      ensures Valid() && fresh(Repr() - old(Repr())) && Locals() == old(Locals())
      ensures State() == Cpu.WriteDest(old(State()), dest, v, io)
    {
      hide WriteA, WriteM, Cpu.PushSpc, MemUnit.Valid, Cadr.State;
      if dest >= 2048 {
        WriteAMem(dest - 2048, v);
        return;
      }
      if dest / 32 == 13 {
        PushSpc(v);
      } else if 8 <= dest / 32 <= 12 {
        WritePdl(dest / 32, v);
      } else if dest / 32 <= 16 {
        WriteControl(dest / 32, v);
      } else {
        WriteMemoryPort(dest / 32, v, io);
      }
      WriteMMem(dest % 32, v);
    }

    // -------------------------------------------------------------------
    // Instructions

    method ExecAlu(u: nat, m: word, a: word, io: Devices)
      requires Valid() && Dest(u) < 3072
      modifies Repr()
      ensures Valid() && fresh(Repr() - old(Repr())) && Locals() == old(Locals())
      ensures State() == Cpu.ExecAlu(old(State()), u, m, a, io)
    {
      var r := Alu.Operate(AluOp(u), m, a, alu.q, alu.aluOut, CarryIn(u));
      var oldQ := alu.q;
      alu := alu.(aluOut := r.out, aluCarry := r.carry, q := Alu.NextQ(QControl(u), oldQ, r.out));
      var outBus := if OutputBus(u) == 0 then ByteUnit.RotateLeft(m, Rotation(u))
                    else Alu.Bus(OutputBus(u), r, oldQ);
      WriteDest(Dest(u), outBus, io);
    }

    /** The field position, from the location counter under misc function 3. */
    method FieldPosition(u: nat) returns (pos: index5)
      requires Valid()
      ensures pos == Position(State(), u)
    {
      pos := Rotation(u);
      if Misc(u) == 3 {
        var ir4, ir3, lc1, lc0 := (u / 16) % 2, (u / 8) % 2, (ctl.lc / 2) % 2, ctl.lc % 2;
        if (ctl.interruptControl / 0x2000_0000) % 2 == 1 {
          pos := u % 8 + 16 * ((ir4 + lc1 + lc0) % 2) + 8 * ((ir3 + lc0) % 2);
        } else {
          pos := u % 16 + (if ir4 == lc1 then 16 else 0);
        }
      }
    }

    method ExecByte(u: nat, m: word, a: word, io: Devices)
      requires Valid() && Dest(u) < 3072
      modifies Repr()
      ensures Valid() && fresh(Repr() - old(Repr())) && Locals() == old(Locals())
      ensures State() == Cpu.ExecByte(old(State()), u, m, a, io)
    {
      var pos := FieldPosition(u);
      WriteDest(Dest(u), ByteUnit.Byte(ByteFunc(u), m, a, pos, WidthM1(u)), io);
    }

    /** POPJ: set the program counter from the ring. */
    method PopIf(u: nat, io: Devices)
      requires Valid()
      modifies `uPc, `spcStackPtr, `ctl, `bus, mem`lastVirt, mem`lastL1, mem`lastL2
      ensures Valid() && Repr() == old(Repr())
      ensures Control(State(), uPc, false) == MaybePop(old(State()), u, old(uPc), io)
    {
      if PopJ(u) {
        uPc := PopTarget(io);
      }
    }

    method ExecJump(u: nat, m: word, a: word, io: Devices)
      requires Valid() && !noExecNext
      modifies this, spcStack, ucode, mem`lastVirt, mem`lastL1, mem`lastL2
      ensures Valid() && Repr() == old(Repr()) && p1 == old(p1) && p1Pc == old(p1Pc)
      ensures Control(State(), uPc, noExecNext) == Cpu.ExecJump(old(State()), u, m, a, old(uPc), io)
    {
      hide TakeJump, JumpEffects, Cpu.PopTarget, MaybePop, Misc, RBit, NBit, JumpTarget, MemUnit.Valid, Cadr.State;
      if Misc(u) == 1 {
        Halt();
        PopIf(u, io);
        return;
      }
      var take := TakesJump(u, m, a);
      PrepareJump(u, m, a, take);
      TransferJump(u, take, io);
    }

    /** A taken jump goes to its target, or where the ring says. */
    method TransferJump(u: nat, take: bool, io: Devices)
      requires Valid() && !noExecNext
      modifies `uPc, `noExecNext, `spcStackPtr, `ctl, `bus, mem`lastVirt, mem`lastL1, mem`lastL2
      ensures Valid() && Repr() == old(Repr())
      ensures var s, c := old(State()), Control(State(), uPc, noExecNext);
              if !take then c == MaybePop(s, u, old(uPc), io)
              else
                && noExecNext == NBit(u)
                && Popped(c.s, uPc) == if RBit(u) then Cpu.PopTarget(s, io) else Popped(s, JumpTarget(u))
    {
      hide RBit, NBit, JumpTarget, Cpu.PopTarget, MaybePop, MemUnit.Valid, Cadr.State;
      if !take {
        PopIf(u, io);
        return;
      }
      var newPc := JumpTarget(u);
      if RBit(u) {
        newPc := PopTarget(io);
      }
      if NBit(u) {
        noExecNext := true;
      }
      uPc := newPc;
    }

    method Halt()
      requires Valid()
      modifies `running
      ensures Valid() && Repr() == old(Repr())
      ensures State() == old(State()).(store := old(State()).store.(running := false))
    {
      hide MemUnit.Valid, MemUnit.State;
      running := false;
    }

    method PrepareJump(u: nat, m: word, a: word, take: bool)
      requires Valid()
      modifies `spcStackPtr, spcStack, ucode
      ensures Valid() && Repr() == old(Repr())
      ensures State() == JumpEffects(old(State()), u, m, a, take, uPc)
    {
      hide JumpM, TakeJump, PBit, RBit, NBit, MemUnit.Valid, MemUnit.State, Pads, Cpu.PushSpc;
      if PBit(u) && take {
        PushSpc(Wrap(if NBit(u) then uPc - 1 else uPc));
      }
      if PBit(u) && RBit(u) {
        ucode[JumpTarget(u)] := (a % 0x1_0000) * 0x1_0000_0000 + JumpM(u, m);
      }
    }

    method TakesJump(u: nat, m: word, a: word) returns (take: bool)
      requires Valid()
      ensures take == TakeJump(State(), u, m, a)
    {
      if ConditionCoded(u) {
        var interrupt := if (ctl.interruptControl / 0x800_0000) % 2 == 1 && (ctl.interruptStatus / 0x4000) % 4 != 0
                         then 1 else 0;
        var flags := BitOr(Flag(bus.pageFault, 1), interrupt);
        match Condition(u) {
          case 1 => take := Signed(m) < Signed(a);
          case 2 => take := Signed(m) <= Signed(a);
          case 3 => take := m == a;
          case 4 => take := bus.pageFault;
          case 5 => take := AsChar(BitOr(flags, 0)) != 0;
          case 6 =>
            var seqBreak := (ctl.interruptControl / 0x400_0000) % 2 == 1;
            take := AsChar(BitOr(flags, Flag(seqBreak, 0x400_0000))) != 0;
          case 7 => take := true;
          case _ => take := false;
        }
      } else {
        take := JumpM(u, m) % 2 == 1;
      }
      if InvertSense(u) {
        take := !take;
      }
    }

    method ReadDispatch(u: nat, m: word) returns (entry: word)
      requires Valid()
      modifies mem`lastVirt, mem`lastL1, mem`lastL2
      ensures Valid() && Repr() == old(Repr())
      ensures entry == DispatchEntry(old(State()), u, m)
      ensures State() == if DispMap(u) == 0 then old(State())
                         else old(State()).(mem := NoteWalk(old(State()).mem, old(State()).bus.md))
    {
      var pos := FieldPosition(u);
      var mask: word := if DispLength(u) == 0 then 0 else Shr(0xFFFF_FFFF, 32 - DispLength(u));
      var address := BitOr(DispAddr(u), And(ByteUnit.RotateLeft(m, pos), mask));
      var mapBits := 0;
      if DispMap(u) != 0 {
        var l2, _, _ := mem.MapVtop(bus.md);
        var bit18, bit19 := (l2 / 0x4_0000) % 2, (l2 / 0x8_0000) % 2;
        mapBits := match DispMap(u) case 1 => bit18 case 2 => bit19 case _ => BitOr(bit18, bit19);
      }
      entry := dispatchMemory[BitOr(address, mapBits) % 2048];
    }

    method WriteDispatchMemory(address: nat, v: word)
      requires Valid() && address < 2048
      modifies dispatchMemory
      ensures Valid() && Repr() == old(Repr())
      ensures State() == old(State()).(pads := old(State()).pads.(dispMem := old(State()).pads.dispMem[address := v]))
    {
      hide Ring, Store, MemUnit.Valid, MemUnit.State;
      dispatchMemory[address] := v;
    }

    method LatchConstant(c: word)
      requires Valid()
      modifies `ctl
      ensures Valid() && Repr() == old(Repr())
      ensures State() == old(State()).(ctl := old(State()).ctl.(dispConst := c))
    {
      hide Pads, Ring, Store, MemUnit.Valid, MemUnit.State;
      ctl := ctl.(dispConst := c);
    }

    method ExecDispatch(u: nat, m: word, a: word, io: Devices)
      requires Valid() && !noExecNext && uPc > 0
      modifies this, spcStack, dispatchMemory, mem`lastVirt, mem`lastL1, mem`lastL2
      ensures Valid() && Repr() == old(Repr()) && p1 == old(p1) && p1Pc == old(p1Pc)
      ensures Control(State(), uPc, noExecNext) == Cpu.ExecDispatch(old(State()), u, m, a, old(uPc), io)
    {
      hide DispatchEntry, Cpu.AdvanceLc, DispatchTransfer, MaybePop, NoteWalk, MemUnit.Valid, Cadr.State;
      if Misc(u) == 2 {
        WriteDispatchMemory(DispAddr(u), a);
        PopIf(u, io);
        return;
      }
      var e := ReadDispatch(u, m);
      LatchConstant(DispConst(u));
      if AdvanceStream(u) {
        var _ := AdvanceLc(io);
      }
      assert State() == DispatchEffects(old(State()), u, io);
      TransferTo(u, e, io);
    }

    method TransferTo(u: nat, e: word, io: Devices)
      requires Valid() && !noExecNext && uPc > 0
      modifies this, spcStack, mem`lastVirt, mem`lastL1, mem`lastL2
      ensures Valid() && Repr() == old(Repr()) && p1 == old(p1) && p1Pc == old(p1Pc)
      ensures Control(State(), uPc, noExecNext) == DispatchTransfer(old(State()), u, e, old(uPc), io)
    {
      hide MemUnit.Valid, Cadr.State, Cpu.PushSpc, Cpu.PopTarget, MaybePop;
      if NPlus1(u) && EntryN(e) {
        uPc := uPc - 1;
      }
      if EntryP(e) && EntryR(e) {
        PopIf(u, io);
      } else {
        var newPc := EntryTarget(e);
        if EntryP(e) {
          PushSpc(Wrap(if EntryN(e) then uPc - 1 else uPc));
        }
        if EntryR(e) {
          newPc := PopTarget(io);
        }
        uPc := newPc;
      }
      if EntryN(e) {
        noExecNext := true;
      }
    }

    // -------------------------------------------------------------------
    // The loop

    method AluThenPop(u: nat, m: word, a: word, io: Devices)
      requires Valid() && !noExecNext && Dest(u) < 3072
      modifies Repr()
      ensures Valid() && fresh(Repr() - old(Repr())) && p1 == old(p1) && p1Pc == old(p1Pc)
      ensures Control(State(), uPc, noExecNext) == MaybePop(Cpu.ExecAlu(old(State()), u, m, a, io), u, old(uPc), io)
    {
      Parts();
      hide MaybePop, Cpu.ExecAlu, MemUnit.Valid, Cadr.State, Repr, Own, Arrays;
      ExecAlu(u, m, a, io);
      PopIf(u, io);
    }

    method ByteThenPop(u: nat, m: word, a: word, io: Devices)
      requires Valid() && !noExecNext && Dest(u) < 3072
      modifies Repr()
      ensures Valid() && fresh(Repr() - old(Repr())) && p1 == old(p1) && p1Pc == old(p1Pc)
      ensures Control(State(), uPc, noExecNext) == MaybePop(Cpu.ExecByte(old(State()), u, m, a, io), u, old(uPc), io)
    {
      Parts();
      hide MaybePop, Cpu.ExecByte, MemUnit.Valid, Cadr.State, Repr, Own, Arrays;
      ExecByte(u, m, a, io);
      PopIf(u, io);
    }

    /** What the next undefined M source will read. */
    method LatchM(v: word)
      requires Valid()
      modifies `alu
      ensures Valid() && Repr() == old(Repr())
      ensures State() == old(State()).(alu := old(State()).alu.(mLatch := v))
    {
      hide Pads, Ring, Store, MemUnit.Valid, MemUnit.State;
      alu := alu.(mLatch := v);
    }

    method Execute(u: nat, io: Devices)
      requires Valid() && !noExecNext && uPc > 0 && DestInRange(u)
      modifies Repr()
      ensures Valid() && fresh(Repr() - old(Repr())) && p1 == old(p1) && p1Pc == old(p1Pc)
      ensures Control(State(), uPc, noExecNext) == Cpu.Execute(old(State()), u, old(uPc), io)
    {
      var a := aMemory[ASrc(u)];
      assert a == State().pads.aMem[ASrc(u)];
      NopKeeps(State(), u);
      Parts();
      hide MSource, ExecOp, IsNop, Op, DestInRange,
           MemUnit.Valid, Cadr.State, Repr, Own, Arrays, Valid, Sized, PopJ, Misc, ASrc, Dest;
      var m := ReadMSource(u);
      if Op(u) == OP_ALU && IsNop(u) {
        LatchM(m);
        return;
      }
      LatchM(0);
      ExecuteOp(u, m, a, io);
    }

    /** The four kinds of instruction. */
    method ExecuteOp(u: nat, m: word, a: word, io: Devices)
      requires Valid() && !noExecNext && uPc > 0 && (Op(u) in {OP_ALU, OP_BYTE} ==> Dest(u) < 3072)
      modifies Repr()
      ensures Valid() && fresh(Repr() - old(Repr())) && p1 == old(p1) && p1Pc == old(p1Pc)
      ensures Control(State(), uPc, noExecNext) == ExecOp(old(State()), u, m, a, old(uPc), io)
    {
      Parts();
      hide Cpu.ExecAlu, Cpu.ExecByte, Cpu.ExecJump, Cpu.ExecDispatch, MaybePop, Dest,
           MemUnit.Valid, Cadr.State, Repr, Own, Arrays;
      match Op(u) {
        case 0 => AluThenPop(u, m, a, io);
        case 1 => ExecJump(u, m, a, io);
        case 2 => ExecDispatch(u, m, a, io);
        case _ => ByteThenPop(u, m, a, io);
      }
    }

    method FetchAt(pc: nat) returns (w: nat)
      requires Valid() && PcInRange(State(), pc)
      ensures w == Fetch(State(), pc)
    {
      w := if promEnabled then promUcode[pc] else ucode[pc];
    }

    method Poll(inp: Input)
      requires Valid()
      modifies `ctl
      ensures Valid() && Repr() == old(Repr()) && State() == Polled(old(State()), inp)
    {
      hide Pads, Ring, Store, MemUnit.Valid, MemUnit.State;
      if inp.status.Some? {
        ctl := ctl.(interruptStatus := inp.status.value);
      }
    }

    method DelayMd()
      requires Valid()
      modifies `bus
      ensures Valid() && Repr() == old(Repr()) && State() == Arrived(old(State()))
    {
      hide Pads, Ring, Store, MemUnit.Valid, MemUnit.State;
      if bus.newMdDelay > 0 {
        bus := bus.(newMdDelay := bus.newMdDelay - 1);
        if bus.newMdDelay == 0 {
          bus := bus.(md := bus.newMd);
        }
      }
    }

    method MergeModifiers(p0: nat) returns (u: nat)
      requires Valid()
      modifies `oa
      ensures Valid() && Repr() == old(Repr())
      ensures u == Modified(old(State()), p0) && State() == ClearModifiers(old(State()))
    {
      hide Pads, Ring, Store, MemUnit.Valid, MemUnit.State;
      u := p0;
      if oa.oaLoSet {
        oa := oa.(oaLoSet := false);
        u := BitOr(u, oa.oaLo);
      }
      if oa.oaHiSet {
        oa := oa.(oaHiSet := false);
        u := BitOr(u, oa.oaHi * 0x400_0000);
      }
    }

    /** Fetch the word at the program counter and step it. */
    method Prefetch()
      requires Valid() && PcInRange(State(), uPc)
      modifies `p1, `p1Pc, `uPc
      ensures Valid() && Repr() == old(Repr()) && State() == old(State())
      ensures p1Pc == old(uPc) && uPc == p1Pc + 1 && p1 == Fetch(old(State()), p1Pc)
    {
      hide MemUnit.Valid, MemUnit.State, Cadr.State;
      p1 := FetchAt(uPc);
      p1Pc, uPc := uPc, uPc + 1;
    }

    /** The fetch stage: the prefetched word moves up and the next one is fetched,
        twice when the first is to be annulled. */
    method FetchNext() returns (p0: nat)
      requires Valid() && Pipeline.FetchInRange(Machine())
      modifies `p1, `p1Pc, `uPc, `noExecNext
      ensures Valid() && Repr() == old(Repr()) && State() == old(State()) && !noExecNext
      ensures p0 == Pipeline.Executing(old(Machine()))
      ensures var skip := if old(noExecNext) then 1 else 0;
              p1Pc == old(uPc) + skip && uPc == p1Pc + 1 && p1 == Fetch(old(State()), p1Pc)
    {
      hide MemUnit.Valid, Cadr.State, Fetch, PcInRange;
      p0 := p1;
      Prefetch();
      if noExecNext {
        noExecNext := false;
        p0 := p1;
        Prefetch();
      }
    }

    /** Everything a cycle does before it executes its instruction. */
    method Prepare(inp: Input) returns (u: nat)
      requires Valid() && Pipeline.FetchInRange(Machine())
      modifies `ctl, `bus, `oa, `p1, `p1Pc, `uPc, `noExecNext
      ensures Valid() && Repr() == old(Repr()) && !noExecNext
      ensures State() == Prepared(old(State()), inp)
      ensures u == Pipeline.Instruction(old(Machine()))
      ensures var skip := if old(noExecNext) then 1 else 0;
              p1Pc == old(uPc) + skip && uPc == p1Pc + 1 && p1 == Fetch(old(State()), p1Pc)
    {
      ghost var m := Machine();
      hide Modified, ClearModifiers, Fetch, Polled, Arrived, MemUnit.Valid;
      PollKeepsFetch(m, inp);
      Poll(inp);
      var p0 := FetchNext();
      DelayMd();
      u := MergeModifiers(p0);
      SettledModifies(m.s, inp, p0);
    }

    /** One turn of run()'s loop. */
    method Step(inp: Input)
      requires Valid() && Pipeline.Ready(Machine())
      modifies Repr()
      ensures Valid() && fresh(Repr() - old(Repr()))
      ensures Machine() == Pipeline.Step(old(Machine()), inp)
    {
      hide Prepared, Pipeline.Instruction, Cpu.Execute, Fetch, MemUnit.Valid;
      var u := Prepare(inp);
      Execute(u, inp.io);
    }
  }

  /** A walk changes no page and clears the fault bits. */
  lemma WalkedSame(s: Cpu.State, va: word)
    ensures var t := Walked(s, va);
            && t.mem.table == s.mem.table && t.mem.frames == s.mem.frames
            && !t.bus.accessFault && !t.bus.writeFault
            && forall pn: nat, offset: nat :: pn < 0x4000 && offset < 256 && s.mem.table[pn].Some? ==>
                 FrameWord(t.mem, pn, offset) == FrameWord(s.mem, pn, offset)
  {
    hide Entry;
  }

  /** Functions 17 to 19 put the output bus in VMA, 24 to 27 in MD. */
  function PortSet(bus: MemoryPort, func: nat, v: word): MemoryPort {
    if 17 <= func <= 19 then bus.(vma := v) else if 24 <= func <= 27 then bus.(md := v) else bus
  }

  /** The last three of each group then start a read, a write or a map write. */
  function PortUsed(s: Cpu.State, func: nat, io: Devices): Cpu.State {
    if func % 8 == 1 then Cpu.StartRead(s, s.bus.vma, io)
    else if func % 8 == 2 then Cpu.WriteMem(s, s.bus.vma, s.bus.md).s
    else if func % 8 == 3 then s.(mem := WriteMap(s.mem, s.bus.md, s.bus.vma))
    else s
  }

  lemma PortFunction(s: Cpu.State, func: nat, v: word, io: Devices)
    requires func > 16
    ensures WriteFunction(s, func, v, io) ==
              if !(17 <= func <= 19 || 24 <= func <= 27) then s
              else PortUsed(s.(bus := PortSet(s.bus, func, v)), func, io)
  {
    hide Cpu.StartRead, Cpu.WriteMem, WriteMap;
  }

  lemma NopKeeps(s: Cpu.State, u: nat)
    ensures IsNop(u) ==> MSource(s, u).s == s
    ensures DestInRange(u) && Op(u) in {OP_ALU, OP_BYTE} && !(Op(u) == OP_ALU && IsNop(u)) ==> Dest(u) < 3072
  {
    if IsNop(u) { NopReadsM0(u); }
    hide MapSource, StackTop, NoteWalk;
  }

  /** Polling and data arrival do not disturb fetching and modifiers. */
  lemma PollKeepsFetch(m: Pipeline.Machine, inp: Input)
    ensures var m1 := m.(s := Polled(m.s, inp));
            && Pipeline.FetchInRange(m1) == Pipeline.FetchInRange(m)
            && (Pipeline.FetchInRange(m) ==> Pipeline.Executing(m1) == Pipeline.Executing(m))
    ensures forall pc :: PcInRange(m.s, pc) ==>
              PcInRange(Polled(m.s, inp), pc) && Fetch(Polled(m.s, inp), pc) == Fetch(m.s, pc)
  {
  }

  lemma SettledModifies(s: State, inp: Input, u: nat)
    ensures Modified(Settle(s, inp), u) == Modified(s, u)
  {
    hide BitOr;
  }

  /** The machine when run() starts its loop: page 0 has just been created. */
  method PowerUp(prom: Prom, junk: nat -> Page) returns (machine: Cadr)
    ensures fresh(machine) && machine.Valid()
    ensures machine.Machine() == Pipeline.Reset(PowerOn(prom, junk))
  {
    hide WritePhys;
    var memory := new MemUnit(junk);
    var _ := memory.WritePhyMem(0, 0);
    machine := new Cadr(memory, prom);
  }
}
