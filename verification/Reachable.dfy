/** What every cycle keeps of the map, the page table and RAM, over whole runs. */
module Reachable {
  import opened Words
  import opened Mem
  import opened MicroWord
  import opened Cpu
  import opened Pipeline
  import ByteUnit

  /** The memory invariant holds in s' and no page lost its frame since s. */
  ghost predicate Kept(s: State, s': State) {
    Mem.Invariant(s'.mem) && Extends(s.mem, s'.mem)
  }

  lemma ReadKeeps(s: State, va: word, io: Devices)
    requires Mem.Invariant(s.mem)
    ensures ReadMem(s, va, io).s.mem == NoteWalk(s.mem, va) && Kept(s, ReadMem(s, va, io).s)
  {
    WalkKeeps(s.mem, va);
  }

  lemma LastResortKeeps(s: State, pn: nat, offset: nat, v: word)
    requires Mem.Invariant(s.mem) && pn < 0x4000
    ensures Kept(s, LastResort(s, pn, offset, v).s)
  {
    if s.mem.table[pn].Some? && offset < 256 { StoreKeeps(s.mem, pn, offset, v); }
  }

  lemma UnibusKeeps(s: State, reg: nat, v: word)
    ensures UnibusWrite(s, reg, v).mem == s.mem
  {
    hide And, Masked;
  }

  lemma WriteKeeps(s: State, va: word, v: word)
    requires Mem.Invariant(s.mem)
    ensures Kept(s, WriteMem(s, va, v).s)
  {
    var s1, entry := Walked(s, va), Entry(s.mem, va);
    var pn, offset := PageNumber(entry), va % 0x100;
    WalkKeeps(s.mem, va);
    UnibusKeeps(s1, 2 * offset, v);
    LastResortKeeps(s1, pn, offset, v);
    LastResortKeeps(s1, pn, 2 * offset, v);
    if s1.mem.table[pn].Some? { StoreKeeps(s1.mem, pn, offset, v); }
    hide UnibusWrite, LastResort, Mem.Invariant, StoreWord, Entry, NoteWalk;
  }

  lemma AdvanceKeeps(s: State, io: Devices)
    requires Mem.Invariant(s.mem)
    ensures Kept(s, AdvanceLc(s, io).s)
  {
    var at: word := s.ctl.lc % 0x400_0000;
    forall s1: State | s1.mem == s.mem ensures Kept(s, StartRead(s1, at / 4, io)) {
      ReadKeeps(s1, at / 4, io);
    }
    hide StartRead, Mem.Invariant;
  }

  lemma PopKeeps(s: State, io: Devices)
    requires Mem.Invariant(s.mem)
    ensures Kept(s, PopTarget(s, io).s)
  {
    AdvanceKeeps(DropSpc(s), io);
    hide AdvanceLc, Mem.Invariant;
  }

  lemma SourceKeeps(s: State, u: nat)
    requires Mem.Invariant(s.mem)
    ensures Kept(s, MSource(s, u).s)
  {
    WalkKeeps(s.mem, s.bus.md);
    hide Mem.Invariant, NoteWalk, MapSource, StackTop;
  }

  lemma FunctionKeeps(s: State, func: nat, v: word, io: Devices)
    requires Mem.Invariant(s.mem)
    ensures Kept(s, WriteFunction(s, func, v, io))
  {
    hide Mem.Invariant, ReadMem, WriteMem, WriteMap, LcWritten;
    match func
    case 17 => ReadKeeps(s.(bus := s.bus.(vma := v)), v, io);
    case 18 => WriteKeeps(s.(bus := s.bus.(vma := v)), v, s.bus.md);
    case 19 => WriteMapKeeps(s.mem, s.bus.md, v);
    case 25 => ReadKeeps(s.(bus := s.bus.(md := v)), s.bus.vma, io);
    case 26 => WriteKeeps(s.(bus := s.bus.(md := v)), s.bus.vma, v);
    case 27 => WriteMapKeeps(s.mem, v, s.bus.vma);
    case _ => hide *; OtherFunctionKeeps(s, func, v, io);
  }

  lemma OtherFunctionKeeps(s: State, func: nat, v: word, io: Devices)
    requires func !in {17, 18, 19, 25, 26, 27}
    ensures WriteFunction(s, func, v, io).mem == s.mem
  {
  }

  lemma DestKeeps(s: State, dest: nat, v: word, io: Devices)
    requires Mem.Invariant(s.mem) && dest < 3072
    ensures Kept(s, WriteDest(s, dest, v, io))
  {
    FunctionKeeps(s, dest / 32, v, io);
    hide WriteFunction, Mem.Invariant;
  }

  lemma MaybePopKeeps(s: State, u: nat, upc: nat, io: Devices)
    requires Mem.Invariant(s.mem)
    ensures Kept(s, MaybePop(s, u, upc, io).s)
  {
    PopKeeps(s, io);
    hide PopTarget, Mem.Invariant;
  }

  lemma JumpKeeps(s: State, u: nat, m: word, a: word, upc: nat, io: Devices)
    requires Mem.Invariant(s.mem)
    ensures Kept(s, ExecJump(s, u, m, a, upc, io).s)
  {
    forall s1: State | s1.mem == s.mem
      ensures Kept(s, PopTarget(s1, io).s) && Kept(s, MaybePop(s1, u, upc, io).s)
    {
      hide PopTarget, MaybePop, Mem.Invariant;
      PopKeeps(s1, io);
      MaybePopKeeps(s1, u, upc, io);
    }
    hide PopTarget, MaybePop, Mem.Invariant, TakeJump, StoreAfter;
  }

  lemma DispatchEffectsKeep(s: State, u: nat, io: Devices)
    requires Mem.Invariant(s.mem)
    ensures Kept(s, DispatchEffects(s, u, io))
  {
    WalkKeeps(s.mem, s.bus.md);
    var s1 := if DispMap(u) != 0 then s.(mem := NoteWalk(s.mem, s.bus.md)) else s;
    AdvanceKeeps(s1.(ctl := s1.ctl.(dispConst := DispConst(u))), io);
    hide AdvanceLc, Mem.Invariant, NoteWalk;
  }

  lemma TransferKeeps(s: State, u: nat, e: word, upc: nat, io: Devices)
    requires Mem.Invariant(s.mem) && upc > 0
    ensures Kept(s, DispatchTransfer(s, u, e, upc, io).s)
  {
    PopKeeps(s, io);
    var upc1 := if NPlus1(u) && EntryN(e) then upc - 1 else upc;
    MaybePopKeeps(s, u, upc1, io);
    hide PopTarget, MaybePop, Mem.Invariant;
  }

  lemma DispatchKeeps(s: State, u: nat, m: word, a: word, upc: nat, io: Devices)
    requires Mem.Invariant(s.mem) && upc > 0
    ensures Kept(s, ExecDispatch(s, u, m, a, upc, io).s)
  {
    if Misc(u) == 2 {
      var s1 := s.(pads := s.pads.(dispMem := s.pads.dispMem[DispAddr(u) := a]));
      MaybePopKeeps(s1, u, upc, io);
    } else {
      DispatchEffectsKeep(s, u, io);
      TransferKeeps(DispatchEffects(s, u, io), u, DispatchEntry(s, u, m), upc, io);
    }
    hide MaybePop, Mem.Invariant, DispatchEntry, DispatchEffects, DispatchTransfer;
  }

  /** One instruction keeps the invariant and every page's frame. */
  lemma ExecuteKeeps(s: State, u: nat, upc: nat, io: Devices)
    requires Mem.Invariant(s.mem) && upc > 0 && DestInRange(u)
    ensures Kept(s, Execute(s, u, upc, io).s)
  {
    var a, src := s.pads.aMem[ASrc(u)], MSource(s, u);
    SourceKeeps(s, u);
    var s1 := src.s.(alu := src.s.alu.(mLatch := 0));
    match Op(u) {
      case 0 =>
        if !IsNop(u) {
          ExecAluKeeps(s1, u, src.value, a, io);
          MaybePopKeeps(ExecAlu(s1, u, src.value, a, io), u, upc, io);
        }
      case 1 => JumpKeeps(s1, u, src.value, a, upc, io);
      case 2 => DispatchKeeps(s1, u, src.value, a, upc, io);
      case _ =>
        ExecByteKeeps(s1, u, src.value, a, io);
        MaybePopKeeps(ExecByte(s1, u, src.value, a, io), u, upc, io);
    }
    hide MSource, ExecAlu, ExecByte, MaybePop, ExecJump, ExecDispatch, Mem.Invariant;
  }

  lemma ExecAluKeeps(s: State, u: nat, m: word, a: word, io: Devices)
    requires Mem.Invariant(s.mem) && Dest(u) < 3072
    ensures Kept(s, ExecAlu(s, u, m, a, io))
  {
    hide Mem.Invariant, AluBus, WriteDest;
    forall s1: State, v: word | s1.mem == s.mem ensures Kept(s, WriteDest(s1, Dest(u), v, io)) {
      DestKeeps(s1, Dest(u), v, io);
    }
  }

  lemma ExecByteKeeps(s: State, u: nat, m: word, a: word, io: Devices)
    requires Mem.Invariant(s.mem) && Dest(u) < 3072
    ensures Kept(s, ExecByte(s, u, m, a, io))
  {
    DestKeeps(s, Dest(u), ByteUnit.Byte(ByteFunc(u), m, a, Position(s, u), WidthM1(u)), io);
  }

  // ---------------------------------------------------------------------
  // Runs: cycles, with the disk reading and writing physical memory in between

  datatype Event = Cycle(inp: Input) | DmaRead(paddr: nat) | DmaWrite(paddr: nat, value: word)

  predicate Possible(m: Machine, e: Event) {
    match e
    case Cycle(_) => Ready(m)
    case DmaRead(paddr) => paddr < 0x40_0000
    case DmaWrite(paddr, _) => paddr < 0x40_0000
  }

  function After(m: Machine, e: Event): Machine
    requires Possible(m, e)
  {
    match e
    case Cycle(inp) => Step(m, inp)
    case DmaRead(paddr) => m.(s := m.s.(mem := Touch(m.s.mem, paddr)))
    case DmaWrite(paddr, v) => m.(s := m.s.(mem := WritePhys(m.s.mem, paddr, v)))
  }

  predicate Runs(m: Machine, es: seq<Event>)
    decreases |es|
  {
    es == [] || (Possible(m, es[0]) && Runs(After(m, es[0]), es[1..]))
  }

  function Final(m: Machine, es: seq<Event>): Machine
    requires Runs(m, es)
    decreases |es|
  {
    if es == [] then m else Final(After(m, es[0]), es[1..])
  }

  lemma EventKeeps(m: Machine, e: Event)
    requires Mem.Invariant(m.s.mem) && Possible(m, e)
    ensures Kept(m.s, After(m, e).s)
  {
    match e {
      case Cycle(inp) =>
        var skip := if m.annul then 1 else 0;
        ExecuteKeeps(Prepared(m.s, inp), Instruction(m), m.upc + skip + 1, inp.io);
        hide Execute, Mem.Invariant, Instruction;
      case DmaRead(paddr) => WritePhysKeeps(m.s.mem, paddr, 0);
      case DmaWrite(paddr, v) => WritePhysKeeps(m.s.mem, paddr, v);
    }
  }

  /** Every state of every run keeps the map and page-table invariant, and pages
      that have a frame keep it. */
  lemma {:induction false} RunKeeps(m: Machine, es: seq<Event>)
    requires Mem.Invariant(m.s.mem) && Runs(m, es)
    ensures Kept(m.s, Final(m, es).s)
    decreases |es|
  {
    if es != [] {
      EventKeeps(m, es[0]);
      RunKeeps(After(m, es[0]), es[1..]);
    }
    hide Mem.Invariant;
  }

  /** In particular from the state in which run() starts. */
  lemma Reachable(s: State, junk: nat -> Page, es: seq<Event>)
    requires s.mem == Initial(junk) && Runs(Reset(s), es)
    ensures Mem.Invariant(Final(Reset(s), es).s.mem)
  {
    InitialInvariant(junk);
    RunKeeps(Reset(s), es);
  }

  // ---------------------------------------------------------------------
  // Faults

  /** Bits 23 and 22 of a map entry: the page may be read, and written. */
  predicate ReadAllowed(entry: word) { (entry / 0x80_0000) % 2 == 1 }
  predicate WriteAllowed(entry: word) { (entry / 0x40_0000) % 2 == 1 }

  /** The fault flags: which permission was lacking, and that there was a fault at all. */
  predicate Flags(bus: MemoryPort, access: bool, write: bool, fault: bool) {
    bus.accessFault == access && bus.writeFault == write && bus.pageFault == fault
  }

  /** A read faults exactly when bit 23 of the map entry is clear: a mapped page always has
      a frame, so the page-fault path is never taken. The flags say so, and OPC holds the
      page number. */
  lemma ReadFaultsIff(s: State, va: word, io: Devices)
    requires Mem.Invariant(s.mem)
    ensures var r, entry := ReadMem(s, va, io), Entry(s.mem, va);
            && (r.ok <==> ReadAllowed(entry))
            && Flags(r.s.bus, !r.ok, false, !r.ok) && (r.ok ==> r.s.bus.opc == s.bus.opc)
            && (!r.ok ==> r.value == 0 && r.s.bus.opc == entry % 0x4000)
  {
    if !Windowed(va) { assert s.mem.table[PageNumber(s.mem.l2[L2Index(s.mem, va)])].Some?; }
    hide FrameWord, NoteWalk;
  }

  /** Page 036777 below its registers, reached through the window with no frame behind it. */
  predicate DiskHole(m: MemData, va: word) {
    && VirtualPage(va) == 0xFDFF && va % 0x100 < 0xF8 && va % 0x100 != 0xF0 && m.table[0x3DFF].None?
  }

  /** A write faults exactly when bit 23 or bit 22 is clear, or when it hits the disk window
      outside the disk and TV registers with no frame there; the flags say which. */
  lemma WriteFaultsIff(s: State, va: word, v: word)
    requires Mem.Invariant(s.mem)
    ensures var w, entry := WriteMem(s, va, v), Entry(s.mem, va);
            && (w.ok <==> ReadAllowed(entry) && WriteAllowed(entry) && !DiskHole(s.mem, va))
            && Flags(w.s.bus, !ReadAllowed(entry), ReadAllowed(entry) && !WriteAllowed(entry), !w.ok)
            && (!w.ok ==> w.s.bus.opc == entry % 0x4000 && w.s.mem == NoteWalk(s.mem, va))
  {
    assert NoteWalk(s.mem, va).table == s.mem.table;
    hide UnibusWrite, StoreWord, NoteWalk;
    if Windowed(va) {
      WindowEntry(s.mem, va);
    } else {
      assert s.mem.table[PageNumber(s.mem.l2[L2Index(s.mem, va)])].Some?;
    }
    UnibusKeepsBus(v);
  }

  lemma WindowEntry(m: MemData, va: word)
    requires Windowed(va)
    ensures var entry := Entry(m, va);
            && entry == (if VirtualPage(va) == 0xFDFF then 0xC0_3DFF else 0xC0_3C00)
            && ReadAllowed(entry) && WriteAllowed(entry)
  {
  }

  lemma UnibusKeepsBus(v: word)
    ensures forall s: State, reg: nat :: UnibusWrite(s, reg, v).bus == s.bus
  {
    hide Masked;
  }

  /** The last case happens: in the machine as it starts, a store to the first word of the
      disk window passes the map and faults. */
  lemma DiskWindowFaults(prom: Prom, junk: nat -> Page, v: word)
    ensures var s, va := PowerOn(prom, junk), 0xFDFF00;
            ReadAllowed(Entry(s.mem, va)) && WriteAllowed(Entry(s.mem, va)) && !WriteMem(s, va, v).ok
  {
    var s, va: word := PowerOn(prom, junk), 0xFDFF00;
    InitialInvariant(junk);
    assert s.mem == Initial(junk) && s.mem.table[DISK_PAGE].None?;
    assert Windowed(va) && Entry(s.mem, va) == ACCESS_BIT + WRITE_BIT + DISK_PAGE;
    hide PowerOn, Initial, WriteMem, Mem.Invariant;
    WriteFaultsIff(s, va, v);
  }

  /** So in every state a run of the machine can reach, reads fault exactly by map
      bit 23, and writes translated through the tables exactly by bits 23 and 22. */
  lemma RunFaultsIff(s: State, junk: nat -> Page, es: seq<Event>, va: word, v: word, io: Devices)
    requires s.mem == Initial(junk) && Runs(Reset(s), es)
    ensures var t := Final(Reset(s), es).s;
            var entry, r, w := Entry(t.mem, va), ReadMem(t, va, io), WriteMem(t, va, v);
            && (r.ok <==> ReadAllowed(entry)) && Flags(r.s.bus, !r.ok, false, !r.ok)
            && (!Windowed(va) ==>
                  && (w.ok <==> ReadAllowed(entry) && WriteAllowed(entry))
                  && Flags(w.s.bus, !ReadAllowed(entry), ReadAllowed(entry) && !WriteAllowed(entry), !w.ok))
  {
    hide Runs, Final, Initial, Mem.Invariant, ReadMem, WriteMem, Entry, Flags, ReadAllowed, WriteAllowed;
    Reachable(s, junk, es);
    ReadFaultsIff(Final(Reset(s), es).s, va, io);
    WriteFaultsIff(Final(Reset(s), es).s, va, v);
  }

  // ---------------------------------------------------------------------
  // RAM through the map

  /** The physical address a virtual address names. */
  function PhysAddr(m: MemData, va: word): nat { PageNumber(Entry(m, va)) * 0x100 + va % 0x100 }

  predicate InRam(m: MemData, va: word) {
    Accessible(Entry(m, va)) && PageNumber(Entry(m, va)) < RAM_PAGES
  }

  /** Reading RAM through the map is reading physical memory. */
  lemma ReadIsPhysical(s: State, va: word, io: Devices)
    requires Mem.Invariant(s.mem) && InRam(s.mem, va)
    ensures ReadPhys(s.mem, PhysAddr(s.mem, va)) == Some(ReadMem(s, va, io).value)
  {
    assert s.mem.table[PageNumber(s.mem.l2[L2Index(s.mem, va)])].Some?;
  }

  /** Writing RAM through the map is writing physical memory; translations stay. */
  lemma WriteIsPhysical(s: State, va: word, v: word)
    requires Mem.Invariant(s.mem) && InRam(s.mem, va) && Writable(Entry(s.mem, va))
    ensures WriteMem(s, va, v).s.mem == WritePhys(NoteWalk(s.mem, va), PhysAddr(s.mem, va), v)
    ensures forall va': word :: Entry(WriteMem(s, va, v).s.mem, va') == Entry(s.mem, va')
  {
    assert s.mem.table[PageNumber(s.mem.l2[L2Index(s.mem, va)])].Some?;
    hide UnibusWrite, LastResort;
  }

  /** A word written through any virtual address is what every alias of it reads;
      every other RAM address still reads what it did. */
  lemma AliasesAgree(s: State, va: word, v: word, va': word, io: Devices)
    requires Mem.Invariant(s.mem) && InRam(s.mem, va) && Writable(Entry(s.mem, va)) && InRam(s.mem, va')
    ensures ReadMem(WriteMem(s, va, v).s, va', io).value
         == if PhysAddr(s.mem, va) == PhysAddr(s.mem, va') then v else ReadMem(s, va', io).value
  {
    hide ReadMem, WriteMem, Mem.Invariant, ReadPhys, WritePhys, Entry, NoteWalk;
    var s', s1 := WriteMem(s, va, v).s, s.(mem := NoteWalk(s.mem, va));
    WriteKeeps(s, va, v);
    WalkKeeps(s.mem, va);
    WriteIsPhysical(s, va, v);
    ReadIsPhysical(s, va', io);
    ReadIsPhysical(s', va', io);
    PhysInRange(s.mem, va);
    PhysInRange(s.mem, va');
    PhysReadAfterWrite(s1.mem, PhysAddr(s.mem, va), v, PhysAddr(s.mem, va'));
  }

  /** A word the disk stores in physical memory is what every virtual alias reads, and
      every other RAM address reads what it did. */
  lemma DiskWordSeen(s: State, paddr: nat, v: word, va: word, io: Devices)
    requires Mem.Invariant(s.mem) && paddr < 0x40_0000 && Present(s.mem, paddr) && InRam(s.mem, va)
    ensures var s' := s.(mem := WritePhys(s.mem, paddr, v));
            && Entry(s'.mem, va) == Entry(s.mem, va)
            && ReadMem(s', va, io).value == if PhysAddr(s.mem, va) == paddr then v else ReadMem(s, va, io).value
  {
    hide ReadMem, Mem.Invariant, ReadPhys, InRam;
    var s' := s.(mem := WritePhys(s.mem, paddr, v));
    WritePhysKeeps(s.mem, paddr, v);
    SameTranslation(s.mem, paddr, v, va);
    ReadIsPhysical(s, va, io);
    ReadIsPhysical(s', va, io);
    PhysInRange(s.mem, va);
    PhysReadAfterWrite(s.mem, paddr, v, PhysAddr(s.mem, va));
    hide WritePhys, Entry;
  }

  lemma SameTranslation(m: Memory, paddr: nat, v: word, va: word)
    requires paddr < 0x40_0000
    ensures var m' := WritePhys(m, paddr, v);
            Entry(m', va) == Entry(m, va) && InRam(m', va) == InRam(m, va) && PhysAddr(m', va) == PhysAddr(m, va)
  {
    hide StoreWord, Windowed;
    StoreKeepsMap(m, paddr, v);
  }

  lemma StoreKeepsMap(m: Memory, paddr: nat, v: word)
    requires paddr < 0x40_0000
    ensures WritePhys(m, paddr, v).l1 == m.l1 && WritePhys(m, paddr, v).l2 == m.l2
  {
  }

  /** And a word stored through the map is what the disk reads, with every other
      physical word as it was. */
  lemma DiskSeesWord(s: State, va: word, v: word, paddr: nat)
    requires Mem.Invariant(s.mem) && InRam(s.mem, va) && Writable(Entry(s.mem, va))
    requires paddr < 0x40_0000 && s.mem.table[paddr / 0x100].Some?
    ensures ReadPhys(WriteMem(s, va, v).s.mem, paddr)
         == if PhysAddr(s.mem, va) == paddr then Some(v) else ReadPhys(s.mem, paddr)
  {
    hide ReadMem, WriteMem, Mem.Invariant, WritePhys, InRam, Entry, NoteWalk;
    WalkKeeps(s.mem, va);
    WriteIsPhysical(s, va, v);
    PhysInRange(s.mem, va);
    WalkReads(s.mem, va, paddr);
    PhysReadAfterWrite(NoteWalk(s.mem, va), PhysAddr(s.mem, va), v, paddr);
  }

  lemma WalkReads(m: Memory, va: word, paddr: nat)
    requires paddr < 0x40_0000
    ensures NoteWalk(m, va).table == m.table && ReadPhys(NoteWalk(m, va), paddr) == ReadPhys(m, paddr)
    ensures Present(NoteWalk(m, va), paddr) == Present(m, paddr)
  {
  }

  lemma PhysInRange(m: Memory, va: word)
    requires Mem.Invariant(m) && InRam(m, va)
    ensures PhysAddr(m, va) < 0x40_0000
    ensures m.table[PhysAddr(m, va) / 0x100].Some? && Present(m, PhysAddr(m, va))
    ensures forall va': word :: Entry(NoteWalk(m, va'), va) == Entry(m, va)
    ensures forall va': word :: ReadPhys(NoteWalk(m, va'), PhysAddr(m, va)) == ReadPhys(m, PhysAddr(m, va))
  {
    assert m.table[PageNumber(m.l2[L2Index(m, va)])].Some?;
    assert PhysAddr(m, va) / 0x100 == PageNumber(Entry(m, va));
  }
}
