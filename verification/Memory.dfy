/** The two-level address map and the physical page table: their values, their
    operations as functions, and what every operation keeps. */
module Mem {
  import opened Words

  type Page = s: seq<word> | |s| == 256 witness seq(256, i => 0)
  type L1Map = s: seq<word> | |s| == 2048 witness seq(2048, i => 0)
  type L2Map = s: seq<word> | |s| == 1024 witness seq(1024, i => 0)
  type PageTable = s: seq<Option<nat>> | |s| == 0x4000 witness seq(0x4000, i => None)

  /** Page frames are numbered in the order in which they are carved from the
      heap; the table maps physical page numbers to frames. `junk` is what
      the heap holds in a frame before it is first written. */
  datatype MemData = MemData(
    l1: L1Map, l2: L2Map, table: PageTable, frames: seq<Page>,
    lastVirt: word, lastL1: word, lastL2: word, junk: nat -> Page)

  ghost predicate PointersValid(m: MemData) {
    forall pn :: 0 <= pn < 0x4000 && m.table[pn].Some? ==> m.table[pn].value < |m.frames|
  }

  type Memory = m: MemData | PointersValid(m)
    ghost witness MemData(seq(2048, i => 0), seq(1024, i => 0), seq(0x4000, i => None), [], 0, 0, 0, k => seq(256, i => 0))

  const SENTINEL: word := 0xFFFF_FF00
  const RAM_PAGES := 0x2000
  const ACCESS_BIT := 0x80_0000
  const WRITE_BIT := 0x40_0000
  const TV_PAGE := 0x3C00   // 036000
  const DISK_PAGE := 0x3DFF   // 036777

  // ---------------------------------------------------------------------
  // Translation

  function VirtualPage(virt: word): nat { (virt % 0x100_0000) / 0x100 }
  function Region(virt: word): nat { VirtualPage(virt) / 32 }
  function PageInRegion(virt: word): nat { VirtualPage(virt) % 32 }

  /** Frame buffer, color and disk windows are wired past the map. */
  predicate Windowed(virt: word) {
    var page := VirtualPage(virt);
    page / 0x80 == 0x1F8 || page / 0x80 == 0x1FA || page == 0xFDFF
  }

  function L1Of(m: MemData, virt: word): nat { m.l1[Region(virt)] % 32 }

  function L2Index(m: MemData, virt: word): nat { L1Of(m, virt) * 32 + PageInRegion(virt) }

  /** map_vtop's result: the level-2 entry, or the wired entry of a window. */
  function Entry(m: MemData, virt: word): word {
    if !Windowed(virt) then m.l2[L2Index(m, virt)]
    else if VirtualPage(virt) == 0xFDFF then ACCESS_BIT + WRITE_BIT + DISK_PAGE
    else ACCESS_BIT + WRITE_BIT + TV_PAGE
  }

  function PageNumber(entry: word): nat { entry % 0x4000 }
  predicate Accessible(entry: word) { (entry / ACCESS_BIT) % 2 == 1 }
  predicate Writable(entry: word) { (entry / WRITE_BIT) % 2 == 1 }

  /** map_vtop's effect: a walk through the map is remembered. */
  function NoteWalk(m: Memory, virt: word): Memory {
    if Windowed(virt) then m
    else m.(lastVirt := VirtualPage(virt) * 0x100, lastL1 := L1Of(m, virt), lastL2 := Entry(m, virt))
  }

  function Invalidate(m: Memory): Memory { m.(lastVirt := SENTINEL) }

  // ---------------------------------------------------------------------
  // Physical pages

  /** add_new_page_no: give the page a frame unless it already has one. */
  function AddPage(m: Memory, pn: nat): (m': Memory)
    requires pn < 0x4000
    ensures m'.table[pn].Some?
  {
    if m.table[pn].Some? then m
    else m.(table := m.table[pn := Some(|m.frames|)], frames := m.frames + [m.junk(|m.frames|)])
  }

  function FrameWord(m: Memory, pn: nat, offset: nat): word
    requires pn < 0x4000 && offset < 256 && m.table[pn].Some?
  {
    m.frames[m.table[pn].value][offset]
  }

  function StoreWord(m: Memory, pn: nat, offset: nat, v: word): Memory
    requires pn < 0x4000 && offset < 256 && m.table[pn].Some?
  {
    var f := m.table[pn].value;
    m.(frames := m.frames[f := m.frames[f][offset := v]])
  }

  /** A physical access creates RAM pages on demand; other pages must exist. */
  function Touch(m: Memory, paddr: nat): Memory
    requires paddr < 0x40_0000
  {
    if paddr / 0x100 < RAM_PAGES then AddPage(m, paddr / 0x100) else m
  }

  /** A physical page that an access finds or creates. */
  predicate Obtainable(m: MemData, pn: nat)
    requires pn < 0x4000
  {
    m.table[pn].Some? || pn < RAM_PAGES
  }

  predicate Present(m: MemData, paddr: nat)
    requires paddr < 0x40_0000
  {
    Obtainable(m, paddr / 0x100)
  }

  function ReadPhys(m: Memory, paddr: nat): Option<word>
    requires paddr < 0x40_0000
  {
    if Present(m, paddr) then Some(FrameWord(Touch(m, paddr), paddr / 0x100, paddr % 0x100)) else None
  }

  function WritePhys(m: Memory, paddr: nat, v: word): Memory
    requires paddr < 0x40_0000
  {
    if Present(m, paddr) then StoreWord(Touch(m, paddr), paddr / 0x100, paddr % 0x100, v) else m
  }

  // ---------------------------------------------------------------------
  // Map writes

  function WriteL1(m: Memory, md: word, vma: word): Memory {
    if (vma / 0x400_0000) % 2 == 0 then m
    else Invalidate(m.(l1 := m.l1[Region(md) := (vma / 0x800_0000) % 32]))
  }

  function WriteL2(m: Memory, md: word, vma: word): Memory {
    if (vma / 0x200_0000) % 2 == 0 then m
    else
      // Level-1 entries are below 32, so masking them here changes nothing.
      AddPage(Invalidate(m.(l2 := m.l2[L2Index(m, md) := vma])), vma % 0x4000)
  }

  /** The write-map destinations: level 1 if VMA<26>, then level 2 if VMA<25>. */
  function WriteMap(m: Memory, md: word, vma: word): Memory { WriteL2(WriteL1(m, md, vma), md, vma) }

  // ---------------------------------------------------------------------
  // What every operation keeps

  /** Level-1 entries fit five bits, so the level-2 index is always in range. */
  ghost predicate L1Narrow(m: MemData) { forall i :: 0 <= i < 2048 ==> m.l1[i] < 32 }

  /** The remembered walk is the walk the map would give now. */
  ghost predicate CacheCoherent(m: MemData) {
    m.lastVirt == SENTINEL ||
    (&& m.lastVirt < 0x100_0000 && m.lastVirt % 0x100 == 0 && !Windowed(m.lastVirt)
     && m.lastL1 == L1Of(m, m.lastVirt) && m.lastL2 == Entry(m, m.lastVirt))
  }

  /** Every level-2 entry names a page that has a frame. */
  ghost predicate MapBacked(m: MemData) {
    forall i :: 0 <= i < 1024 ==> m.table[PageNumber(m.l2[i])].Some?
  }

  /** No two pages share a frame. */
  ghost predicate FramesDistinct(m: MemData) {
    forall p, q :: 0 <= p < q < 0x4000 && m.table[p].Some? ==> m.table[p] != m.table[q]
  }

  ghost predicate Invariant(m: Memory) {
    L1Narrow(m) && CacheCoherent(m) && MapBacked(m) && FramesDistinct(m)
  }

  /** Frames are never taken away or replaced. */
  ghost predicate Extends(m: Memory, m': Memory) {
    forall pn :: 0 <= pn < 0x4000 && m.table[pn].Some? ==> m'.table[pn] == m.table[pn]
  }

  /** The memory when run starts: both maps zero and page 0 just created. */
  function Initial(junk: nat -> Page): Memory {
    WritePhys(MemData(seq(2048, i => 0), seq(1024, i => 0), seq(0x4000, i => None), [],
                      SENTINEL, 0, 0, junk), 0, 0)
  }

  lemma InitialInvariant(junk: nat -> Page)
    ensures Invariant(Initial(junk))
  {
    assert forall i :: 0 <= i < 1024 ==> Initial(junk).l2[i] == 0;
  }

  /** At the start only page 0 has a frame, its first word 0 and the others as they were
      found; every map entry is 0 and no walk is remembered. */
  lemma InitialPage(junk: nat -> Page, pn: nat, i: nat)
    requires pn < 0x4000 && i < 1024
    ensures var m := Initial(junk);
            && (m.table[pn].Some? <==> pn == 0) && m.frames == [junk(0)[0 := 0]]
            && m.l1[i] == m.l1[i + 1024] == m.l2[i] == m.lastL1 == m.lastL2 == 0 && m.lastVirt == 0xFFFF_FF00
  {
  }

  /** A physical access creates the page if it is RAM, the first 8192 pages, and fails if it
      is not and has no frame. */
  lemma PhysPages(m: Memory, paddr: nat, v: word)
    requires paddr < 0x40_0000
    ensures var pn := paddr / 0x100;
            && (ReadPhys(m, paddr).Some? <==> m.table[pn].Some? || pn < 0x2000)
            && (Touch(m, paddr) == m <==> m.table[pn].Some? || pn >= 0x2000)
            && (ReadPhys(m, paddr).None? ==> WritePhys(m, paddr, v) == m)
            && (m.table[pn].None? && pn < 0x2000 ==>
                  ReadPhys(m, paddr) == Some(m.junk(|m.frames|)[paddr % 0x100]))
  {
  }

  lemma WalkKeeps(m: Memory, virt: word)
    requires Invariant(m)
    ensures Invariant(NoteWalk(m, virt)) && Extends(m, NoteWalk(m, virt))
  {
    assert VirtualPage(VirtualPage(virt) * 0x100) == VirtualPage(virt);
  }

  lemma AddPageKeeps(m: Memory, pn: nat)
    requires Invariant(m) && pn < 0x4000
    ensures Invariant(AddPage(m, pn)) && Extends(m, AddPage(m, pn))
  {
  }

  lemma StoreKeeps(m: Memory, pn: nat, offset: nat, v: word)
    requires Invariant(m) && pn < 0x4000 && offset < 256 && m.table[pn].Some?
    ensures Invariant(StoreWord(m, pn, offset, v)) && Extends(m, StoreWord(m, pn, offset, v))
  {
  }

  lemma WritePhysKeeps(m: Memory, paddr: nat, v: word)
    requires Invariant(m) && paddr < 0x40_0000
    ensures Invariant(Touch(m, paddr)) && Extends(m, Touch(m, paddr))
    ensures Invariant(WritePhys(m, paddr, v)) && Extends(m, WritePhys(m, paddr, v))
  {
    if paddr / 0x100 < RAM_PAGES { AddPageKeeps(m, paddr / 0x100); }
    if Present(m, paddr) { StoreKeeps(Touch(m, paddr), paddr / 0x100, paddr % 0x100, v); }
  }

  lemma WriteMapKeeps(m: Memory, md: word, vma: word)
    requires Invariant(m)
    ensures Invariant(WriteMap(m, md, vma)) && Extends(m, WriteMap(m, md, vma))
  {
    var m1 := WriteL1(m, md, vma);
    assert Invariant(m1);
    if (vma / 0x200_0000) % 2 == 1 {
      var m2 := AddPage(m1, vma % 0x4000);
      AddPageKeeps(m1, vma % 0x4000);
    }
  }

  // ---------------------------------------------------------------------
  // What a map write does to every translation

  /** Level-1 value a virtual address has after the level-1 half of a map write. */
  function NewL1(m: MemData, md: word, vma: word, virt: word): nat {
    if (vma / 0x400_0000) % 2 == 1 && Region(virt) == Region(md) then (vma / 0x800_0000) % 32 else L1Of(m, virt)
  }

  /** After a map write an address translates to the written entry just when
      level 2 was written and it shares the level-1 value and the low five page
      bits with the written address; otherwise to the old entry of its (possibly
      new) level-1 value; windows are not affected. */
  lemma WriteMapExact(m: Memory, md: word, vma: word, virt: word)
    ensures var m' := WriteMap(m, md, vma);
            && L1Of(m', virt) == NewL1(m, md, vma, virt)
            && Entry(m', virt) ==
               if Windowed(virt) then Entry(m, virt)
               else if (vma / 0x200_0000) % 2 == 1 && NewL1(m, md, vma, virt) == NewL1(m, md, vma, md)
                       && PageInRegion(virt) == PageInRegion(md) then vma
               else m.l2[32 * NewL1(m, md, vma, virt) + PageInRegion(virt)]
  {
    var m1 := WriteL1(m, md, vma);
    assert L1Of(m1, virt) == NewL1(m, md, vma, virt);
    assert L1Of(m1, md) == NewL1(m, md, vma, md);
    var m' := WriteMap(m, md, vma);
    assert m'.l1 == m1.l1;
    assert L2Index(m1, virt) == L2Index(m1, md) <==>
           L1Of(m1, virt) == L1Of(m1, md) && PageInRegion(virt) == PageInRegion(md);
  }

  // ---------------------------------------------------------------------
  // RAM coherence

  /** A word stored in one page's frame is read back there and nowhere else. */
  lemma StoreIsLocal(m: Memory, pn: nat, offset: nat, v: word, pn': nat, offset': nat)
    requires FramesDistinct(m) && pn < 0x4000 && offset < 256 && m.table[pn].Some?
    requires pn' < 0x4000 && offset' < 256 && m.table[pn'].Some?
    ensures FrameWord(StoreWord(m, pn, offset, v), pn', offset')
         == if pn == pn' && offset == offset' then v else FrameWord(m, pn', offset')
  {
    if pn < pn' { assert m.table[pn] != m.table[pn']; }
    if pn' < pn { assert m.table[pn'] != m.table[pn]; }
  }

  /** Creating a page disturbs no existing word. */
  lemma AddPageIsLocal(m: Memory, pn: nat, pn': nat, offset': nat)
    requires pn < 0x4000 && pn' < 0x4000 && offset' < 256 && m.table[pn'].Some?
    ensures AddPage(m, pn).table[pn'] == m.table[pn']
    ensures FrameWord(AddPage(m, pn), pn', offset') == FrameWord(m, pn', offset')
  {
  }

  /** Physical memory behaves as an array of words: a write is read back at its
      own address and changes no other address. */
  lemma PhysReadAfterWrite(m: Memory, paddr: nat, v: word, paddr': nat)
    requires Invariant(m) && paddr < 0x40_0000 && paddr' < 0x40_0000 && Present(m, paddr)
    requires paddr' == paddr || m.table[paddr' / 0x100].Some?
    ensures ReadPhys(WritePhys(m, paddr, v), paddr')
         == if paddr == paddr' then Some(v) else ReadPhys(m, paddr')
  {
    var t, pn, pn' := Touch(m, paddr), paddr / 0x100, paddr' / 0x100;
    WritePhysKeeps(m, paddr, v);
    StoreIsLocal(t, pn, paddr % 0x100, v, pn', paddr' % 0x100);
    if paddr != paddr' { AddPageIsLocal(m, pn, pn', paddr' % 0x100); }
  }
}
