/** How a virtual address is translated, what each page answers to reads and does with
    stores, and the Unibus registers, told by addresses and bits. */
module Pages {
  import opened Words
  import opened Mem
  import opened Cpu
  import opened Reachable

  // ---------------------------------------------------------------------
  // Translation

  /** The address of word o of page p of region r; above it stand bits the map ignores. */
  function Address(top: nat, r: nat, p: nat, o: nat): nat { top * 0x100_0000 + r * 0x2000 + p * 0x100 + o }

  lemma AddressParts(top: nat, r: nat, p: nat, o: nat)
    requires top < 0x100 && r < 2048 && p < 32 && o < 0x100
    ensures Address(top, r, p, o) < 0x1_0000_0000
    ensures var va: word := Address(top, r, p, o);
            && va % 0x100 == o && VirtualPage(va) == 32 * r + p && Region(va) == r && PageInRegion(va) == p
  {
    var va, low := Address(top, r, p, o), r * 0x2000 + p * 0x100 + o;
    DivModUnique(va, 0x100_0000, top, low);
    DivModUnique(low, 0x100, 32 * r + p, o);
    DivModUnique(32 * r + p, 32, r, p);
    DivModUnique(va, 0x100, 0x1_0000 * top + 32 * r + p, o);
  }

  /** The level-1 map is indexed by the upper eleven of the low 24 bits, the level-2 map by
      what it holds and the next five bits. Three windows are wired: the frame buffer and
      the color probe to the TV page, and one page to the disk's. */
  lemma Translation(m: MemData, top: nat, r: nat, p: nat, o: nat)
    requires top < 0x100 && r < 2048 && p < 32 && o < 0x100
    ensures Address(top, r, p, o) < 0x1_0000_0000
    ensures var va: word, low := Address(top, r, p, o), Address(0, r, p, o);
            && va % 0x100 == o && L1Of(m, va) == m.l1[r] % 32
            && Entry(m, va) == if 0xFC_0000 <= low < 0xFC_8000 || 0xFD_0000 <= low < 0xFD_8000 then 0xC0_3C00
                               else if 0xFD_FF00 <= low < 0xFE_0000 then 0xC0_3DFF
                               else m.l2[32 * (m.l1[r] % 32) + p]
  {
    AddressParts(top, r, p, o);
    hide VirtualPage, Region, PageInRegion;
  }

  // ---------------------------------------------------------------------
  // Reads

  /** What a page answers (octal in comments): RAM below 020000 and frames left over from it
      anywhere; all ones up to 035777; the TV at 036000, but 0 to the color probe; the disk
      and TV registers on 036777; Ethernet and UART on 036774 to 036776; the I/O board on
      037764 at doubled addresses; and 0 from six Unibus registers on 037766. */
  function Answer(m: Memory, pn: nat, va: word, io: Devices): word
    requires pn < 0x4000 && m.table[pn].Some?
  {
    var o, stored := va % 0x100, m.frames[m.table[pn].value][va % 0x100];
    if pn < 0x2000 then stored
    else if pn < 0x3C00 then 0xFFFF_FFFF
    else if pn == 0x3C00 then if 0xFD_0000 <= va % 0x100_0000 < 0xFD_8000 then 0 else io(0x3C00, va % 0x8000)
    else if pn == 0x3DFF then if o >= 0xF8 || o == 0xF0 then io(0x3DFF, o) else 0
    else if pn in {0x3DFC, 0x3DFD, 0x3DFE} then io(pn, o)
    else if pn == 0x3FF4 then io(0x3FF4, 2 * o)
    else if pn == 0x3FF6 && o in {32, 36, 64, 68, 72, 76} then 0
    else stored
  }

  /** The low 23 bits above the page offset decide the window of the color probe. */
  lemma ColorProbe(va: word)
    ensures ColorWindow(va) <==> 0xFD_0000 <= va % 0x100_0000 < 0xFD_8000
  {
    var low := va % 0x100_0000;
    assert low / 0x100 / 0x80 == low / 0x8000;
  }

  lemma ReadAnswers(s: State, va: word, io: Devices)
    requires ReadAllowed(Entry(s.mem, va)) && s.mem.table[Entry(s.mem, va) % 0x4000].Some?
    ensures ReadMem(s, va, io).ok && ReadMem(s, va, io).value == Answer(s.mem, Entry(s.mem, va) % 0x4000, va, io)
  {
    ColorProbe(va);
    hide Entry, NoteWalk, ColorWindow;
  }

  // ---------------------------------------------------------------------
  // Stores

  /** A store changes one word of its page's frame. */
  function Stored(s: State, pn: nat, o: nat, v: word): State
    requires pn < 0x4000 && o < 256 && s.mem.table[pn].Some?
  {
    var f := s.mem.table[pn].value;
    s.(mem := s.mem.(frames := s.mem.frames[f := s.mem.frames[f][o := v]]))
  }

  /** Or it is for a device to act on. */
  function Noted(s: State, pn: nat, register: nat, v: word): State {
    s.(log := s.log + [IoWrite(pn, register, v)])
  }

  /** What a store does on each page but the Unibus's. */
  function Effect(s: State, pn: nat, va: word, v: word): State
    requires pn < 0x4000 && s.mem.table[pn].Some?
  {
    var o := va % 0x100;
    if pn == 0x3C00 then
      if 0xFD_0000 <= va % 0x100_0000 < 0xFD_8000 then s else Noted(s, 0x3C00, va % 0x8000, v)
    else if pn == 0x3FF0 then s
    else if pn == 0x3FF4 then Noted(s, 0x3FF4, 2 * o, v)
    else if pn == 0x3DFF && (o >= 0xF8 || o == 0xF0) then Noted(s, 0x3DFF, o, v)
    else if pn in {0x3DFC, 0x3DFD, 0x3DFE} then Noted(s, pn, o, v)
    else Stored(s, pn, o, v)
  }

  lemma StoreEffect(s: State, va: word, v: word)
    requires ReadAllowed(Entry(s.mem, va)) && WriteAllowed(Entry(s.mem, va)) && Entry(s.mem, va) % 0x4000 != 0x3FF6
    requires s.mem.table[Entry(s.mem, va) % 0x4000].Some?
    ensures WriteMem(s, va, v) == Write(Effect(Walked(s, va), Entry(s.mem, va) % 0x4000, va, v), true)
  {
    ColorProbe(va);
    hide Entry, ColorWindow, UnibusWrite;
  }

  // ---------------------------------------------------------------------
  // The Unibus

  /** The bits that the interrupt registers 040 and 042 replace. */
  predicate Replaced(reg: nat, i: nat) {
    if reg == 32 then i == 0 || 10 <= i <= 13 else reg == 34 && (2 <= i <= 9 || i == 15)
  }

  lemma MaskBits(i: nat)
    requires i < 32
    ensures (Bit(0x3C01, i) <==> Replaced(32, i)) && (Bit(0x83FC, i) <==> Replaced(34, i))
  {
    Powers();
    assert Pow2(4) == 16 && 0xFF * Pow2(2) == 0x3FC;
    hide *;
    ReplacedIs(i);
    BitsOfSplit(15, 1, 10, i);
    if i >= 10 { BitsOfOnes(4, i - 10); }
    BitsOfSplit(1, 0x3FC, 15, i);
    BitsOfMultiple(0xFF, 2, i);
    if i >= 2 { BitsOfOnes(8, i - 2); }
    OneBit(true, i);
    if i >= 15 { OneBit(true, i - 15); }
  }

  lemma ReplacedIs(i: nat)
    ensures Replaced(32, i) <==> i == 0 || 10 <= i <= 13
    ensures Replaced(34, i) <==> 2 <= i <= 9 || i == 15
  {
  }

  /** An interrupt register's bits come from the word, the others stay. */
  lemma MaskedBits(was: word, reg: nat, v: word, i: nat)
    requires reg in {32, 34} && i < 32
    ensures Bit(Masked(was, if reg == 32 then 0x3C01 else 0x83FC, v), i) == Bit(if Replaced(reg, i) then v else was, i)
  {
    var mask: word := if reg == 32 then 0x3C01 else 0x83FC;
    hide *;
    MaskBits(i);
    MaskedBit(was, mask, v, i);
  }

  lemma MaskedBit(was: word, mask: word, v: word, i: nat)
    requires i < 32
    ensures Bit(Masked(was, mask, v), i) == Bit(if Bit(mask, i) then v else was, i)
  {
    BitsOfOr(And(was, Not(mask)), And(v, mask), i);
    BitsOfAnd(was, Not(mask), i);
    BitsOfAnd(v, mask, i);
    BitsOfNot(mask, i);
    hide Bit, BitAnd, BitOr;
  }

  lemma SwitchBits(i: nat)
    ensures Bit(0x24, i) <==> i == 2 || i == 5
  {
    Powers();
    BitsOfSplit(1, 4, 5, i);
    BitsOfMultiple(1, 2, i);
    if i >= 2 { OneBit(true, i - 2); }
    if i >= 5 { OneBit(true, i - 5); }
    hide Bit, Pow2;
  }

  lemma SwitchIs(v: word)
    ensures And(v, 0x24) == 0x24 <==> Bit(v, 2) && Bit(v, 5)
  {
    SwitchBits(2);
    SwitchBits(5);
    BitsOfAnd(v, 0x24, 2);
    BitsOfAnd(v, 0x24, 5);
    hide Bit, BitAnd;
    if Bit(v, 2) && Bit(v, 5) {
      forall i: nat | i < 32 ensures Bit(And(v, 0x24), i) == Bit(0x24, i) {
        SwitchBits(i);
        BitsOfAnd(v, 0x24, i);
      }
      Powers();
      SameBits(And(v, 0x24), 0x24, 32);
    }
  }

  /** A store to the Unibus page, at doubled addresses: register 012 turns the PROM off if
      bits 2 and 5 are set, 040 and 042 replace bits of the interrupt status, 044, the other
      registers up to 036 and those from 0140 to 0176 do nothing, the debug interface
      notes the word, and the rest are stored. */
  lemma UnibusStore(s: State, va: word, v: word)
    requires ReadAllowed(Entry(s.mem, va)) && WriteAllowed(Entry(s.mem, va)) && Entry(s.mem, va) % 0x4000 == 0x3FF6
    requires s.mem.table[0x3FF6].Some?
    ensures WriteMem(s, va, v).ok
    ensures var t, u, reg := Walked(s, va), WriteMem(s, va, v).s, 2 * (va % 0x100);
            if reg == 10 && Bit(v, 2) && Bit(v, 5) then u == t.(store := t.store.(promEnabled := false))
            else if reg in {32, 34} then
              && u == t.(ctl := t.ctl.(interruptStatus := u.ctl.interruptStatus))
              && forall i: nat :: i < 32 ==>
                   Bit(u.ctl.interruptStatus, i) == Bit(if Replaced(reg, i) then v else s.ctl.interruptStatus, i)
            else if reg in {64, 68, 72, 76} then u == Noted(t, 0x3FF6, reg, v)
            else if reg <= 30 || reg == 36 || 96 <= reg <= 126 || reg >= 256 then u == t
            else u == Stored(t, 0x3FF6, reg, v)
  {
    var reg := 2 * (va % 0x100);
    SwitchIs(v);
    if reg in {32, 34} {
      forall i: nat | i < 32
        ensures Bit(Masked(s.ctl.interruptStatus, if reg == 32 then 0x3C01 else 0x83FC, v), i)
             == Bit(if Replaced(reg, i) then v else s.ctl.interruptStatus, i)
      {
        MaskedBits(s.ctl.interruptStatus, reg, v, i);
      }
    }
    hide Entry, Bit, BitAnd, BitOr, Replaced, Masked, ColorWindow;
  }
}
