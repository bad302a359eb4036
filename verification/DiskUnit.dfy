/** The disk controller's registers and its transfer loops, working on memory and
    the disk image in place. */
module DiskUnit {
  import opened Words
  import opened Mem
  import opened MemoryUnit
  import opened DiskChannel

  const MAX_COMMANDS := 65535
  const INTERRUPT_DELAY := 2500

  class Disk {
    const mem: MemUnit
    const image: array<word>
    const geometry: Geometry
    var cmd: word
    var clp: nat
    var ma: word
    var da: word
    var cur: Position           // cur_unit, cur_cyl, cur_head, cur_block
    var interruptDelay: nat

    ghost function Repr(): set<object>
      reads this, mem
    {
      {this, image} + mem.Repr()
    }

    ghost predicate Valid()
      reads this, mem, Repr()
    {
      mem.Valid() && this !in mem.Repr() && image !in mem.Repr()
    }

    ghost function Chan(): Channel
      reads this, mem, Repr()
      requires Valid()
    {
      Channel(mem.State(), image[..], clp, ma, cur)
    }

    constructor (memory: MemUnit, image: array<word>, geometry: Geometry)
      requires memory.Valid() && image !in memory.Repr()
      ensures Valid() && mem == memory && this.image == image && this.geometry == geometry
      ensures cmd == 0 && clp == 0 && da == 0 && interruptDelay == 0
    {
      mem, this.image, this.geometry := memory, image, geometry;
      cmd, clp, ma, da, cur, interruptDelay := 0, 0, 0, 0, Position(0, 0, 0, 0), 0;
    }

    /** disk_decode_addr */
    method DecodeDa()
      requires Valid()
      modifies `cur
      ensures Valid() && Repr() == old(Repr()) && Chan() == old(Chan()).(pos := DecodeAddr(da))
    {
      cur := Position((da / 0x1000_0000) % 8, (da / 0x1_0000) % 0x1000, (da / 0x100) % 0x100, da % 0x100);
    }

    /** disk_undecode_addr */
    method UndecodeDa()
      requires Valid()
      modifies `da
      ensures Valid() && Repr() == old(Repr()) && Chan() == old(Chan()) && da == EncodeAddr(cur)
    {
      da := (cur.unit % 8) * 0x1000_0000 + (cur.cyl % 0x1000) * 0x1_0000
            + (cur.head % 0x100) * 0x100 + cur.block % 0x100;
    }

    /** disk_incr_block */
    method NextBlock()
      requires Valid()
      modifies `cur
      ensures Valid() && Repr() == old(Repr()) && Chan() == old(Chan()).(pos := IncrBlock(geometry, old(cur)))
    {
      cur := cur.(block := cur.block + 1);
      if cur.block >= geometry.blocksPerTrack {
        cur := cur.(block := 0, head := cur.head + 1);
        if cur.head >= geometry.heads {
          cur := cur.(head := 0, cyl := cur.cyl + 1);
        }
      }
    }

    /** disk_read_block: a block of the image to a page of memory. */
    method ReadBlock(pn: nat)
      requires Valid() && pn < PAGES && 256 * Linear(geometry, cur) + 256 <= image.Length
      modifies mem.Repr()
      ensures Valid() && fresh(Repr() - old(Repr()))
      ensures Chan() == old(Chan()).(mem := PutPage(old(mem.State()), pn,
                                                    BlockData(image[..], Linear(geometry, cur))))
    {
      var base := 256 * Linear(geometry, cur);
      ghost var m, data := mem.State(), BlockData(image[..], Linear(geometry, cur));
      hide PutWords, Linear, WritePhys;
      PutNothing(m, pn, data);
      for i := 0 to 256
        invariant Valid() && fresh(Repr() - old(Repr())) && image[..] == old(image[..])
        invariant mem.State() == PutWords(m, pn, data, i)
      {
        PutWordsNext(m, pn, data, i);
        assert image[base + i] == data[i];
        var _ := mem.WritePhyMem(pn * 0x100 + i, image[base + i]);
      }
    }

    lemma PutNothing(m: Memory, pn: nat, data: Page)
      requires pn < PAGES
      ensures PutWords(m, pn, data, 0) == m
    {
    }

    /** disk_write_block: a page of memory to a block of the image, through a buffer. */
    method WriteBlock(pn: nat)
      requires Valid() && pn < PAGES && 256 * Linear(geometry, cur) + 256 <= image.Length
      requires Obtainable(mem.State(), pn)
      modifies mem.Repr(), image
      ensures Valid() && fresh(Repr() - old(Repr()))
      ensures var m := old(mem.State());
              Chan() == old(Chan()).(mem := AddPage(m, pn),
                                     image := PutBlock(old(image[..]), Linear(geometry, cur), PageData(m, pn)))
    {
      var base := 256 * Linear(geometry, cur);
      ghost var m := mem.State();
      var buffer := ReadPage(pn);
      ghost var was := image[..];
      hide Linear, AddPage, PageData;
      forall i | 0 <= i < 256 {
        image[base + i] := buffer[i];
      }
      assert image[..] == was[..base] + PageData(m, pn) + was[base + 256..];
    }

    method ReadPageWord(pn: nat, i: nat, ghost m: Memory) returns (v: word)
      requires Valid() && pn < PAGES && i < 256 && Obtainable(m, pn)
      requires mem.State() == m || mem.State() == AddPage(m, pn)
      modifies mem.Repr()
      ensures Valid() && fresh(Repr() - old(Repr())) && image[..] == old(image[..])
      ensures mem.State() == AddPage(m, pn) && v == PageData(m, pn)[i]
    {
      hide PageData, ReadPhys, Touch, Present, AddPage, MemUnit.Valid, MemUnit.State;
      PageReads(m, pn, i);
      var value, _ := mem.ReadPhyMem(pn * 0x100 + i);
      v := value;
    }

    method ReadPage(pn: nat) returns (buffer: array<word>)
      requires Valid() && pn < PAGES && Obtainable(mem.State(), pn)
      modifies mem.Repr()
      ensures Valid() && fresh(Repr() - old(Repr())) && image[..] == old(image[..])
      ensures fresh(buffer) && buffer !in Repr() && buffer[..] == PageData(old(mem.State()), pn)
      ensures mem.State() == AddPage(old(mem.State()), pn)
    {
      ghost var m := mem.State();
      ghost var data := PageData(m, pn);
      hide Obtainable, PageData, AddPage, MemUnit.FramesValid, MemUnit.BlocksValid, MemUnit.BumpValid;
      buffer := new word[256];
      for i := 0 to 256
        invariant Valid() && fresh(Repr() - old(Repr())) && image[..] == old(image[..]) && buffer !in Repr()
        invariant mem.State() == if i == 0 then m else AddPage(m, pn)
        invariant forall j :: 0 <= j < i ==> buffer[j] == data[j]
      {
        var v := ReadPageWord(pn, i, m);
        buffer[i] := v;
      }
    }

    lemma PageReads(m: Memory, pn: nat, i: nat)
      requires pn < PAGES && Obtainable(m, pn) && i < 256
      ensures var paddr := pn * 0x100 + i;
              && Touch(m, paddr) == AddPage(m, pn) && Touch(AddPage(m, pn), paddr) == AddPage(m, pn)
              && ReadPhys(m, paddr) == Some(PageData(m, pn)[i])
              && ReadPhys(AddPage(m, pn), paddr) == Some(PageData(m, pn)[i])
    {
      assert (pn * 0x100 + i) / 0x100 == pn && (pn * 0x100 + i) % 0x100 == i;
    }

    /** disk_start_read and disk_start_write. */
    method StartTransfer(write: bool)
      requires Valid()
      requires ChainFeasible(geometry, Chan().(pos := DecodeAddr(da)), write, MAX_COMMANDS)
      modifies Repr()
      ensures Valid() && fresh(Repr() - old(Repr()))
      ensures var o := Chain(geometry, old(Chan()).(pos := DecodeAddr(old(da))), write, MAX_COMMANDS);
              && Chan() == o.c
              && da == (if o.finished then EncodeAddr(o.c.pos) else old(da))
              && interruptDelay == (if o.finished && (old(cmd) / 2048) % 2 == 1 then INTERRUPT_DELAY
                                    else old(interruptDelay))
    {
      hide Chain, ChainFeasible, MemUnit.Valid, MemUnit.State, EncodeAddr, DecodeAddr;
      DecodeDa();
      var finished := RunChain(write);
      if finished {
        UndecodeDa();
        if (cmd / 2048) % 2 == 1 {
          interruptDelay := INTERRUPT_DELAY;
        }
      }
    }

    method RunChain(write: bool) returns (finished: bool)
      requires Valid() && ChainFeasible(geometry, Chan(), write, MAX_COMMANDS)
      modifies Repr()
      ensures Valid() && fresh(Repr() - old(Repr()))
      ensures Outcome(Chan(), finished) == Chain(geometry, old(Chan()), write, MAX_COMMANDS)
      ensures da == old(da) && cmd == old(cmd) && interruptDelay == old(interruptDelay)
    {
      hide Chain, ChainFeasible, MemUnit.Valid;
      for i := 0 to MAX_COMMANDS
        invariant Valid() && fresh(Repr() - old(Repr()))
        invariant da == old(da) && cmd == old(cmd) && interruptDelay == old(interruptDelay)
        invariant ChainFeasible(geometry, Chan(), write, MAX_COMMANDS - i)
        invariant Chain(geometry, Chan(), write, MAX_COMMANDS - i) == Chain(geometry, old(Chan()), write, MAX_COMMANDS)
      {
        var ended, ok := Command(write, MAX_COMMANDS - i);
        if ended {
          return ok;
        }
      }
      ChainOver(Chan(), write);
      finished := true;
    }

    /** A chain longer than the limit just stops there. */
    lemma ChainOver(c: Channel, write: bool)
      ensures ChainFeasible(geometry, c, write, 0) && Chain(geometry, c, write, 0) == Outcome(c, true)
    {
    }

    /** One turn of the loop: a command, then on to the next block and word. */
    method Command(write: bool, ghost limit: nat) returns (ended: bool, ok: bool)
      requires Valid() && limit > 0 && ChainFeasible(geometry, Chan(), write, limit)
      modifies Repr()
      ensures Valid() && fresh(Repr() - old(Repr()))
      ensures da == old(da) && cmd == old(cmd) && interruptDelay == old(interruptDelay)
      ensures ended ==> Outcome(Chan(), ok) == Chain(geometry, old(Chan()), write, limit)
      ensures !ended ==> ChainFeasible(geometry, Chan(), write, limit - 1)
                         && Chain(geometry, Chan(), write, limit - 1) == Chain(geometry, old(Chan()), write, limit)
    {
      hide One, Ccw, CcwPresent, More, Linear;
      var present, more := RunOne(write);
      if !present {
        return true, false;
      }
      if !more {
        return true, true;
      }
      NextBlock();
      clp := clp + 1;
      ended, ok := false, true;
    }

    /** One command: fetch its word, move the block. */
    method RunOne(write: bool) returns (present: bool, more: bool)
      requires Valid() && Feasible(geometry, Chan(), write)
      modifies Repr()
      ensures Valid() && fresh(Repr() - old(Repr()))
      ensures da == old(da) && cmd == old(cmd) && interruptDelay == old(interruptDelay)
      ensures present == CcwPresent(old(Chan()))
      ensures present ==> more == More(Ccw(old(Chan()))) && Chan() == One(geometry, old(Chan()), write)
      ensures !present ==> Chan() == old(Chan())
    {
      hide Linear, PutPage, PageData, PutBlock, FrameWord;
      var ccw, ok := mem.ReadPhyMem(clp);
      present, more := ok, More(ccw);
      if present {
        ma := CcwPage(ccw) * 0x100;
        if write {
          WriteBlock(CcwPage(ccw));
        } else {
          ReadBlock(CcwPage(ccw));
        }
      }
    }
  }
}
