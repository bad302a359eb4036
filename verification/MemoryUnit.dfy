/** The memory of the emulator, updated in place: map arrays, page pointers and
    page frames carved from blocks of the heap by a bump pointer. */
module MemoryUnit {
  import opened Words
  import opened Mem

  const BLOCK_PAGES := 1024
  const BLOCK_WORDS := 0x4_0000

  class MemUnit {
    const l1Map: array<word>
    const l2Map: array<word>
    const phyPages: array<Option<nat>>   // pointer to a frame, frames numbered through all blocks
    const junk: nat -> Page              // what the heap holds in a frame never written
    var blocks: seq<array<word>>         // every block obtained so far, 1024 pages each
    var pageBlock: Option<nat>           // next frame of the newest block
    var pageBlockCount: nat
    var lastVirt: word
    var lastL1: word
    var lastL2: word
    ghost var frames: seq<Page>          // contents of the frames handed out

    ghost function Repr(): set<object>
      reads this
    {
      {this, l1Map, l2Map, phyPages} + set b | b in blocks
    }

    /** What frame k must hold: its contents, or junk if not handed out yet. */
    ghost function Expected(k: nat): Page
      reads this
    {
      if k < |frames| then frames[k] else junk(k)
    }

    ghost predicate BlocksValid()
      reads this
    {
      && l1Map != l2Map
      && (forall i :: 0 <= i < |blocks| ==>
            blocks[i].Length == BLOCK_WORDS && blocks[i] != l1Map && blocks[i] != l2Map)
      && (forall i, j :: 0 <= i < j < |blocks| ==> blocks[i] != blocks[j])
    }

    ghost predicate FramesValid()
      requires BlocksValid()
      reads this, blocks
    {
      forall b, i :: 0 <= b < |blocks| && 0 <= i < BLOCK_WORDS ==>
        blocks[b][i] == Expected(BLOCK_PAGES * b + i / 256)[i % 256]
    }

    ghost predicate BumpValid()
      reads this
    {
      && |frames| + pageBlockCount == BLOCK_PAGES * |blocks|
      && (pageBlock.None? <==> pageBlockCount == 0)
      && (pageBlock.Some? ==> pageBlock.value == |frames| && pageBlockCount <= BLOCK_PAGES)
    }

    ghost predicate Valid()
      reads Repr()
    {
      && l1Map.Length == 2048 && l2Map.Length == 1024 && phyPages.Length == 0x4000
      && BlocksValid() && FramesValid() && BumpValid()
      && (forall pn :: 0 <= pn < 0x4000 && phyPages[pn].Some? ==> phyPages[pn].value < |frames|)
    }

    ghost function State(): Memory
      reads Repr()
      requires Valid()
    {
      MemData(l1Map[..], l2Map[..], phyPages[..], frames, lastVirt, lastL1, lastL2, junk)
    }

    constructor (junk: nat -> Page)
      ensures Valid() && fresh(Repr())
      ensures State() == MemData(seq(2048, i => 0), seq(1024, i => 0), seq(0x4000, i => None), [],
                                 SENTINEL, 0, 0, junk)
    {
      l1Map := new word[2048](i => 0);
      l2Map := new word[1024](i => 0);
      phyPages := new Option<nat>[0x4000](i => None);
      this.junk := junk;
      blocks, pageBlock, pageBlockCount, frames := [], None, 0, [];
      lastVirt, lastL1, lastL2 := SENTINEL, 0, 0;
    }

    method InvalidateVtopCache()
      requires Valid()
      modifies `lastVirt
      ensures Valid() && State() == Invalidate(old(State())) && Repr() == old(Repr())
    {
      lastVirt := SENTINEL;
    }

    method MapVtop(virt: word) returns (entry: word, l1: Option<nat>, offset: nat)
      requires Valid()
      modifies `lastVirt, `lastL1, `lastL2
      ensures Valid() && State() == NoteWalk(old(State()), virt) && Repr() == old(Repr())
      ensures entry == Entry(old(State()), virt) && offset == virt % 0x100
      ensures l1 == if Windowed(virt) then None else Some(L1Of(old(State()), virt))
    {
      var page := VirtualPage(virt);
      offset := virt % 0x100;
      if page / 0x80 == 0x1F8 || page / 0x80 == 0x1FA {
        return ACCESS_BIT + WRITE_BIT + TV_PAGE, None, offset;
      }
      if page == 0xFDFF {
        return ACCESS_BIT + WRITE_BIT + DISK_PAGE, None, offset;
      }
      var level1 := l1Map[page / 32] % 32;
      entry := l2Map[level1 * 32 + page % 32];
      l1 := Some(level1);
      lastVirt, lastL1, lastL2 := page * 0x100, level1, entry;
    }

    /** The malloc of new_page: another 1024 pages, not yet handed out. */
    method NewBlock()
      requires Valid() && pageBlock.None?
      modifies `blocks, `pageBlock, `pageBlockCount
      ensures Valid() && fresh(Repr() - old(Repr())) && pageBlock.Some?
    {
      var base, heap := BLOCK_PAGES * |blocks|, junk;
      var block := new word[BLOCK_WORDS](i => heap(base + i / 256)[i % 256]);
      blocks := blocks + [block];
      pageBlock, pageBlockCount := Some(base), BLOCK_PAGES;
    }

    /** new_page: take the next frame of the current block. */
    method NewPage() returns (page: nat)
      requires Valid()
      modifies `blocks, `pageBlock, `pageBlockCount, `frames
      ensures Valid() && fresh(Repr() - old(Repr()))
      ensures page == |old(frames)| && frames == old(frames) + [junk(page)]
    {
      if pageBlock.None? {
        NewBlock();
      }
      page := pageBlock.value;
      pageBlock, pageBlockCount := Some(page + 1), pageBlockCount - 1;
      if pageBlockCount == 0 {
        pageBlock := None;
      }
      frames := frames + [junk(page)];
    }

    method AddNewPageNo(pn: nat) returns (added: bool)
      requires Valid() && pn < 0x4000
      modifies `blocks, `pageBlock, `pageBlockCount, `frames, phyPages
      ensures Valid() && fresh(Repr() - old(Repr()))
      ensures State() == AddPage(old(State()), pn)
      ensures added == old(phyPages[pn]).None?
    {
      added := phyPages[pn].None?;
      if added {
        var page := NewPage();
        phyPages[pn] := Some(page);
      }
    }

    /** Whether the page has a frame. */
    method HasPage(pn: nat) returns (there: bool)
      requires Valid() && pn < 0x4000
      ensures there == State().table[pn].Some?
    {
      there := phyPages[pn].Some?;
    }

    method ReadFrame(pn: nat, offset: nat) returns (v: word)
      requires Valid() && pn < 0x4000 && offset < 256 && State().table[pn].Some?
      ensures v == FrameWord(State(), pn, offset)
    {
      var k := phyPages[pn].value;
      var at := (k % BLOCK_PAGES) * 256 + offset;
      v := blocks[k / BLOCK_PAGES][at];
      assert at / 256 == k % BLOCK_PAGES && at % 256 == offset;
    }

    method WriteFrame(pn: nat, offset: nat, v: word)
      requires Valid() && pn < 0x4000 && offset < 256 && State().table[pn].Some?
      modifies blocks, `frames
      ensures Valid() && Repr() == old(Repr())
      ensures State() == StoreWord(old(State()), pn, offset, v)
    {
      var k := phyPages[pn].value;
      var block, at := blocks[k / BLOCK_PAGES], (k % BLOCK_PAGES) * 256 + offset;
      block[at] := v;
      frames := frames[k := frames[k][offset := v]];
      assert at / 256 == k % BLOCK_PAGES && at % 256 == offset;
      forall b, i | 0 <= b < |blocks| && 0 <= i < BLOCK_WORDS
        ensures blocks[b][i] == Expected(BLOCK_PAGES * b + i / 256)[i % 256]
      {
        assert old(blocks[b][i]) == old(Expected(BLOCK_PAGES * b + i / 256))[i % 256];
        if b != k / BLOCK_PAGES {
          assert blocks[b] != block;
        }
      }
    }

    method ReadPhyMem(paddr: nat) returns (v: word, ok: bool)
      requires Valid() && paddr < 0x40_0000
      modifies Repr()
      ensures Valid() && fresh(Repr() - old(Repr()))
      ensures State() == Touch(old(State()), paddr)
      ensures ok == ReadPhys(old(State()), paddr).Some?
      ensures ok ==> v == ReadPhys(old(State()), paddr).value
    {
      var pn, offset := paddr / 0x100, paddr % 0x100;
      if phyPages[pn].None? {
        if pn < RAM_PAGES {
          var _ := AddNewPageNo(pn);
        } else {
          return 0, false;
        }
      }
      v := ReadFrame(pn, offset);
      ok := true;
    }

    method WritePhyMem(paddr: nat, v: word) returns (ok: bool)
      requires Valid() && paddr < 0x40_0000
      modifies Repr()
      ensures Valid() && fresh(Repr() - old(Repr()))
      ensures State() == WritePhys(old(State()), paddr, v)
      ensures ok == Present(old(State()), paddr)
    {
      var pn, offset := paddr / 0x100, paddr % 0x100;
      if phyPages[pn].None? {
        if pn < RAM_PAGES {
          var _ := AddNewPageNo(pn);
        } else {
          return false;
        }
      }
      WriteFrame(pn, offset, v);
      ok := true;
    }

    /** The write-map destinations. */
    method WriteMapEntries(md: word, vma: word)
      requires Valid()
      modifies Repr()
      ensures Valid() && fresh(Repr() - old(Repr()))
      ensures State() == WriteMap(old(State()), md, vma)
    {
      if (vma / 0x400_0000) % 2 == 1 {
        l1Map[VirtualPage(md) / 32] := (vma / 0x800_0000) % 32;
        InvalidateVtopCache();
      }
      assert State() == WriteL1(old(State()), md, vma);
      if (vma / 0x200_0000) % 2 == 1 {
        WriteLevel2(md, vma);
      }
    }

    method WriteLevel2(md: word, vma: word)
      requires Valid() && (vma / 0x200_0000) % 2 == 1
      modifies Repr()
      ensures Valid() && fresh(Repr() - old(Repr()))
      ensures State() == WriteL2(old(State()), md, vma)
    {
      var level1 := l1Map[VirtualPage(md) / 32] % 32;
      l2Map[level1 * 32 + VirtualPage(md) % 32] := vma;
      InvalidateVtopCache();
      var _ := AddNewPageNo(vma % 0x4000);
    }
  }
}
