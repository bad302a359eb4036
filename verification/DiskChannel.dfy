/** The Trident disk channel: addresses, command chains, and what a whole transfer
    leaves in memory and on the disk. */
module DiskChannel {
  import opened Words
  import opened Mem

  datatype Geometry = Geometry(cyls: nat, heads: nat, blocksPerTrack: nat)

  datatype Position = Position(unit: nat, cyl: nat, head: nat, block: nat)

  predicate InGeometry(g: Geometry, p: Position) {
    && p.unit < 8 && p.cyl < g.cyls <= 0x1000
    && p.head < g.heads <= 0x100 && p.block < g.blocksPerTrack <= 0x100
  }

  /** Block number on the disk image. */
  function Linear(g: Geometry, p: Position): nat {
    p.cyl * g.blocksPerTrack * g.heads + p.head * g.blocksPerTrack + p.block
  }

  function DecodeAddr(da: word): Position {
    Position((da / 0x1000_0000) % 8, (da / 0x1_0000) % 0x1000, (da / 0x100) % 0x100, da % 0x100)
  }

  function EncodeAddr(p: Position): word {
    (p.unit % 8) * 0x1000_0000 + (p.cyl % 0x1000) * 0x1_0000 + (p.head % 0x100) * 0x100 + p.block % 0x100
  }

  function IncrBlock(g: Geometry, p: Position): Position {
    if p.block + 1 < g.blocksPerTrack then p.(block := p.block + 1)
    else if p.head + 1 < g.heads then p.(block := 0, head := p.head + 1)
    else p.(block := 0, head := 0, cyl := p.cyl + 1)
  }

  /** The next position is the next block of the image. */
  lemma IncrIsNext(g: Geometry, p: Position)
    requires InGeometry(g, p)
    ensures Linear(g, IncrBlock(g, p)) == Linear(g, p) + 1
    ensures IncrBlock(g, p).cyl < g.cyls ==> InGeometry(g, IncrBlock(g, p))
    ensures IncrBlock(g, p).cyl == g.cyls ==>
              Linear(g, IncrBlock(g, p)) == g.cyls * g.blocksPerTrack * g.heads
  {
    if p.block + 1 == g.blocksPerTrack {
      var b := g.blocksPerTrack;
      assert (p.head + 1) * b == p.head * b + b;
      if p.head + 1 == g.heads {
        assert (p.cyl + 1) * b * g.heads == p.cyl * b * g.heads + b * g.heads by {
          assert (p.cyl + 1) * b == p.cyl * b + b;
          assert (p.cyl * b + b) * g.heads == p.cyl * b * g.heads + b * g.heads;
        }
        assert b * g.heads == g.heads * b;
      }
    }
  }

  /** Disk addresses in the geometry survive encoding. */
  lemma DecodeEncodes(g: Geometry, p: Position)
    requires InGeometry(g, p)
    ensures DecodeAddr(EncodeAddr(p)) == p
    ensures EncodeAddr(p) == p.unit * 0x1000_0000 + p.cyl * 0x1_0000 + p.head * 0x100 + p.block
  {
    AddressFields(p.unit, p.cyl, p.head, p.block);
  }

  /** A disk address is decoded by its fields, whatever bit 31 holds; encoding keeps what
      fits each field and leaves bit 31 clear. */
  lemma AddressLayout(top: nat, u: nat, c: nat, h: nat, b: nat, p: Position)
    requires top < 2 && u < 8 && c < 0x1000 && h < 0x100 && b < 0x100
    ensures DecodeAddr(top * 0x8000_0000 + u * 0x1000_0000 + c * 0x1_0000 + h * 0x100 + b) == Position(u, c, h, b)
    ensures DecodeAddr(EncodeAddr(p)) == Position(p.unit % 8, p.cyl % 0x1000, p.head % 0x100, p.block % 0x100)
    ensures EncodeAddr(p) < 0x8000_0000
  {
    AddressFields(u, c, h, b);
    AddressFields(p.unit % 8, p.cyl % 0x1000, p.head % 0x100, p.block % 0x100);
    var low := u * 0x1000_0000 + c * 0x1_0000 + h * 0x100 + b;
    if top == 1 { SameFields(low); }
  }

  lemma SameFields(low: nat)
    requires low < 0x8000_0000
    ensures DecodeAddr(0x8000_0000 + low) == DecodeAddr(low)
  {
    AddsAbove(low, 0x1000_0000, 8, 1);
    AddsAbove(low, 0x1_0000, 0x1000, 8);
    AddsAbove(low, 0x100, 0x100, 0x8000);
    AddsAbove(low, 1, 0x100, 0x80_0000);
  }

  /** Adding a multiple of d * m leaves the digit below it. */
  lemma AddsAbove(x: nat, d: nat, m: nat, k: nat)
    requires d > 0 && m > 0
    ensures ((x + k * m * d) / d) % m == (x / d) % m
  {
    var q := x / d;
    DivModUnique(x + k * m * d, d, q + k * m, x % d) by {
      assert x + k * m * d == (q + k * m) * d + x % d by {
        assert (q + k * m) * d == q * d + k * m * d;
      }
    }
    DivModUnique(q + k * m, m, q / m + k, q % m);
  }

  lemma AddressFields(u: nat, c: nat, h: nat, b: nat)
    requires u < 8 && c < 0x1000 && h < 0x100 && b < 0x100
    ensures u % 8 == u && c % 0x1000 == c && h % 0x100 == h && b % 0x100 == b
    ensures var da := u * 0x1000_0000 + c * 0x1_0000 + h * 0x100 + b;
            && (da / 0x1000_0000) % 8 == u && (da / 0x1_0000) % 0x1000 == c
            && (da / 0x100) % 0x100 == h && da % 0x100 == b
  {
    var da := u * 0x1000_0000 + c * 0x1_0000 + h * 0x100 + b;
    DivModUnique(da, 0x1000_0000, u, c * 0x1_0000 + h * 0x100 + b);
    DivModUnique(da, 0x1_0000, u * 0x1000 + c, h * 0x100 + b);
    DivModUnique(da, 0x100, u * 0x10_0000 + c * 0x100 + h, b);
    DivModUnique(u * 0x1000 + c, 0x1000, u, c);
    DivModUnique(u * 0x10_0000 + c * 0x100 + h, 0x100, u * 0x1000 + c, h);
  }

  // ---------------------------------------------------------------------
  // Whole pages of memory and whole blocks of the image

  const PAGES := 0x4000

  function PageData(m: Memory, pn: nat): Page
    requires pn < PAGES && Obtainable(m, pn)
  {
    var t := AddPage(m, pn);
    t.frames[t.table[pn].value]
  }

  /** The first i words of a page overwritten. */
  function PutWords(m: Memory, pn: nat, data: Page, i: nat): Memory
    requires pn < PAGES && i <= 256
  {
    if i == 0 || !Obtainable(m, pn) then m
    else
      var t := AddPage(m, pn);
      var f := t.table[pn].value;
      var page: Page := data[..i] + t.frames[f][i..];
      t.(frames := t.frames[f := page])
  }

  function PutPage(m: Memory, pn: nat, data: Page): Memory
    requires pn < PAGES
  {
    PutWords(m, pn, data, 256)
  }

  lemma PutWordsNext(m: Memory, pn: nat, data: Page, i: nat)
    requires pn < PAGES && i < 256
    ensures WritePhys(PutWords(m, pn, data, i), pn * 0x100 + i, data[i]) == PutWords(m, pn, data, i + 1)
  {
    assert (pn * 0x100 + i) / 0x100 == pn && (pn * 0x100 + i) % 0x100 == i;
    if Obtainable(m, pn) {
      var t, w := AddPage(m, pn), PutWords(m, pn, data, i);
      var f := t.table[pn].value;
      var page: Page, next: Page := data[..i] + t.frames[f][i..], data[..i + 1] + t.frames[f][i + 1..];
      assert next == page[i := data[i]];
      assert Touch(w, pn * 0x100 + i) == t.(frames := t.frames[f := page]) by {
        assert i == 0 ==> page == t.frames[f] && t.frames[f := page] == t.frames;
      }
      assert t.frames[f := page][f := next] == t.frames[f := next];
    }
  }

  /** A page overwritten holds the data; every other existing page keeps its own. */
  lemma PutPageEffect(m: Memory, pn: nat, data: Page)
    requires Mem.Invariant(m) && pn < PAGES && Obtainable(m, pn)
    ensures var m' := PutPage(m, pn, data);
            && Mem.Invariant(m') && Extends(m, m') && m'.table[pn].Some? && PageData(m', pn) == data
            && (forall q :: 0 <= q < PAGES && q != pn && m.table[q].Some? ==> PageData(m', q) == PageData(m, q))
            && (forall q :: 0 <= q < PAGES && q != pn ==> m'.table[q] == m.table[q])
  {
    var t := AddPage(m, pn);
    AddPageKeeps(m, pn);
    var f := t.table[pn].value;
    assert data[..256] + t.frames[f][256..] == data;
    forall q | 0 <= q < PAGES && q != pn && m.table[q].Some?
      ensures t.table[q] != t.table[pn]
    {
      if q < pn { assert t.table[q] != t.table[pn]; } else { assert t.table[pn] != t.table[q]; }
    }
  }

  function BlockData(image: seq<word>, b: nat): Page
    requires 256 * b + 256 <= |image|
  {
    image[256 * b..256 * b + 256]
  }

  function PutBlock(image: seq<word>, b: nat, data: Page): seq<word>
    requires 256 * b + 256 <= |image|
  {
    image[..256 * b] + data + image[256 * b + 256..]
  }

  lemma PutBlockEffect(image: seq<word>, b: nat, data: Page, b': nat)
    requires 256 * b + 256 <= |image| && 256 * b' + 256 <= |image|
    ensures |PutBlock(image, b, data)| == |image|
    ensures BlockData(PutBlock(image, b, data), b') == if b == b' then data else BlockData(image, b')
  {
    assert BlockData(PutBlock(image, b, data), b) == data;
    assert b' < b ==> BlockData(PutBlock(image, b, data), b') == BlockData(image, b');
    assert b' > b ==> BlockData(PutBlock(image, b, data), b') == BlockData(image, b');
  }

  // ---------------------------------------------------------------------
  // Command chains

  datatype Channel = Channel(mem: Memory, image: seq<word>, clp: nat, ma: word, pos: Position)

  /** Where a transfer stops, and whether it ran to its end or met a missing page
      where the next command word should be. */
  datatype Outcome = Outcome(c: Channel, finished: bool)

  predicate CcwPresent(c: Channel)
    requires c.clp < 0x40_0000
  {
    Present(c.mem, c.clp)
  }

  function Ccw(c: Channel): word
    requires c.clp < 0x40_0000 && CcwPresent(c)
  {
    ReadPhys(c.mem, c.clp).value
  }

  function CcwPage(ccw: word): nat { ccw / 0x100 }
  predicate More(ccw: word) { ccw % 2 == 1 }

  /** One command can be carried out: its word, page and block exist in the arrays
      the emulator indexes, and a page to be written out has contents. */
  predicate Feasible(g: Geometry, c: Channel, write: bool) {
    && c.clp < 0x40_0000
    && (CcwPresent(c) ==>
          && CcwPage(Ccw(c)) < PAGES && 256 * Linear(g, c.pos) + 256 <= |c.image|
          && (write ==> Obtainable(c.mem, CcwPage(Ccw(c)))))
  }

  /** One block from the disk to the page a command names. */
  function ReadOne(g: Geometry, c: Channel): Channel
    requires Feasible(g, c, false) && CcwPresent(c)
  {
    var page := CcwPage(Ccw(c));
    c.(mem := PutPage(Touch(c.mem, c.clp), page, BlockData(c.image, Linear(g, c.pos))), ma := page * 0x100)
  }

  /** One page to the disk. */
  function WriteOne(g: Geometry, c: Channel): Channel
    requires Feasible(g, c, true) && CcwPresent(c)
  {
    var page, m := CcwPage(Ccw(c)), Touch(c.mem, c.clp);
    c.(mem := AddPage(m, page), image := PutBlock(c.image, Linear(g, c.pos), PageData(m, page)), ma := page * 0x100)
  }

  function One(g: Geometry, c: Channel, write: bool): Channel
    requires Feasible(g, c, write) && CcwPresent(c)
  {
    if write then WriteOne(g, c) else ReadOne(g, c)
  }

  function NextCommand(g: Geometry, c: Channel): Channel { c.(pos := IncrBlock(g, c.pos), clp := c.clp + 1) }

  /** Every command of the chain is feasible when its turn comes. */
  predicate ChainFeasible(g: Geometry, c: Channel, write: bool, limit: nat)
    decreases limit
  {
    limit > 0 ==>
      && Feasible(g, c, write)
      && (CcwPresent(c) && More(Ccw(c)) ==>
            ChainFeasible(g, NextCommand(g, One(g, c, write)), write, limit - 1))
  }

  /** disk_start_read and disk_start_write: command after command, up to the limit. */
  function Chain(g: Geometry, c: Channel, write: bool, limit: nat): Outcome
    requires ChainFeasible(g, c, write, limit)
    decreases limit
  {
    if limit == 0 then Outcome(c, true)
    else if !CcwPresent(c) then Outcome(c, false)
    else if More(Ccw(c)) then Chain(g, NextCommand(g, One(g, c, write)), write, limit - 1)
    else Outcome(One(g, c, write), true)
  }

  /** The first command, then the rest of the chain. */
  lemma ChainUnrolls(g: Geometry, c: Channel, write: bool, limit: nat)
    requires limit > 0 && Feasible(g, c, write) && CcwPresent(c)
    ensures !More(Ccw(c)) ==>
              ChainFeasible(g, c, write, limit) && Chain(g, c, write, limit) == Outcome(One(g, c, write), true)
    ensures var next := NextCommand(g, One(g, c, write));
            More(Ccw(c)) && ChainFeasible(g, next, write, limit - 1) ==>
              && ChainFeasible(g, c, write, limit)
              && Chain(g, c, write, limit) == Chain(g, next, write, limit - 1)
  {
    hide One, NextCommand, Ccw, CcwPresent, More;
  }

  // ---------------------------------------------------------------------
  // A chain in memory

  /** At clp stands a chain naming these pages: all words present, all but the
      last asking for more. */
  ghost predicate ChainIn(m: Memory, clp: nat, pages: seq<nat>) {
    && pages != [] && clp + |pages| <= 0x40_0000
    && (forall i :: 0 <= i < |pages| ==> CommandIn(m, clp + i, pages[i], i + 1 < |pages|))
  }

  ghost predicate CommandIn(m: Memory, clp: nat, page: nat, more: bool) {
    && clp < 0x40_0000 && m.table[clp / 0x100].Some?
    && CommandWord(ReadPhys(m, clp).value, page, more)
  }

  /** A command word: the page number from bit 8 up, and bit 0 set if another follows. */
  predicate CommandWord(w: word, page: nat, more: bool) {
    w / 0x100 == page && w % 2 == if more then 1 else 0
  }

  /** The pages exist or can be created, are distinct, and hold no chain word. */
  ghost predicate Targets(m: Memory, clp: nat, pages: seq<nat>) {
    && (forall i :: 0 <= i < |pages| ==> pages[i] < PAGES && Obtainable(m, pages[i]))
    && (forall i, j :: 0 <= i < j < |pages| ==> pages[i] != pages[j])
    && (forall i :: 0 <= i < |pages| ==> OffChain(pages[i], clp, |pages|))
  }

  /** The page holds none of the n chain words at clp. */
  predicate OffChain(pn: nat, clp: nat, n: nat)
    requires n > 0
  {
    pn < clp / 0x100 || (clp + n - 1) / 0x100 < pn
  }

  /** The blocks from a position on are in the geometry and on the image. */
  ghost predicate BlocksIn(g: Geometry, p: Position, n: nat, image: seq<word>) {
    && n > 0 && InGeometry(g, p)
    && Linear(g, p) + n <= g.cyls * g.blocksPerTrack * g.heads
    && 256 * (Linear(g, p) + n) <= |image|
  }

  /** A page put elsewhere leaves chain words alone. */
  lemma CommandStays(m: Memory, clp: nat, page: nat, more: bool, pn: nat, data: Page)
    requires Mem.Invariant(m) && CommandIn(m, clp, page, more)
    requires pn < PAGES && Obtainable(m, pn) && pn != clp / 0x100
    ensures CommandIn(PutPage(m, pn, data), clp, page, more)
  {
    PutPageEffect(m, pn, data);
    ReadIsPageWord(m, clp);
    ReadIsPageWord(PutPage(m, pn, data), clp);
    hide PutPage, PageData, Mem.Invariant;
  }

  lemma ReadIsPageWord(m: Memory, paddr: nat)
    requires paddr < 0x40_0000 && m.table[paddr / 0x100].Some?
    ensures ReadPhys(m, paddr) == Some(PageData(m, paddr / 0x100)[paddr % 0x100])
    ensures Touch(m, paddr) == m && Present(m, paddr)
  {
  }

  /** One read: the block lands in the page; chain, other pages and image stay. */
  lemma ReadOneEffect(g: Geometry, c: Channel, pages: seq<nat>)
    requires Mem.Invariant(c.mem) && ChainIn(c.mem, c.clp, pages) && Targets(c.mem, c.clp, pages)
    requires BlocksIn(g, c.pos, |pages|, c.image)
    ensures pages != [] && Feasible(g, c, false) && CcwPresent(c) && More(Ccw(c)) == (|pages| > 1)
    ensures var c' := ReadOne(g, c);
            && c' == c.(mem := PutPage(c.mem, pages[0], BlockData(c.image, Linear(g, c.pos))), ma := pages[0] * 0x100)
            && Mem.Invariant(c'.mem)
            && (|pages| > 1 ==> ChainIn(c'.mem, c.clp + 1, pages[1..]) && Targets(c'.mem, c.clp + 1, pages[1..]))
  {
    assert CommandIn(c.mem, c.clp + 0, pages[0], 0 + 1 < |pages|);
    ReadIsPageWord(c.mem, c.clp);
    var data := BlockData(c.image, Linear(g, c.pos));
    PutPageEffect(c.mem, pages[0], data);
    var m' := PutPage(c.mem, pages[0], data);
    hide PutPage, Mem.Invariant, ReadPhys;
    if |pages| > 1 {
      forall i | 0 <= i < |pages| - 1
        ensures CommandIn(m', c.clp + 1 + i, pages[1..][i], i + 1 < |pages[1..]|)
      {
        assert CommandIn(c.mem, c.clp + (i + 1), pages[i + 1], i + 2 < |pages|);
        assert OffChain(pages[0], c.clp, |pages|);
        CommandStays(c.mem, c.clp + (i + 1), pages[i + 1], i + 2 < |pages|, pages[0], data);
      }
      TargetsShift(c.mem, m', c.clp, pages);
    }
  }

  lemma TargetsShift(m: Memory, m': Memory, clp: nat, pages: seq<nat>)
    requires |pages| > 1 && Targets(m, clp, pages)
    requires forall q :: 0 <= q < PAGES && Obtainable(m, q) ==> Obtainable(m', q)
    ensures Targets(m', clp + 1, pages[1..])
  {
    forall i | 0 <= i < |pages| - 1 ensures OffChain(pages[1..][i], clp + 1, |pages| - 1) {
      assert OffChain(pages[i + 1], clp, |pages|);
    }
  }

  /** What a read of n blocks into n pages must leave: each page its block, every
      other existing page as it was. */
  ghost predicate Copied(m: Memory, m': Memory, pages: seq<nat>, image: seq<word>, s: nat) {
    && 256 * (s + |pages|) <= |image| && Extends(m, m')
    && (forall i :: 0 <= i < |pages| ==> pages[i] < PAGES && m'.table[pages[i]].Some?
                                         && PageData(m', pages[i]) == BlockData(image, s + i))
    && (forall q :: 0 <= q < PAGES && m.table[q].Some? && q !in pages ==> PageData(m', q) == PageData(m, q))
  }

  lemma BlocksNext(g: Geometry, p: Position, n: nat, image: seq<word>)
    requires BlocksIn(g, p, n, image) && n > 1
    ensures BlocksIn(g, IncrBlock(g, p), n - 1, image)
    ensures Linear(g, IncrBlock(g, p)) == Linear(g, p) + 1
  {
    IncrIsNext(g, p);
    hide Linear;
  }

  /** A completed transfer: last command, last block, image and memory as given. */
  ghost predicate Ends(g: Geometry, c: Channel, n: nat, o: Outcome) {
    && o.finished && o.c.clp == c.clp + n - 1
    && InGeometry(g, o.c.pos) && Linear(g, o.c.pos) == Linear(g, c.pos) + n - 1
    && Mem.Invariant(o.c.mem) && |o.c.image| == |c.image|
  }

  /** The disk address a completed transfer leaves names its last block. */
  lemma LastBlockInDa(g: Geometry, c: Channel, n: nat, o: Outcome)
    requires Ends(g, c, n, o)
    ensures Linear(g, DecodeAddr(EncodeAddr(o.c.pos))) == Linear(g, c.pos) + n - 1
  {
    DecodeEncodes(g, o.c.pos);
    hide Linear, DecodeAddr, EncodeAddr;
  }

  lemma EndsShift(g: Geometry, c: Channel, c1: Channel, n: nat, o: Outcome)
    requires n > 1 && Ends(g, c1, n - 1, o) && c1.clp == c.clp + 1 && |c1.image| == |c.image|
    requires Linear(g, c1.pos) == Linear(g, c.pos) + 1
    ensures Ends(g, c, n, o)
  {
    hide Linear, InGeometry, Mem.Invariant;
  }

  /** A disk read over a chain of n commands copies the n blocks from the starting
      position into the named pages and changes nothing else; the chain pointer
      stops on the last command and the position on the last block. */
  lemma {:induction false} ReadCopies(g: Geometry, c: Channel, pages: seq<nat>, limit: nat)
    requires Mem.Invariant(c.mem) && ChainIn(c.mem, c.clp, pages) && Targets(c.mem, c.clp, pages)
    requires BlocksIn(g, c.pos, |pages|, c.image) && |pages| <= limit
    ensures ChainFeasible(g, c, false, limit)
    ensures var o := Chain(g, c, false, limit);
            && Ends(g, c, |pages|, o) && o.c.image == c.image
            && Copied(c.mem, o.c.mem, pages, c.image, Linear(g, c.pos))
    decreases |pages|
  {
    hide ChainIn, Ccw, CcwPresent, More, Copied, Targets, Feasible, Chain, ChainFeasible, Mem.Invariant, BlocksIn, PutPage;
    ReadOneEffect(g, c, pages);
    var c1 := ReadOne(g, c);
    assert One(g, c, false) == c1;
    hide ReadOne, One;
    FirstCopied(g, c, pages, c1);
    ChainUnrolls(g, c, false, limit);
    if |pages| > 1 {
      hide Ends;
      BlocksNext(g, c.pos, |pages|, c.image);
      var next := NextCommand(g, c1);
      ReadCopies(g, next, pages[1..], limit - 1);
      var o := Chain(g, next, false, limit - 1);
      hide Linear;
      CopiedAlso(c.mem, c1.mem, o.c.mem, pages, c.image, Linear(g, c.pos));
      EndsShift(g, c, next, |pages|, o);
    } else {
      assert pages == [pages[0]];
      InGeometryOf(g, c.pos, c.image);
      hide Linear;
    }
  }

  lemma InGeometryOf(g: Geometry, p: Position, image: seq<word>)
    requires BlocksIn(g, p, 1, image)
    ensures InGeometry(g, p)
  {
  }

  lemma FirstCopied(g: Geometry, c: Channel, pages: seq<nat>, c1: Channel)
    requires Mem.Invariant(c.mem) && pages != [] && Targets(c.mem, c.clp, pages)
    requires BlocksIn(g, c.pos, |pages|, c.image)
    requires c1.mem == PutPage(c.mem, pages[0], BlockData(c.image, Linear(g, c.pos)))
    ensures Copied(c.mem, c1.mem, [pages[0]], c.image, Linear(g, c.pos))
    ensures forall i :: 1 <= i < |pages| ==> pages[0] != pages[i]
  {
    PutPageEffect(c.mem, pages[0], BlockData(c.image, Linear(g, c.pos)));
    hide PutPage, PageData, BlockData, Linear, Mem.Invariant;
  }

  lemma CopiedAlso(m: Memory, m1: Memory, m2: Memory, pages: seq<nat>, image: seq<word>, s: nat)
    requires |pages| > 1 && forall i :: 1 <= i < |pages| ==> pages[0] != pages[i]
    requires Copied(m, m1, [pages[0]], image, s)
    requires Copied(m1, m2, pages[1..], image, s + 1)
    ensures Copied(m, m2, pages, image, s)
  {
    hide PageData, BlockData;
    forall i | 0 <= i < |pages|
      ensures pages[i] < PAGES && m2.table[pages[i]].Some? && PageData(m2, pages[i]) == BlockData(image, s + i)
    {
      if i == 0 {
        assert pages[0] !in pages[1..];
        assert [pages[0]][0] == pages[0];
      } else {
        assert pages[1..][i - 1] == pages[i];
        assert PageData(m2, pages[1..][i - 1]) == BlockData(image, (s + 1) + (i - 1));
      }
    }
    forall q | 0 <= q < PAGES && m.table[q].Some? && q !in pages ensures PageData(m2, q) == PageData(m, q) {
      assert q !in pages[1..] && q != pages[0];
    }
  }

  // ---------------------------------------------------------------------
  // Writing, and reading back

  ghost predicate Sources(m: Memory, pages: seq<nat>) {
    forall i :: 0 <= i < |pages| ==> pages[i] < PAGES && Obtainable(m, pages[i])
  }

  /** Memory keeps the words of every page it had; pages may have been created. */
  ghost predicate SameWords(m: Memory, m': Memory) {
    Extends(m, m') && forall q :: 0 <= q < PAGES && m.table[q].Some? ==> PageData(m', q) == PageData(m, q)
  }

  /** What a write of n pages must leave: each block its page, every other block as
      it was. */
  ghost predicate Written(m: Memory, image: seq<word>, image': seq<word>, pages: seq<nat>, s: nat) {
    && |image'| == |image| && 256 * (s + |pages|) <= |image|
    && (forall i :: 0 <= i < |pages| ==> pages[i] < PAGES && m.table[pages[i]].Some?
                                         && BlockData(image', s + i) == PageData(m, pages[i]))
    && (forall b: nat :: 256 * b + 256 <= |image| && !(s <= b < s + |pages|) ==>
          BlockData(image', b) == BlockData(image, b))
  }

  lemma AddPageSame(m: Memory, pn: nat)
    requires Mem.Invariant(m) && pn < PAGES
    ensures Mem.Invariant(AddPage(m, pn)) && SameWords(m, AddPage(m, pn))
  {
    AddPageKeeps(m, pn);
  }

  lemma CommandStaysSame(m: Memory, m': Memory, clp: nat, page: nat, more: bool)
    requires CommandIn(m, clp, page, more) && SameWords(m, m')
    ensures CommandIn(m', clp, page, more)
  {
    ReadIsPageWord(m, clp);
    ReadIsPageWord(m', clp);
    hide PageData;
  }

  lemma WriteOneEffect(g: Geometry, c: Channel, pages: seq<nat>)
    requires Mem.Invariant(c.mem) && ChainIn(c.mem, c.clp, pages) && Sources(c.mem, pages)
    requires BlocksIn(g, c.pos, |pages|, c.image)
    ensures pages != [] && Feasible(g, c, true) && CcwPresent(c) && More(Ccw(c)) == (|pages| > 1)
    ensures var c' := WriteOne(g, c);
            && c' == c.(mem := AddPage(c.mem, pages[0]), ma := pages[0] * 0x100,
                        image := PutBlock(c.image, Linear(g, c.pos), PageData(c.mem, pages[0])))
            && Mem.Invariant(c'.mem) && SameWords(c.mem, c'.mem)
            && (|pages| > 1 ==> ChainIn(c'.mem, c.clp + 1, pages[1..]) && Sources(c'.mem, pages[1..]))
  {
    assert CommandIn(c.mem, c.clp + 0, pages[0], 0 + 1 < |pages|);
    ReadIsPageWord(c.mem, c.clp);
    AddPageSame(c.mem, pages[0]);
    var m' := AddPage(c.mem, pages[0]);
    hide Mem.Invariant, ReadPhys, PutBlock, PageData;
    if |pages| > 1 {
      forall i | 0 <= i < |pages| - 1
        ensures CommandIn(m', c.clp + 1 + i, pages[1..][i], i + 1 < |pages[1..]|)
      {
        assert CommandIn(c.mem, c.clp + (i + 1), pages[i + 1], i + 2 < |pages|);
        CommandStaysSame(c.mem, m', c.clp + (i + 1), pages[i + 1], i + 2 < |pages|);
      }
    }
  }

  lemma FirstWritten(c: Channel, pages: seq<nat>, m1: Memory, image1: seq<word>, s: nat)
    requires pages != [] && pages[0] < PAGES && Obtainable(c.mem, pages[0]) && 256 * s + 256 <= |c.image|
    requires m1 == AddPage(c.mem, pages[0]) && image1 == PutBlock(c.image, s, PageData(c.mem, pages[0]))
    ensures Written(m1, c.image, image1, [pages[0]], s)
  {
    assert PageData(m1, pages[0]) == PageData(c.mem, pages[0]);
    PutBlockEffect(c.image, s, PageData(c.mem, pages[0]), s);
    forall b: nat | 256 * b + 256 <= |c.image| && b != s ensures BlockData(image1, b) == BlockData(c.image, b) {
      PutBlockEffect(c.image, s, PageData(c.mem, pages[0]), b);
    }
    hide PutBlock, BlockData, PageData;
  }

  lemma WrittenAlso(m1: Memory, m2: Memory, image: seq<word>, image1: seq<word>, image2: seq<word>, pages: seq<nat>, s: nat)
    requires |pages| > 1 && 256 * (s + |pages|) <= |image|
    requires Written(m1, image, image1, [pages[0]], s) && SameWords(m1, m2)
    requires Written(m2, image1, image2, pages[1..], s + 1)
    ensures Written(m2, image, image2, pages, s)
  {
    hide PageData, BlockData;
    forall i | 0 <= i < |pages|
      ensures pages[i] < PAGES && m2.table[pages[i]].Some? && BlockData(image2, s + i) == PageData(m2, pages[i])
    {
      if i == 0 {
        assert [pages[0]][0] == pages[0];
        assert BlockData(image1, s + 0) == PageData(m1, pages[0]);
        assert BlockData(image2, s) == BlockData(image1, s);
      } else {
        assert pages[1..][i - 1] == pages[i];
        assert BlockData(image2, (s + 1) + (i - 1)) == PageData(m2, pages[i]);
      }
    }
  }

  lemma SameWordsAlso(m: Memory, m1: Memory, m2: Memory)
    requires SameWords(m, m1) && SameWords(m1, m2)
    ensures SameWords(m, m2)
  {
    hide PageData;
  }

  /** A disk write over a chain of n commands copies the named pages to the n blocks
      from the starting position; other blocks and all memory words stay. */
  lemma {:induction false} WriteCopies(g: Geometry, c: Channel, pages: seq<nat>, limit: nat)
    requires Mem.Invariant(c.mem) && ChainIn(c.mem, c.clp, pages) && Sources(c.mem, pages)
    requires BlocksIn(g, c.pos, |pages|, c.image) && |pages| <= limit
    ensures ChainFeasible(g, c, true, limit)
    ensures var o := Chain(g, c, true, limit);
            && Ends(g, c, |pages|, o) && SameWords(c.mem, o.c.mem)
            && Written(o.c.mem, c.image, o.c.image, pages, Linear(g, c.pos))
    decreases |pages|
  {
    hide ChainIn, Ccw, CcwPresent, More, Written, SameWords, Feasible, Chain, ChainFeasible, Mem.Invariant, PutBlock;
    WriteOneEffect(g, c, pages);
    var c1 := WriteOne(g, c);
    assert One(g, c, true) == c1;
    hide WriteOne, One;
    FirstWritten(c, pages, c1.mem, c1.image, Linear(g, c.pos));
    PutBlockEffect(c.image, Linear(g, c.pos), PageData(c.mem, pages[0]), Linear(g, c.pos));
    hide BlocksIn, Sources, PageData, BlockData, AddPage;
    ChainUnrolls(g, c, true, limit);
    if |pages| > 1 {
      hide Ends;
      BlocksNext(g, c.pos, |pages|, c.image);
      BlocksRoom(g, c.pos, |pages|, c.image, c1.image);
      var next := NextCommand(g, c1);
      WriteCopies(g, next, pages[1..], limit - 1);
      var o := Chain(g, next, true, limit - 1);
      hide Linear;
      WrittenAlso(c1.mem, o.c.mem, c.image, c1.image, o.c.image, pages, Linear(g, c.pos));
      SameWordsAlso(c.mem, c1.mem, o.c.mem);
      EndsShift(g, c, next, |pages|, o);
    } else {
      assert pages == [pages[0]];
      InGeometryOf(g, c.pos, c.image);
      hide Linear;
    }
  }

  lemma BlocksRoom(g: Geometry, p: Position, n: nat, image: seq<word>, image': seq<word>)
    requires BlocksIn(g, p, n, image) && |image'| == |image| && n > 1
    ensures 256 * (Linear(g, p) + n) <= |image|
    ensures BlocksIn(g, IncrBlock(g, p), n - 1, image')
  {
    BlocksNext(g, p, n, image);
  }

  /** What a write leaves of another chain and its targets. */
  lemma ChainStays(m: Memory, m': Memory, clp: nat, pages: seq<nat>)
    requires ChainIn(m, clp, pages) && Targets(m, clp, pages) && SameWords(m, m')
    ensures ChainIn(m', clp, pages) && Targets(m', clp, pages)
  {
    hide SameWords, CommandIn, OffChain;
    forall i | 0 <= i < |pages| ensures CommandIn(m', clp + i, pages[i], i + 1 < |pages|) {
      CommandStaysSame(m, m', clp + i, pages[i], i + 1 < |pages|);
    }
    StillObtainable(m, m');
  }

  lemma StillObtainable(m: Memory, m': Memory)
    requires SameWords(m, m')
    ensures forall q :: 0 <= q < PAGES && Obtainable(m, q) ==> Obtainable(m', q)
  {
    hide PageData;
  }

  /** Every page of `to` holds what the same page of `from` did. */
  ghost predicate Alike(m: Memory, from: seq<nat>, m': Memory, to: seq<nat>) {
    && |from| == |to|
    && forall i :: 0 <= i < |to| ==>
         && from[i] < PAGES && to[i] < PAGES && Obtainable(m, from[i]) && Obtainable(m', to[i])
         && PageData(m', to[i]) == PageData(m, from[i])
  }

  /** Writing pages over one chain and reading the same blocks over another, into pages
      that hold neither chain, copies the pages: each holds what the written one holds
      after the write, and held before it if it existed. */
  lemma WriteThenRead(g: Geometry, c: Channel, from: seq<nat>, to: seq<nat>, clp: nat, limit: nat)
    requires Mem.Invariant(c.mem) && ChainIn(c.mem, c.clp, from) && Sources(c.mem, from)
    requires ChainIn(c.mem, clp, to) && Targets(c.mem, clp, to)
    requires BlocksIn(g, c.pos, |from|, c.image) && |from| == |to| <= limit
    ensures ChainFeasible(g, c, true, limit)
    ensures var w := Chain(g, c, true, limit).c;
            var back := w.(clp := clp, pos := c.pos);
            && ChainFeasible(g, back, false, limit)
            && Alike(w.mem, from, Chain(g, back, false, limit).c.mem, to)
            && forall i :: 0 <= i < |from| && c.mem.table[from[i]].Some?
                 ==> PageData(w.mem, from[i]) == PageData(c.mem, from[i])
  {
    WriteCopies(g, c, from, limit);
    var w := Chain(g, c, true, limit).c;
    var back := w.(clp := clp, pos := c.pos);
    ChainStays(c.mem, w.mem, clp, to);
    assert BlocksIn(g, back.pos, |to|, back.image);
    ReadCopies(g, back, to, limit);
    hide Chain, ChainFeasible, Targets, ChainIn, PageData, BlockData, Linear, Mem.Invariant, BlocksIn;
  }
}
