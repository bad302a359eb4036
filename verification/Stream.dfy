/** The macroinstruction stream in 16-bit mode: what advancing the location
    counter selects, halfword after halfword. */
module Stream {
  import opened Words
  import opened Mem
  import opened MicroWord
  import opened Cpu
  import opened Pipeline
  import opened Sequencing
  import ByteUnit

  /** Halfword h of virtual memory, the low half of a word first. */
  function Halfword(s: State, h: nat, io: Devices): nat
    requires h / 2 < 0x1_0000_0000
  {
    var w := ReadMem(s, h / 2, io).value;
    if h % 2 == 1 then w / 0x1_0000 else w % 0x1_0000
  }

  /** A BYTE instruction that loads sixteen bits of MD into M memory, its position
      coming from the location counter, with instruction position 0. */
  predicate StreamLoad(u: nat) {
    && Op(u) == OP_BYTE && Misc(u) == 3 && u % 32 == 0
    && ByteFunc(u) == ByteUnit.LDB && WidthM1(u) == 15 && MSrc(u) == 42 && Dest(u) < 32
  }

  /** What the stream needs of the registers. */
  predicate SameRegisters(s: State, t: State) {
    && t.ctl.lc == s.ctl.lc && t.ctl.interruptControl == s.ctl.interruptControl
    && t.bus.md == s.bus.md && t.bus.newMd == s.bus.newMd && t.bus.newMdDelay == s.bus.newMdDelay
  }

  /** The words lo..hi-1 of virtual memory read the same. */
  ghost predicate SameWords(s: State, t: State, lo: nat, hi: nat, io: Devices) {
    forall va: word :: lo <= va < hi ==> ReadMem(t, va, io).value == ReadMem(s, va, io).value
  }

  /** A cycle that leaves the location counter, MD and the stream's words alone, but
      for a word on its way to MD. */
  ghost predicate Quiet(t: State, t': State, lo: nat, hi: nat, io: Devices) {
    SameRegisters(Arrived(t), t') && SameWords(t, t', lo, hi, io)
  }

  /** A cycle that advances the location counter, whatever else it does. */
  ghost predicate Moves(t: State, t': State, lo: nat, hi: nat, io: Devices) {
    SameRegisters(AdvanceLc(Arrived(t), io).s, t') && SameWords(t, t', lo, hi, io)
  }

  /** The location counter: flags in bits 30-26, halfword number h and a zero below,
      NEED-FETCH on top. */
  predicate CounterAt(lc: word, flags: nat, h: nat, need: bool) {
    && flags < 32 && h < 0x200_0000
    && lc == flags * 0x400_0000 + 2 * h + (if need then NEED_FETCH else 0)
  }

  /** The halfword the counter is set to by writing l. */
  function FirstHalfword(l: word): (h: nat)
    ensures h < 0x200_0000
  {
    (l % 0x400_0000) / 2
  }

  function FlagsOf(lc: word): nat { (lc / 0x400_0000) % 32 }

  lemma CounterStarts(lc: word, l: word)
    ensures CounterAt(LcWritten(lc, l, false), FlagsOf(lc), FirstHalfword(l), true)
  {
    var high := lc / 0x400_0000;
    assert lc - lc % 0x400_0000 == high * 0x400_0000;
    assert high < 64;
  }

  lemma CounterSteps(lc: word, flags: nat, h: nat, need: bool)
    requires CounterAt(lc, flags, h, need) && h + 1 < 0x200_0000
    ensures var c := StepCounter(lc, false);
            c.at == 2 * h && c.need == need && CounterAt(c.lc, flags, h + 1, (h + 1) % 2 == 0)
  {
    var plain := flags * 0x400_0000 + 2 * (h + 1);
    assert plain / 2 == 2 * (flags * 0x100_0000) + (h + 1);
    DivModUnique(lc, 0x400_0000, if need then flags + 32 else flags, 2 * h);
  }

  lemma CounterBit(lc: word, flags: nat, h: nat, need: bool)
    requires CounterAt(lc, flags, h, need)
    ensures (lc / 2) % 2 == h % 2
  {
    assert lc / 2 == 2 * (flags * 0x100_0000 + (if need then 0x2000_0000 else 0)) + h;
  }

  /** MD holds w, or will when the read under way is finished. */
  predicate Holding(t: State, w: word) {
    if t.bus.newMdDelay == 0 then t.bus.md == w else t.bus.newMd == w
  }

  /** Between advances, at halfword h: its word still to be fetched when h starts
      a word, MD holding the word of the previous halfword once one was read. */
  ghost predicate Streaming(s: State, t: State, flags: nat, h: nat, start: bool, lo: nat, hi: nat, io: Devices) {
    && !ByteMode(t) && SameWords(s, t, lo, hi, io)
    && CounterAt(t.ctl.lc, flags, h, start || h % 2 == 0)
    && (!start ==> h >= 1 && Holding(t, ReadMem(s, (h - 1) / 2, io).value))
  }

  lemma ReadShape(s: State, va: word, io: Devices)
    ensures ReadMem(s, va, io).s.ctl == s.ctl && ReadMem(s, va, io).s.bus.md == s.bus.md
  {
    hide Entry, NoteWalk, FrameWord;
  }

  lemma SameReads(s: State, s': State, va: word, io: Devices)
    requires s'.mem == s.mem
    ensures ReadMem(s', va, io).value == ReadMem(s, va, io).value
  {
    hide Entry, NoteWalk;
  }

  /** An advance does to the registers what the counter says. */
  lemma AdvanceShape(t: State, io: Devices)
    requires !ByteMode(t)
    ensures var t', c := AdvanceLc(t, io).s, StepCounter(t.ctl.lc, false);
            && AdvanceLc(t, io).fetched == c.need && t'.ctl == t.ctl.(lc := c.lc)
            && (c.need ==> t'.bus.newMdDelay == 2 && t'.bus.newMd == ReadMem(t, c.at / 4, io).value)
            && (!c.need ==> t'.bus == t.bus)
  {
    var c := StepCounter(t.ctl.lc, false);
    var s1 := t.(ctl := t.ctl.(lc := c.lc));
    var s2 := s1.(bus := s1.bus.(vma := c.at / 4));
    ReadShape(s2, c.at / 4, io);
    SameReads(t, s2, c.at / 4, io);
    hide StepCounter, ReadMem;
  }

  lemma ArrivedShape(t: State)
    ensures Arrived(t).ctl == t.ctl && Arrived(t).mem == t.mem
    ensures forall w: word :: Holding(t, w) ==> Holding(Arrived(t), w)
  {
  }

  /** A quiet cycle keeps the stream where it is. */
  lemma QuietStreams(s: State, t: State, t': State, flags: nat, h: nat, start: bool, lo: nat, hi: nat, io: Devices)
    requires Streaming(s, t, flags, h, start, lo, hi, io) && Quiet(t, t', lo, hi, io)
    ensures Streaming(s, t', flags, h, start, lo, hi, io)
  {
    ArrivedShape(t);
    hide ReadMem, Arrived, CounterAt;
  }

  /** An advance fetches just when NEED-FETCH was set, and moves on a halfword. */
  lemma AdvanceStreams(s: State, t: State, t': State, flags: nat, h: nat, start: bool, lo: nat, hi: nat, io: Devices)
    requires Streaming(s, t, flags, h, start, lo, hi, io) && Moves(t, t', lo, hi, io)
    requires lo <= h / 2 < hi && h + 1 < 0x200_0000
    ensures Streaming(s, t', flags, h + 1, false, lo, hi, io)
    ensures AdvanceLc(Arrived(t), io).fetched <==> start || h % 2 == 0
  {
    hide ReadMem, StepCounter, Arrived, AdvanceLc;
    ArrivedShape(t);
    var t1 := Arrived(t);
    AdvanceShape(t1, io);
    CounterSteps(t1.ctl.lc, flags, h, start || h % 2 == 0);
    hide CounterAt;
    assert (2 * h) / 4 == h / 2;
    SameReads(t, t1, h / 2, io);
    assert ReadMem(t1, h / 2, io).value == ReadMem(s, h / 2, io).value;
  }

  /** The location counter has just been written with l, over lc. */
  predicate Written(t: State, lc: word, l: word) { !ByteMode(t) && t.ctl.lc == LcWritten(lc, l, false) }

  /** Writing l to the location counter starts the stream at halfword l/2. */
  lemma StreamStarts(t: State, lc: word, l: word, lo: nat, hi: nat, io: Devices)
    requires Written(t, lc, l)
    ensures Streaming(t, t, FlagsOf(lc), FirstHalfword(l), true, lo, hi, io)
  {
    CounterStarts(lc, l);
    hide LcWritten, CounterAt, ReadMem, FirstHalfword;
  }

  // ---------------------------------------------------------------------
  // Runs

  /** Every cycle of the run is quiet or advances, with the same devices. */
  ghost predicate StreamRun(m: Machine, ins: seq<Input>, lo: nat, hi: nat, io: Devices)
    requires RunReady(m, ins)
    decreases |ins|
  {
    ins == [] ||
      var m' := Step(m, ins[0]);
      && (Quiet(m.s, m'.s, lo, hi, io) || Moves(m.s, m'.s, lo, hi, io))
      && StreamRun(m', ins[1..], lo, hi, io)
  }

  /** How many cycles advance. */
  ghost function Advances(m: Machine, ins: seq<Input>, lo: nat, hi: nat, io: Devices): nat
    requires RunReady(m, ins)
    decreases |ins|
  {
    if ins == [] then 0
    else
      var m' := Step(m, ins[0]);
      (if Quiet(m.s, m'.s, lo, hi, io) then 0 else 1) + Advances(m', ins[1..], lo, hi, io)
  }

  /** The words of halfwords h to h+k-1 lie in lo..hi-1, and the counter does not
      overflow. */
  predicate Within(h: nat, k: nat, lo: nat, hi: nat) {
    lo <= h / 2 && h + k < 0x200_0000 && (k > 0 ==> (h + k - 1) / 2 < hi)
  }

  lemma WithinFirst(h: nat, k: nat, lo: nat, hi: nat)
    requires Within(h, k, lo, hi) && k > 0
    ensures lo <= h / 2 < hi && h + 1 < 0x200_0000 && Within(h + 1, k - 1, lo, hi)
  {
  }

  lemma WithinLast(h: nat, k: nat, lo: nat, hi: nat)
    requires Within(h, k + 1, lo, hi)
    ensures lo <= (h + k) / 2 < hi && h + k + 1 < 0x200_0000
  {
  }

  /** After a run with k advances the stream is k halfwords on. */
  lemma {:induction false} RunStreams(s: State, m: Machine, ins: seq<Input>, flags: nat, h: nat, start: bool,
                                      lo: nat, hi: nat, io: Devices)
    requires Streaming(s, m.s, flags, h, start, lo, hi, io)
    requires RunReady(m, ins) && StreamRun(m, ins, lo, hi, io) && Within(h, Advances(m, ins, lo, hi, io), lo, hi)
    ensures var k := Advances(m, ins, lo, hi, io);
            Streaming(s, Run(m, ins).s, flags, h + k, start && k == 0, lo, hi, io)
    decreases |ins|
  {
    hide Streaming, Quiet, Moves, Step, Ready, Within;
    if ins != [] {
      var m' := Step(m, ins[0]);
      if Quiet(m.s, m'.s, lo, hi, io) {
        QuietStreams(s, m.s, m'.s, flags, h, start, lo, hi, io);
        RunStreams(s, m', ins[1..], flags, h, start, lo, hi, io);
      } else {
        WithinFirst(h, Advances(m, ins, lo, hi, io), lo, hi);
        AdvanceStreams(s, m.s, m'.s, flags, h, start, lo, hi, io);
        RunStreams(s, m', ins[1..], flags, h + 1, false, lo, hi, io);
      }
    }
  }

  /** The location counter of m has just been written with l, whose halfword is h; in
      the run it then only advances, k times, over words lo..hi-1, and MD and these
      words are left alone. */
  ghost predicate Underway(lc: word, l: word, m: Machine, ins: seq<Input>, h: nat, k: nat,
                           lo: nat, hi: nat, io: Devices)
    requires RunReady(m, ins)
  {
    && Written(m.s, lc, l) && StreamRun(m, ins, lo, hi, io)
    && h == FirstHalfword(l) && k == Advances(m, ins, lo, hi, io) && Within(h, k, lo, hi)
  }

  lemma UnderwayStreams(lc: word, l: word, m: Machine, ins: seq<Input>, h: nat, k: nat, lo: nat, hi: nat, io: Devices)
    requires RunReady(m, ins) && Underway(lc, l, m, ins, h, k, lo, hi, io)
    ensures Streaming(m.s, Run(m, ins).s, FlagsOf(lc), h + k, k == 0, lo, hi, io)
  {
    hide Written, StreamRun, FirstHalfword, Advances, Within, Streaming, Run, RunReady, FlagsOf;
    StreamStarts(m.s, lc, l, lo, hi, io);
    RunStreams(m.s, m, ins, FlagsOf(lc), h, true, lo, hi, io);
  }

  /** In such a run, a cycle that executes a stream load after the k-th advance, k >= 1,
      loads exactly halfword l/2 + k - 1, once its word has arrived: two cycles after
      the advance if that fetched it. */
  lemma StreamSelects(lc: word, l: word, m: Machine, ins: seq<Input>, load: Input, h: nat, k: nat,
                      lo: nat, hi: nat, io: Devices)
    requires RunReady(m, ins) && Underway(lc, l, m, ins, h, k, lo, hi, io) && 1 <= k && h + k < 0x200_0000
    requires Ready(Run(m, ins)) && StreamLoad(Instruction(Run(m, ins))) && Run(m, ins).s.bus.newMdDelay <= 1
    ensures Loads(Run(m, ins), load, Halfword(m.s, h + k - 1, io))
  {
    hide *;
    UnderwayStreams(lc, l, m, ins, h, k, lo, hi, io);
    LoadSelects(m.s, Run(m, ins), load, FlagsOf(lc), h + k - 1, lo, hi, io);
  }

  /** The cycle leaves halfword v in its M-memory destination, under its A source's upper
      half. */
  ghost predicate Loads(m: Machine, inp: Input, v: nat)
    requires Ready(m) && StreamLoad(Instruction(m))
  {
    var u := Instruction(m);
    var a := m.s.pads.aMem[ASrc(u)];
    Step(m, inp).s.pads.mMem[Dest(u)] == a - a % 0x1_0000 + v
  }

  /** The advance that moves past halfword h + k fetches a word if and only if it is the
      first, or that is the first halfword of its word. */
  lemma FetchesIff(lc: word, l: word, m: Machine, ins: seq<Input>, t': State, h: nat, k: nat,
                   lo: nat, hi: nat, io: Devices)
    requires RunReady(m, ins) && Underway(lc, l, m, ins, h, k, lo, hi, io)
    requires Moves(Run(m, ins).s, t', lo, hi, io) && Within(h, k + 1, lo, hi)
    ensures AdvanceLc(Arrived(Run(m, ins).s), io).fetched <==> k == 0 || (h + k) % 2 == 0
  {
    hide *;
    UnderwayStreams(lc, l, m, ins, h, k, lo, hi, io);
    WithinLast(h, k, lo, hi);
    AdvanceStreams(m.s, Run(m, ins).s, t', FlagsOf(lc), h + k, k == 0, lo, hi, io);
  }

  lemma LoadSelects(s: State, m: Machine, inp: Input, flags: nat, h: nat, lo: nat, hi: nat, io: Devices)
    requires Streaming(s, m.s, flags, h + 1, false, lo, hi, io) && Ready(m)
    requires StreamLoad(Instruction(m)) && m.s.bus.newMdDelay <= 1 && h / 2 < 0x1_0000_0000
    ensures Loads(m, inp, Halfword(s, h, io))
  {
    var u, t := Instruction(m), Prepared(m.s, inp);
    hide Instruction, Prepared, Ready, Execute, ReadMem, Streaming, StreamLoad, Holding, ByteMode;
    StreamHas(s, m.s, flags, h, lo, hi, io);
    PreparedShape(m.s, inp);
    LoadExecutes(t, u, m.upc + (if m.annul then 2 else 1), inp.io);
  }

  lemma StreamHas(s: State, t: State, flags: nat, h: nat, lo: nat, hi: nat, io: Devices)
    requires Streaming(s, t, flags, h + 1, false, lo, hi, io) && h / 2 < 0x1_0000_0000
    ensures !ByteMode(t) && Holding(t, ReadMem(s, h / 2, io).value)
    ensures (t.ctl.lc / 2) % 2 == 0 <==> h % 2 == 1
  {
    hide ReadMem, Holding, ByteMode;
    CounterBit(t.ctl.lc, flags, h + 1, (h + 1) % 2 == 0);
    assert (h + 1) % 2 == 0 <==> h % 2 == 1;
    hide CounterAt;
  }

  lemma PreparedShape(s: State, inp: Input)
    requires s.bus.newMdDelay <= 1
    ensures var t := Prepared(s, inp);
            && t.ctl.lc == s.ctl.lc && ByteMode(t) == ByteMode(s) && t.pads == s.pads
            && forall w: word :: Holding(s, w) ==> t.bus.md == w
  {
  }

  lemma LoadExecutes(s: State, u: nat, upc: nat, io: Devices)
    requires StreamLoad(u) && !ByteMode(s) && upc > 0
    ensures var a, md := s.pads.aMem[ASrc(u)], s.bus.md;
            Execute(s, u, upc, io).s.pads.mMem[Dest(u)]
            == a - a % 0x1_0000 + (if (s.ctl.lc / 2) % 2 == 0 then md / 0x1_0000 else md % 0x1_0000)
  {
    var s1, a := s.(alu := s.alu.(mLatch := 0)), s.pads.aMem[ASrc(u)];
    StreamPositionIs(s1, u);
    ByteUnit.LoadHalfword(s.bus.md, a, (s.ctl.lc / 2) % 2 == 0);
    MdSource(s, u);
    ByteToM(s1, u, s.bus.md, a, io);
    hide Position, ByteUnit.Byte, PopTarget, ExecByte, MSource, ByteMode, ASrc, Dest, WidthM1, PopJ, Rotation;
    PopKeepsPads(ExecByte(s1, u, s.bus.md, a, io), u, upc, io);
  }

  lemma MdSource(s: State, u: nat)
    requires MSrc(u) == 42
    ensures MSource(s, u) == Source(s, s.bus.md)
  {
  }

  lemma ByteToM(s: State, u: nat, m: word, a: word, io: Devices)
    requires Dest(u) < 32
    ensures ExecByte(s, u, m, a, io).pads.mMem[Dest(u)]
         == ByteUnit.Byte(ByteFunc(u), m, a, Position(s, u), WidthM1(u))
  {
    hide ByteUnit.Byte, Position;
  }

  lemma PopKeepsPads(s: State, u: nat, upc: nat, io: Devices)
    ensures MaybePop(s, u, upc, io).s.pads == s.pads
  {
    forall s1: State, va: word ensures ReadMem(s1, va, io).s.pads == s1.pads { ReadKeepsPads(s1, va, io); }
    hide ReadMem;
  }

  lemma ReadKeepsPads(s: State, va: word, io: Devices)
    ensures ReadMem(s, va, io).s.pads == s.pads
  {
    hide Entry, NoteWalk, FrameWord;
  }

  lemma StreamPositionIs(t: State, u: nat)
    requires StreamLoad(u) && !ByteMode(t)
    ensures Position(t, u) == if (t.ctl.lc / 2) % 2 == 0 then 16 else 0
  {
    PositionZero(u);
    HalfBit(t.ctl.lc);
  }

  lemma PositionZero(u: nat)
    requires u % 32 == 0
    ensures (u / 16) % 2 == 0 && u % 16 == 0
  {
    var k := u / 32;
    assert u == 32 * k;
    assert u / 16 == 2 * k;
  }

  lemma HalfBit(lc: word)
    ensures (lc / 2) % 2 == 0 || (lc / 2) % 2 == 1
  {
  }
}
