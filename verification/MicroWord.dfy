/** Fields of a 48-bit microinstruction, as the emulator takes them apart. */
module MicroWord {
  const OP_ALU := 0
  const OP_JUMP := 1
  const OP_DISPATCH := 2
  const OP_BYTE := 3

  function Op(u: nat): nat { (u / 0x800_0000_0000) % 4 }
  predicate PopJ(u: nat) { (u / 0x400_0000_0000) % 2 == 1 }
  function ASrc(u: nat): nat { (u / 0x1_0000_0000) % 1024 }
  function MSrc(u: nat): nat { (u / 0x400_0000) % 64 }
  function Misc(u: nat): nat { (u / 0x400) % 4 }

  // ALU and BYTE
  function Dest(u: nat): nat { (u / 0x4000) % 4096 }
  function OutputBus(u: nat): nat { (u / 0x1000) % 4 }
  predicate CarryIn(u: nat) { (u / 4) % 2 == 1 }
  function AluOp(u: nat): nat { (u / 8) % 64 }
  function QControl(u: nat): nat { u % 4 }
  function ByteFunc(u: nat): nat { (u / 0x1000) % 4 }
  function WidthM1(u: nat): nat { (u / 0x20) % 32 }
  function Rotation(u: nat): nat { u % 32 }

  /** The short cut for no-operations: bits 0..46 are clear, but for bit 12. */
  predicate IsNop(u: nat) { u % 0x1000 == 0 && (u / 0x2000) % 0x4_0000_0000 == 0 }

  lemma NopReadsM0(u: nat)
    requires IsNop(u)
    ensures MSrc(u) == 0
  {
    var x := u / 0x2000;
    var k := x / 0x4_0000_0000;
    assert x == 0x4_0000_0000 * k;
    assert u / 0x400_0000 == x / 0x2000 == 0x20_0000 * k;
  }

  // JUMP
  function JumpTarget(u: nat): nat { (u / 0x1000) % 0x4000 }
  predicate RBit(u: nat) { (u / 0x200) % 2 == 1 }
  predicate PBit(u: nat) { (u / 0x100) % 2 == 1 }
  predicate NBit(u: nat) { (u / 0x80) % 2 == 1 }
  predicate InvertSense(u: nat) { (u / 0x40) % 2 == 1 }
  predicate ConditionCoded(u: nat) { (u / 0x20) % 2 == 1 }
  function Condition(u: nat): nat { u % 16 }

  // DISPATCH
  function DispConst(u: nat): nat { (u / 0x1_0000_0000) % 1024 }
  predicate NPlus1(u: nat) { (u / 0x200_0000) % 2 == 1 }
  predicate AdvanceStream(u: nat) { (u / 0x100_0000) % 2 == 1 }
  function DispAddr(u: nat): nat { (u / 0x1000) % 2048 }
  function DispMap(u: nat): nat { (u / 0x100) % 4 }
  function DispLength(u: nat): nat { (u / 0x20) % 8 }

  // A dispatch table entry
  function EntryTarget(e: nat): nat { e % 0x4000 }
  predicate EntryN(e: nat) { (e / 0x4000) % 2 == 1 }
  predicate EntryP(e: nat) { (e / 0x8000) % 2 == 1 }
  predicate EntryR(e: nat) { (e / 0x1_0000) % 2 == 1 }

  /** A-memory destinations address 1024 words; the code does not check. */
  predicate DestInRange(u: nat) { Op(u) == OP_ALU || Op(u) == OP_BYTE ==> Dest(u) < 3072 }
}
