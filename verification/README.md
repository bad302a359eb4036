# A verified model of the CADR emulator

This project models the MIT CADR microprocessor emulator in Dafny and proves properties of
the model: the microcode interpreter of `ucode.c`, the two-level address map and page frames
of `mem.c`, the Trident disk channel of `disk.c`, and the small state machines and formats
around them (keyboard queue, display bitmap, LMFS copying, disk labels, the Chaosnet
checksum, and the `cc` console's instruction assembler). Run `dafny verify dfyconfig.toml`
to check it.

What is proved, in outline:

- Arithmetic that only makes sense iterated: 32 multiply steps form the exact 64-bit product
  and the divide sequence divides exactly, first for the ALU alone (`Alu`, `Divide`), then
  for assembled words in the control store, fetched and run by the loop (`Programs`).
- What the processor's parts mean, told bit by bit from the words themselves: instruction
  fields as `lcadmc.h` lists them (`Layout`), jump conditions and dispatch indices
  (`Decisions`), sources and destinations (`Registers`), pages and the Unibus (`Pages`).
- The pipelined loop with delayed branches and annulment refines a machine that holds only a
  current and a next address (`Pipeline`), exactly unless a cycle overwrites the word it
  prefetches (`Prefetch`), over whole runs (`Sequencing`); calls nested up to 32 deep come
  back (`Calls`), by every kind of return (`Transfers`).
- The instruction-stream prefetcher selects the halfwords of memory in order, over runs of
  the machine (`Stream`) made of instructions told apart by their fields (`StreamCycles`).
- In every reachable state the map, its walk cache and the page table are consistent, so that
  faults happen exactly when the map bits say so, and RAM is one array seen through many
  addresses (`Mem`, `Reachable`).
- Disk transfers over a command chain copy exactly the listed pages and blocks, and a write
  followed by a read is a copy (`DiskChannel`).
- Round trips and orderings: byte load and deposit (`ByteUnit`), labels (`Label`), framed
  records (`Lmfs`), keyboard events (`Keyboard`), dirty rectangles (`Display`), and the laws
  of RFC 1071 (`Checksum`).

How the model is built. The processor's state is a datatype and each microinstruction a
function on it (`Cpu`); `Processor.Cadr` keeps the same state in arrays and fields, updates
it in place as `run()` does, and is proved, method by method, to compute that function, so
the lemmas about runs are about it. `MemoryUnit.MemUnit`, `DiskUnit.Disk`,
`Keyboard.KeyboardUnit`, `Display.Tv`, `Lmfs.Access` and `DiskMaker.Tool` stand in the same
relation to `Mem`, `DiskChannel`, `Keyboard`, `Display`, `Lmfs` and `Label`. Words are
integers below 2^32 (`Words`), with wrap-around, sign and bit operations written out.

Where the code and its own words differ, the model follows the code:

- `add32` is commented as an unsigned carry (`ucode.c:700-705`), but its operands are signed,
  so the carry is the sign of the sum; the multiply theorem depends on it.
- The right-shifted output is announced to have the correct sign regardless of overflow
  (`ucode.c:1120-1122`). That is so for the operations of `ShiftRightKeepsSign`; for 020, 026
  and 034 `ShiftRightOfOthers` gives the exact condition (`ShiftRightGoesWrong`).
- Jump condition 6 adds the sequence-break flag, bit 26, to a `char` (`ucode.c:1171-1174`), so
  a sequence break alone never jumps (`SequenceBreakIsLost`, `SequenceBreakIgnored`).
- EQV (`ucode.c:1030-1032`) compares for equality instead of taking the complement of XOR: it
  is right exactly on complementary operands (`LogicalIsTable`, `EqvMeans`, `EqvOfEqual`).
- Stores to the hard-wired disk window are faults outside the disk and TV registers unless a
  frame exists there (`WriteFaultsIff`, `DiskWindowFaults`).
- With keyboard interrupts off, a key event overwrites the scan register (`PressKeepsIff`,
  `UnannouncedIsLost`).
- The 33rd nested call overwrites the oldest return address: `ReturnFinds` says for any depth
  exactly when a return goes right, and `DeepReturnFails` is a run in which it does not.
- A word rewritten after it was prefetched is executed as it was (`StaleWordExecuted`);
  `StepRefines` says exactly when, and `OverwriteHappens` that it can.

## Model

| member | source | states |
|---|---|---|
| Alu.ShiftRightKeepsSign | ucode.c:931-1000 | For operations 021-025, 027, 030-033 and 035-037 the carry is the sign of the exact signed result, so the right-shifted output is that result halved (rounded down) for every pair of words, overflow included |
| Alu.ShiftRightOfOthers | ucode.c:927-987 | For 020, 026 and 034 the shifted output is right if and only if: carry-in for 020, M non-negative for 034, operands of different sign (or A = 0 with a carry, M non-negative) for 026 |
| Alu.ShiftRightGoesWrong | ucode.c:927-987 | Operands for which 020, 026 and 034 are not halved exactly |
| Alu.SubCarry | ucode.c:709-711 | The subtraction carry compares without sign: it is the sign of the exact difference if and only if the operand signs differ (or A is 0 with carry and M non-negative) |
| Alu.ArithmeticAdds | ucode.c:926-1000 | Each of the sixteen arithmetic operations adds two words and the carry-in, the words formed bit by bit from M and A: the code's upper two bits choose all ones, M\|~A, M\|A or M, the lower two 0, M&A, M&~A (for 036 M\|~A) or M; output and carry are those of the signed sum, but for the carries of 020, 026 and 034 |
| Alu.StepsAdd | ucode.c:1052-1086 | The conditional steps with any carry-in: what is added to or subtracted from what by the low bit of Q, and every undefined operation keeps the previous output |
| Alu.NextQBits | ucode.c:1088-1108 | Q control bit by bit: shifted left with the complement of the output's sign, right with its low bit, loaded, or kept |
| Alu.BusBits | ucode.c:1110-1128 | The output bus bit by bit: the output, shifted right with the carry, or left with the old sign of Q |
| Alu.LogicalIsTable | ucode.c:1003-1050 | The sixteen boolean operations compute, bit by bit, the sixteen truth tables in the order of their codes, for all words, except EQV (011), which does if and only if the operands are complements |
| Alu.EqvMeans | ucode.c:1030-1032 | EQV is the complement of XOR if and only if the operands are complements |
| Alu.EqvOfEqual | ucode.c:1030-1032 | On equal operands EQV gives 1 where all ones are meant |
| Alu.MulStepShifts | ucode.c:1053-1061 | One multiply step adds A when Q is odd and shifts the signed 64-bit pair (M, Q) right by one, exactly |
| Alu.MulPrefix | ucode.c:1053-1061 | After any k <= 32 multiply steps, Q splits into k finished product bits above 32-k unread multiplier bits, and M with the product bits is the exact partial product |
| Alu.Multiply | ucode.c:1053-1128 | Thirty-two steps leave signed(M')*2^32 + Q' = signed(M) + signed(A)*Q, for all words |
| Divide.NonRestoring | ucode.c:1062-1070 | Adding or subtracting the divisor by the sign of the partial remainder keeps the remainder's size bounded by the divisor and quotient*A + remainder exact |
| Divide.StepOutput | ucode.c:1062-1128 | A divide step's 32-bit output is the exact next remainder modulo 2^32, and the bit entering Q is its sign, although the doubled remainder in M has wrapped |
| Divide.InitialStep | ucode.c:1080-1085 | The unconditional first subtraction establishes the division invariant when the high word is below the divisor |
| Divide.DivAdvance | ucode.c:1062-1070 | A shifting divide step keeps the invariant relating M, Q, the quotient bits so far and the dividend bits left |
| Divide.DivPrefix | ucode.c:1062-1128 | The invariant holds after the first step and any k <= 31 shifting steps |
| Divide.CorrectionRestores | ucode.c:1071-1079 | Remainder correction works on the previous ALU output (not on its M source) and leaves the true remainder |
| Divide.DivisionIsExact | ucode.c:1062-1128 | Initial step, 31 shifting steps, one unshifted step and correction give Q*A + R = M*2^32 + Q0 with 0 <= R < A, for every 0 < A <= 2^31 and M < A |
| ByteUnit.RotateBits | ucode.c:460-476 | Rotation moves bit i to i + n modulo 32; rotation by 0 is the identity |
| ByteUnit.MaskBits | ucode.c:1380-1393 | The mask is exactly bits pos..pos+width-1 when they fit in a word, and has no bit when they would wrap |
| ByteUnit.MaskEmpty | ucode.c:1380-1393 | The mask is 0 if and only if the field would wrap |
| ByteUnit.DepositBits | ucode.c:1415-1421 | Deposit puts M's low bits in the field and keeps every bit of A outside it |
| ByteUnit.LoadBits | ucode.c:1405-1410 | Load with rotation (32-pos) mod 32 brings the field at pos to the bottom and keeps A above it |
| ByteUnit.SelectiveDepositBits | ucode.c:1411-1414 | Selective deposit takes the field from M in place and the rest from A |
| ByteUnit.NoFunction | ucode.c:1399-1404 | Byte function 0 puts 0 on the bus |
| ByteUnit.LoadAfterDeposit | ucode.c:1405-1421 | Loading the field just deposited recovers the deposited bits |
| ByteUnit.DepositAfterLoad | ucode.c:1405-1421 | Depositing back a loaded field restores the word |
| ByteUnit.LoadHalfword | ucode.c:1405-1410 | A 16-bit load with rotation 0 or 16 is the low or high halfword under A's upper half |
| Mem.InitialInvariant | mem.c:89-126 | The empty page table, zero maps and junk frames with page 0 just created satisfy the map invariant |
| Mem.InitialPage | mem.c:14-22 | When run starts page 0 alone has a frame, its first word 0, both maps are zero and no walk is remembered |
| Mem.WalkKeeps | mem.c:31-84 | A map walk keeps the invariant: the remembered level-1 and level-2 values equal a fresh walk of the remembered address unless it is the sentinel |
| Mem.AddPageKeeps | mem.c:112-126 | Creating a page keeps frames pairwise distinct and every existing page's frame |
| Mem.WritePhysKeeps | mem.c:130-185 | Physical reads and writes keep the invariant and every existing frame |
| Mem.PhysPages | mem.c:130-185 | A physical access finds or creates one of the first 8192 pages, and of the others only those that have frames |
| Mem.WriteMapKeeps | ucode.c:643-676 | A write-map keeps level-1 values in 0..31, every level-2 entry backed by a frame and the walk cache coherent |
| Mem.WriteMapExact | ucode.c:643-676 | After a write-map an address translates to the new entry for exactly the addresses sharing the level-1 value and the low five page bits; all others, and the hard-wired windows, translate as the old tables say |
| Mem.StoreIsLocal | mem.c:89-108 | A word stored in one page's frame is read there and nowhere else |
| Mem.AddPageIsLocal | mem.c:112-126 | Creating a page changes no word of an existing one |
| Mem.PhysReadAfterWrite | mem.c:130-185 | A physical write is read back at its address and changes no other present word |
| MemoryUnit.MemUnit.constructor | mem.c:9-22 | Cleared map arrays and page table, no block allocated, nothing remembered |
| MemoryUnit.MemUnit.InvalidateVtopCache | mem.c:23-27 | The remembered walk is forgotten and nothing else changes |
| MemoryUnit.MemUnit.MapVtop | mem.c:31-84 | Returns the tables' entry, or the wired one of a window, with the level-1 value and the offset; a walk through the tables is remembered and nothing else changes |
| MemoryUnit.MemUnit.NewPage | mem.c:89-108 | The bump pointer hands out a frame never handed out before, taking a new 1024-page block when the last is used up; no frame already handed out changes |
| MemoryUnit.MemUnit.AddNewPageNo | mem.c:112-126 | A page number gets a frame only if it had none |
| MemoryUnit.MemUnit.ReadPhyMem | mem.c:130-156 | Returns the physical word, creating a missing RAM page, and fails exactly for pages that are not RAM and have no frame |
| MemoryUnit.MemUnit.WritePhyMem | mem.c:158-185 | Stores the physical word under the same rule |
| MemoryUnit.MemUnit.WriteMapEntries | ucode.c:643-676 | The in-place map writes produce the new tables, page and invalidated cache of the specification |
| MemoryUnit.MemUnit.WriteLevel2 | ucode.c:658-675 | Level 2 written through the level-1 value, the cache invalidated, and the named page given a frame |
| Reachable.ExecuteKeeps | ucode.c:910-1435 | Every microinstruction keeps the map invariant and each page's frame |
| Reachable.EventKeeps | ucode.c:764-1436 | So does every cycle and every disk transfer into memory between cycles |
| Reachable.RunKeeps | ucode.c:764-1436 | So does every run of cycles and transfers |
| Reachable.Reachable | ucode.c:718-764 | Every state reachable from run()'s start satisfies the invariant |
| Reachable.ReadFaultsIff | ucode.c:123-244 | read_mem fails if and only if bit 23 of the map entry is clear; then the access and page fault flags are set, OPC is the page number and the value 0, and otherwise no flag is |
| Reachable.WriteFaultsIff | ucode.c:247-405 | write_mem fails if and only if bit 23 or bit 22 is clear, or the address lies in the hard-wired disk window outside its registers with no frame behind it; the access fault flag tells the first cause, the write fault flag the second, and a failed store changes nothing |
| Reachable.DiskWindowFaults | ucode.c:247-405 | A store to an accessible, writable address of the disk window in the initial state fails |
| Pages.Translation | mem.c:31-84 | Address bits 23-13 index level 1, its value and bits 12-8 level 2, for every address; three windows are wired to 036000 and 036777 with both permissions |
| Pages.ReadAnswers | ucode.c:148-243 | What every readable page answers, by page number and offset |
| Pages.StoreEffect | ucode.c:281-403 | What a store to every writable page but the Unibus does to the whole state |
| Pages.UnibusStore | ucode.c:304-363 | What a store to each Unibus register does: the PROM switch by bits 2 and 5, the two interrupt registers bit by bit, the debug interface, and nothing or a plain store elsewhere |
| Reachable.RunFaultsIff | ucode.c:123-405 | In every state a run can reach from the start, read_mem fails if and only if bit 23 of the entry is clear, and write_mem through the tables if and only if bit 23 or 22 is, with the flags saying which |
| Reachable.ReadIsPhysical | ucode.c:148-152 | Reading RAM through any virtual address is reading its physical word |
| Reachable.WriteIsPhysical | ucode.c:281-285 | Writing RAM through any virtual address writes its physical word and changes no translation |
| Reachable.AliasesAgree | ucode.c:148-152 | A value written through one virtual address is what every alias reads, and every other RAM address reads as before |
| Reachable.DiskWordSeen | mem.c:158-185 | A word the disk stores in physical memory is what every virtual alias reads, and every other RAM address reads as before |
| Reachable.DiskSeesWord | mem.c:130-156 | A word stored through the map is what a physical read returns, and every other physical word is as before |
| Pipeline.PushThenPop | ucode.c:1194-1211 | Pushing an address below 040000, writing the control store and popping yields the address and the old ring pointer |
| Pipeline.JumpMeans | ucode.c:1132-1219 | The emulator's jump, stated with prefetch addresses, is the sequential machine's jump, stated with a current and a next address |
| Pipeline.DispatchMeans | ucode.c:1221-1341 | The same for dispatch, with its n+1, fall-through and annulment cases |
| Pipeline.ExecuteMeans | ucode.c:910-1435 | The same for every instruction |
| Pipeline.ReadyMeansSeqReady | ucode.c:764-816 | The sequential machine can run whenever the pipeline that stands for it can |
| Prefetch.ExecuteStore | ucode.c:910-1435 | An instruction turns the PROM off, writes the control store or annuls exactly when its fields and sources before it say so |
| Prefetch.IntactUnlessOverwritten | ucode.c:789-816 | The prefetched word is intact after a cycle if and only if the state before it says the cycle does not turn the PROM off over a different word, nor write a different word there without annulling it |
| Prefetch.StepRefines | ucode.c:764-816 | One turn of the loop is one step of the sequential machine if and only if the cycle does not, judged before it, overwrite the word it prefetches |
| Prefetch.StaleWordExecuted | ucode.c:789-816 | When it does, the loop next executes the old word, where the sequential machine executes the new one from the same address in the same state |
| Prefetch.OverwriteHappens | ucode.c:1200-1204 | A P and R jump to the next address, with something else to store, does |
| Transfers.ExecuteSplits | ucode.c:830-1435 | An instruction is what it does before taking an address from the ring, followed by doing so exactly when its kind, fields and condition call for it |
| Transfers.PopGoes | ucode.c:497-541 | A return goes to its fourteen-bit address, two further when bit 14 is set, bit 1 clear and the advance it makes fetches no word |
| Decisions.JumpTakenIff | ucode.c:1147-1192 | A jump is taken when its condition - by sign bits, equality, the page fault flag, bits 27, 14 and 15 of the interrupt registers - or, for a bit jump, M's bit (32 - rotation) mod 32 differs from bit 6 |
| Decisions.NamedConditions | lcadmc.h:104-115 | A jump with one of the condition fields lcadmc.h names is taken exactly when its name says, but for the sequence break |
| Decisions.StoredBits | ucode.c:1200-1205 | The word a P and R jump stores has M in bits 31-0, rotated for a bit jump, and A's low half in 47-32 |
| Decisions.DispatchReads | ucode.c:1228-1306 | Bit i of the dispatch table index is the OR of the address, M's field of the given length and rotation, and for bit 0 the chosen map bits 18 and 19 |
| Decisions.PositionBits | ucode.c:1229-1258 | The field position bit by bit, as misc function 3 changes it by the low bits of the location counter in byte and halfword mode |
| Decisions.ByteSelects | ucode.c:1229-1269 | In byte mode, misc function 3 at position 0 brings byte LC mod 4 of the M source to the bottom |
| Sequencing.InStepUnlessOverwritten | ucode.c:764-1436 | Over every run the two machines stay in step if and only if no cycle overwrites its prefetched word |
| Sequencing.RunRefines | ucode.c:764-1436 | Over every run that overwrites no prefetched word, the sequential machine can run too and the pipeline ends where it ends |
| Sequencing.FixedStoreIsIntact | ucode.c:789-816 | A cycle that leaves the control store and the PROM switch alone overwrites no prefetched word |
| Sequencing.FixedRunRefines | ucode.c:764-1436 | Every run with fixed microcode refines the sequential machine |
| Sequencing.ResetStands | ucode.c:714-787 | The loop's first turn executes a no-operation and leaves the pipeline standing for address 0 |
| Sequencing.TakenJumpTiming | ucode.c:1212-1218 | A taken jump at X executes X+1 and then the target, or the target alone with N |
| Sequencing.SequenceBreakIsLost | ucode.c:1164-1174 | Condition 6 equals condition 5 for all states, because the sum of the flags passes through a char; it means what its name says if and only if a sequence break is not the only cause |
| Sequencing.SequenceBreakIgnored | ucode.c:1164-1174 | In a cleared state with only the sequence break pending, condition 6 does not hold |
| Sequencing.StoreJumpFallsThrough | ucode.c:1194-1211 | A taken P and R jump falls through, with the ring pointer where its M source left it (one lower for the popping source 054) and exactly one control-store word replaced |
| Calls.RingHolds | ucode.c:478-493 | After operations of any depth that never pop below their start, the slot they started from holds the last value pushed at a multiple of 32 levels, or what it held |
| Calls.ReturnFinds | ucode.c:478-493 | After a push and bracketed operations of any depth, the top is the pushed address if and only if no push under it reached a multiple of 32 levels, or the last that did pushed the same address |
| Calls.ShallowClobbersNothing | ucode.c:478-493 | Nested at most 31 deep, no push does |
| Calls.ThirtyThirdOverwrites | ucode.c:478-493 | The last of any thirty-two pushes on top of an address lands on its slot |
| Calls.DeepReturnFails | ucode.c:478-493 | After thirty-two calls and their returns the next return finds the deepest call's address |
| Calls.ExecuteRing | ucode.c:837-1435 | Every instruction works on the ring by exactly the pushes and pops its fields call for |
| Calls.RunRing | ucode.c:764-1436 | So does every run |
| Calls.ExecuteReturns | ucode.c:1206-1211 | An instruction that pops the ring for the program counter - a POPJ, an R jump, an R dispatch, an untaken jump or fall-through dispatch with POPJ - goes where the address then on top leads, bit 14 included, whether or not its M source popped another first |
| Calls.ReturnGoes | ucode.c:1428-1435 | After a cycle that returns, the address where that leads is executed next, or after the delay slot |
| Calls.CallPushes | ucode.c:1193-1198 | A taken P jump and a P dispatch push the address after the prefetched one, one less with N, and one less again with N and n+1, after whatever their M source popped |
| Calls.CallReturns | ucode.c:1193-1211 | Whatever bracketed run is between, of any depth, the return goes where what the ring then holds for the call leads |
| Calls.AnnulledIsStraight | ucode.c:802-816 | An instruction fetched in place of an annulled one is in straight code: the word prefetched with it is the next one |
| Calls.CallComesBack | ucode.c:1193-1211 | A call executed at X with X+1 prefetched, jump or dispatch, annulled cycles included, with a bracketed run at most 31 deep under it, comes back to X+2, to X+1 with N, and to X for a dispatch with N and n+1 |
| Stream.StreamStarts | ucode.c:553-567 | Writing the location counter with L in 16-bit mode starts the stream at halfword L/2, needing a fetch |
| Stream.QuietStreams | ucode.c:789-806 | A cycle that leaves the counter, MD and the stream's words alone keeps the stream in place while a fetched word travels to MD |
| Stream.AdvanceStreams | ucode.c:497-541 | A cycle that advances moves on one halfword, and fetches a word just when NEED-FETCH was set |
| Stream.RunStreams | ucode.c:764-1436 | After any run of such cycles with k advances the stream is k halfwords on |
| Stream.UnderwayStreams | ucode.c:553-567 | After L is written and such a run, the stream is k halfwords past L/2 |
| Stream.FetchesIff | ucode.c:497-541 | In such a run an advance fetches if and only if it is the first or starts a word |
| Stream.StreamSelects | ucode.c:1350-1410 | In such a run after writing L, the cycle that executes a 16-bit misc-3 load at position 0 after the k-th advance loads exactly halfword L/2+k-1 of memory, once its word has arrived |
| StreamCycles.ExecuteLeaves | ucode.c:837-1435 | An instruction whose fields name no stream destination and no advance leaves the counter, interrupt control, MD with the word on its way to it, maps and frames alone, unless it returns to an address with bit 14; that, or a dispatch with the advance bit, does to them exactly what one advance does |
| StreamCycles.QuietCycle | ucode.c:764-1436 | A cycle executing an instruction of the first kind leaves the stream alone |
| StreamCycles.AdvancingCycle | ucode.c:764-1436 | A cycle executing one of the second kind advances it |
| StreamCycles.StreamCodeRuns | ucode.c:764-1436 | Every run of such instructions is a run of the stream theorems |
| Microcode.Bitmask | cc.c:404-416 | The loop computes the mask of the low w bits |
| Microcode.MaskIsMod | cc.c:404-424 | Masking to w bits is the residue modulo 2^w |
| Microcode.AssemblePair | cc.c:418-437 | The value masked to the field's width stands at the field's position |
| Microcode.AssembleAdds | cc.c:418-437 | ORing the pairs of an ALU instruction's disjoint fields adds them |
| Layout.LdbOfPairs | cc.c:418-437 | In a word assembled from pairs whose fields share no bit, in any order, each field is the value it was given, cut to its width |
| Layout.LdbOfNone | cc.c:418-437 | A field that was given no value is 0 |
| Layout.CommonFields | lcadmc.h:7-18 | Kind, POPJ, sources and misc function are decoded from the bits lcadmc.h lists |
| Layout.AluFields | lcadmc.h:33-94 | So are destination, output bus, function, carry and Q control of every ALU word |
| Layout.JumpFields | lcadmc.h:103-118 | So are target, condition, R, P and N of every JUMP word |
| Layout.DispatchFields | lcadmc.h:96-102 | So are constant, address, length, rotation, n+1 and advance bits of every DISPATCH word |
| Layout.ByteFields | lcadmc.h:100-119 | So are function, width, rotation and destination of every BYTE word |
| Layout.EntryFields | lcadmc.h:124-128 | So are target, N, P and R of every dispatch table entry |
| Layout.NopBits | ucode.h:6 | A word takes the no-operation short cut if and only if bits 0-46 other than bit 12 are clear |
| Microcode.DecodeAssembled | lcadmc.h:17-95 | An assembled word decodes in the emulator to the fields it was assembled from |
| Microcode.DecodeJump | lcadmc.h:103-118 | An assembled JUMP word decodes to the fields it was assembled from |
| Microcode.DecodeDispatch | lcadmc.h:96-102 | So does a DISPATCH word |
| Microcode.DecodeByte | lcadmc.h:100-122 | So does a BYTE word |
| Microcode.ConsoleWords | cc.c:503-531 | The console's two instruction words are assembled words, whatever the order of their pairs, and these numbers |
| Microcode.WriteAExecutes | cc.c:514-531 | Emulating the write instruction sets A[loc] to MD and changes no other A or M word, nor anything else but the ALU latches |
| Microcode.ReadAOutputs | cc.c:503-511 | Emulating the read instruction puts A[loc] on the output bus |
| Microcode.ConsoleReadsBack | cc.c:503-531 | Read after write gives MD for the same location and the old word for any other |
| Programs.StepExecutes | ucode.c:1053-1129 | An assembled step instruction does to M[r], Q and the ALU output what the ALU model says, and leaves A[loc], the stores and the flow of control |
| Programs.StepRuns | ucode.c:764-1436 | A cycle of the loop at such a word does that and goes on to the next address |
| Programs.ProgramRuns | ucode.c:764-1436 | A straight-line program of steps in PROM or control store, run one cycle a word, has their effects in order |
| Programs.MultiplyProgram | lcadmc.h:68-95 | Thirty-two multiply words in the store, fetched and run by the loop, compute the 64-bit product in M[r] and Q |
| Programs.DivisionEffects | lcadmc.h:68-95 | The thirty-four words of the divide sequence have the effect of the ALU model's division |
| Programs.DivideProgram | lcadmc.h:68-95 | Fetched and run by the loop, they divide (M[r], Q) by A[loc] exactly |
| Registers.WrittenIsRead | ucode.c:545-698 | What each register destination writes is what its functional source reads, and every source that does not look through it reads what it did |
| Registers.MemoriesWritten | ucode.c:545-698 | Every destination puts the result into one M and A memory word, or one A memory word, and changes no other word of them |
| Registers.PdlIsStack | ucode.c:599-603 | Up to 1024 words pushed on the PDL buffer are popped in the opposite order, and the pointer comes back |
| Registers.StackPopRestores | ucode.c:478-493 | The popping source 054 reads an address just pushed, with its pointer, and restores the pointer |
| Registers.LatchedSources | ucode.c:849-872 | Sources 040, 046 and 047 read the last dispatch constant, OPC and Q |
| Registers.ClearedReads | ucode.c:27-73 | In a cleared machine every source but MAP reads 0, no fault is flagged and nothing is pending |
| Registers.MemoryCycle | ucode.c:633-695 | Destinations 021-023 and 031-033 load VMA or MD and then read, write or write the map at VMA with MD |
| Registers.ReadArrives | ucode.c:797-801 | The word a memory read found is in MD for the second instruction after it, and not for the first |
| Registers.ControlBits | ucode.c:570-575 | Byte mode, interrupt enable and sequence break are bits 29, 27 and 26 of interrupt control |
| Registers.LcWrittenBits | ucode.c:553-567 | Writing LC sets bit 31 and bits 25-0, but bit 0 in halfword mode, and keeps bits 30-26 |
| Registers.CounterSteps | ucode.c:497-541 | Advancing steps LC by a byte or a halfword, needs a fetch when bit 31 is set, and sets bit 31 again after the last item of a word |
| Registers.InterruptControlBits | ucode.c:568-595 | Writing interrupt control also sets bits 29-26 of LC and no other |
| Registers.MapSourceBits | ucode.c:876-879 | The MAP source holds the write and access fault flags, the level-1 value and the low 24 bits of the level-2 entry for MD |
| Registers.ModifiedBits | ucode.c:818-829 | The pending modifiers are ORed into the next instruction, bits 25-0 and from bit 26 up |
| Registers.ModifierApplies | ucode.c:620-629 | Those bits are what destinations 016 and 017 were given |
| Registers.MaskBusBits | ucode.c:1110-1115 | Output selection 0 puts the rotated M source on the bus |
| Processor.Cadr.constructor | ucode.c:714-728 | A cleared machine with the PROM enabled |
| Processor.Cadr.PushSpc | ucode.c:478-483 | The ring pointer steps, then the slot is written |
| Processor.Cadr.PopSpc | ucode.c:485-493 | The top is returned and the pointer steps back |
| Processor.Cadr.ReadMem | ucode.c:123-244 | In-place read: same value, fault bits and remembered walk as the specification the fault and aliasing lemmas are about |
| Processor.Cadr.WriteMem | ucode.c:247-405 | In-place write: same memory, device log, fault bits and success flag as that specification |
| Processor.Cadr.AdvanceLc | ucode.c:497-541 | The counter, the fetch and the flag are those the stream theorem is about |
| Processor.Cadr.PopTarget | ucode.c:1428-1435 | The return address with bit 14's instruction-stream advance applied |
| Processor.Cadr.ReadMSource | ucode.c:837-905 | Every functional source with its side effect; undefined sources read the latch |
| Processor.Cadr.WriteDest | ucode.c:544-698 | Every destination with its side effect, then the copy into M and A memory |
| Processor.Cadr.ExecAlu | ucode.c:910-1129 | Operation, Q control, output bus and destination, on the old Q |
| Processor.Cadr.ExecByte | ucode.c:1342-1425 | Position, rotation, mask and destination |
| Processor.Cadr.ExecJump | ucode.c:1132-1219 | Condition, call, control-store write, return and transfer |
| Processor.Cadr.ExecDispatch | ucode.c:1221-1341 | Table address, constant, stream advance and transfer |
| Processor.Cadr.Execute | ucode.c:830-1435 | The instruction with its POPJ |
| Processor.Cadr.FetchNext | ucode.c:789-816 | The prefetched word moves up, once more when it is annulled |
| Processor.Cadr.Prepare | ucode.c:780-830 | Polling, fetch, arrival of memory data and pending modifiers, before execution |
| Processor.Cadr.Step | ucode.c:764-1436 | One turn of the loop, on arrays and registers, is one step of the pipeline model that the run theorems are about |
| Processor.PowerUp | ucode.c:714-728 | The machine with page 0 created is the state the reachability theorem starts from |
| DiskChannel.IncrIsNext | disk.c:208-220 | The next position's linear block number is one more |
| DiskChannel.DecodeEncodes | disk.c:189-206 | A disk address inside the geometry survives encoding and decoding |
| DiskChannel.AddressLayout | disk.c:189-206 | A disk address is decoded by its fields whatever bit 31 holds, and encoding keeps what fits each field |
| DiskChannel.PutPageEffect | disk.c:95-134 | A block read replaces one page's words and no other page's |
| DiskChannel.PutBlockEffect | disk.c:75-93 | A block write replaces one block of the image and no other |
| DiskChannel.LastBlockInDa | disk.c:198-206 | The disk address left by a completed transfer decodes to block s+n-1 |
| DiskChannel.ChainStays | disk.c:222-265 | Command chains and page targets are the same in any two memories that hold the same words |
| DiskChannel.ReadCopies | disk.c:222-265 | A read over n command words in memory - page number from bit 8 up, bit 0 set in all but the last - copies blocks s..s+n-1 into the listed pages, changes no other page or the image, and stops the pointer on the last command |
| DiskChannel.WriteCopies | disk.c:275-317 | A write over such a chain copies the listed pages to blocks s..s+n-1 and changes no other block and no memory word |
| DiskChannel.WriteThenRead | disk.c:222-317 | Writing pages and reading the same blocks into other pages, over chains given in the memory before either transfer, copies the pages as they were |
| DiskUnit.Disk.DecodeDa | disk.c:189-196 | The current position is the decoded disk address |
| DiskUnit.Disk.UndecodeDa | disk.c:198-206 | The disk address is the encoded current position |
| DiskUnit.Disk.NextBlock | disk.c:208-220 | The current position steps as in the linear-order lemma |
| DiskUnit.Disk.ReadBlock | disk.c:95-134 | 256 words of the image block land in the page |
| DiskUnit.Disk.WriteBlock | disk.c:136-151 | The page's words land in the image block |
| DiskUnit.Disk.RunChain | disk.c:222-317 | The command loop has the outcome the copy theorems are about |
| DiskUnit.Disk.StartTransfer | disk.c:222-317 | Decode, run the chain, write back the address and schedule the interrupt; an unreadable command word leaves the address alone |
| Keyboard.DequeueSettles | kbd.c:250-268 | After a dequeue, CSR<5> clear implies an empty ring |
| Keyboard.EventBits | kbd.c:228-277 | A key event's scan code has the code's bits, bit 8 when the key goes up, and bit 16 |
| Keyboard.EventCode | kbd.c:277 | As a number, for codes below 256 |
| Keyboard.CsrBits | kbd.c:228-289 | Bit 5 of the CSR announces a code and bit 2 enables interrupts; setting or clearing bit 5 changes no other bit |
| Keyboard.SlotWraps | kbd.c:228-268 | Slots of the queue are counted modulo ten |
| Keyboard.PressKeepsIff | kbd.c:228-248 | A key event keeps arrival order if and only if CSR<5> is set or keyboard interrupts are enabled |
| Keyboard.UnannouncedIsLost | kbd.c:228-248 | With interrupts off, the first of two key events leaves no trace |
| Keyboard.RunInOrder | kbd.c:228-289 | With interrupts enabled, order holds over every interleaving of polls, key events and reads |
| Keyboard.TakenIsPrefix | kbd.c:228-289 | The codes the machine reads are a prefix of the accepted events in arrival order, the rest being announced or queued |
| Keyboard.DroppedOnlyWhenFull | kbd.c:228-289 | A key event adds its code to those announced and queued unless they are eleven; then it is lost and nothing changes |
| Keyboard.FiledAsLost | kbd.c:228-289 | The history files an event as dropped exactly when its code was so lost |
| Keyboard.EveryEventAccounted | kbd.c:228-289 | Over every run the accepted and the dropped events are exactly those that happened, each in arrival order |
| Keyboard.NothingElseAccepted | kbd.c:228-289 | The same from the start |
| Keyboard.ReadKeeps | iob.c:84-95 | Reading the scan code clears CSR<5> and keeps the order |
| Keyboard.KeyboardUnit.QueueKeyEvent | kbd.c:228-248 | The ring, scan register and CSR updated in place as the ordering theorem's model does |
| Keyboard.KeyboardUnit.DequeueKeyEvent | kbd.c:250-268 | The same for the dequeue |
| Keyboard.KeyboardUnit.KbdKeyEvent | kbd.c:270-289 | The same for an event, announced at once when the ring is empty and CSR<5> clear, queued otherwise |
| Keyboard.KeyboardUnit.ReadLow | iob.c:85-89 | The low half read and CSR<5> cleared |
| Keyboard.KeyboardUnit.ReadHigh | iob.c:90-94 | The high half read and CSR<5> cleared |
| Keyboard.KeyboardUnit.ReadKeyboard | iob.c:84-95 | Both halves, read with nothing in between, are the code |
| Display.AccumulateCovers | x11.c:219-230 | The accumulated rectangle covers every pixel it covered and every pixel of the new rectangle |
| Display.FirstUpdate | x11.c:219-230 | The first rectangle accumulated is pending exactly as it is |
| Display.AccumulateIsLeast | x11.c:219-230 | No smaller rectangle covers both |
| Display.ReadAfterWrite | tv.c:47-93 | A written word is read back, every other word reads as before, and words past the screen read 0 |
| Display.DrawnBits | tv.c:47-65 | Pixel by pixel, the drawn word's bits are the word |
| Display.DrawnPixels | tv.c:47-65 | Each of the 32 pixels is black for a one and white for a zero, lowest bit first |
| Display.Tv.AccumulateUpdate | x11.c:219-230 | The four bounds become those of the covering rectangle |
| Display.Tv.Write | tv.c:47-65 | The bitmap takes the word, and the dirty rectangle still covers every visible difference from the window |
| Display.Tv.Read | tv.c:73-93 | The word packed from 32 pixels |
| Display.Tv.SendUpdates | x11.c:232-250 | After sending, window and bitmap agree on every visible pixel and the rectangle is empty |
| Display.Tv.Expose | x11.c:189-193 | Redrawing the whole window keeps the covering property |
| Lmfs.FramedNext | lmfs.c:36-63 | Within a block, consecutive data bytes are consecutive in the framed record |
| Lmfs.BlockOfRecord | lmfs.c:36-63 | The data of block b of a record is the 1008 bytes of the image after that block's eight-byte header |
| Lmfs.Access.ReadRecord | lmfs.c:340-359 | The buffer holds the record's four blocks and the offset is 0 |
| Lmfs.Access.EnsureAccess | lmfs.c:36-63 | The place returned is the framed position of the offset when the size fits the block |
| Lmfs.Access.AdvanceAccess | lmfs.c:65-99 | The new offset is the old one plus the step, or the next block's start when less than the step is left; the place is its framed position, or nowhere at the record's end |
| Lmfs.Access.CopyFile | lmfs.c:408-445 | The copy terminates and writes exactly the first byte_length bytes of the deframed record 0 from its start offset followed by the file map's records |
| Label.UnStr4Str4 | diskmaker.c:113-130 | Four characters packed in a word are unpacked unchanged |
| Label.PadTagFills | diskmaker.c:100-107 | A label is cut or space-padded to exactly sixteen characters |
| Label.TextsShape | diskmaker.c:170-187 | The three texts are read back from their 32-byte fields |
| Label.PartsBack | diskmaker.c:846-862 | The partition entries are read back in order, names, starts, sizes and labels |
| Label.ReadAfterMake | diskmaker.c:132-200 | Reading a label just made restores the pack, for up to 18 partitions |
| Label.BandIsWord7 | diskmaker.c:879-953 | The load band's name is in word 7 alone and the microcode's in word 6 alone |
| Label.LabelLayout | diskmaker.c:132-200 | The label word by word: magic number, version, geometry, names, texts with their padding, and the partitions from word 0202 |
| Label.ReadEntries | diskmaker.c:832-871 | Of any label, with entries any distance apart, reading takes the first thirty-two entries in order, and it refuses exactly another magic number or version |
| DiskMaker.CaseIgnored | diskmaker.c:887-896 | Names match exactly when they differ at most in the case of letters |
| DiskMaker.SwitchedWord | diskmaker.c:879-953 | On a label as laid out, switching to a named partition changes word 7 (or 6) alone |
| DiskMaker.Tool.AddPartition | diskmaker.c:88-110 | The partition is appended with its label padded, or refused when 32 are there |
| DiskMaker.Tool.PutText | diskmaker.c:170-187 | The field is padded, then overlaid by the string and its NUL; no other word changes |
| DiskMaker.Tool.MakeLabl | diskmaker.c:132-200 | The buffer, filled in place, and the image become the label's 256 words |
| DiskMaker.Tool.ReadLabl | diskmaker.c:808-876 | The globals become the label read, or stay when the magic word or version is wrong |
| DiskMaker.Tool.FindPartition | diskmaker.c:887-896 | The first partition of that name, ignoring case |
| DiskMaker.Tool.SetCurrentBand | diskmaker.c:879-916 | Image unchanged and -1 without a label or the partition; otherwise the same label with that load band |
| DiskMaker.Tool.SetCurrentMcr | diskmaker.c:919-956 | The same for the microcode partition |
| Checksum.ChChecksum | chaos.c:67-87 | The loops terminate and compute the one's complement checksum of any byte sequence |
| Checksum.FoldIsResidue | chaos.c:80-84 | Folding the carries yields the residue modulo 65535, with 65535 for nonzero multiples |
| Checksum.OrderIndependent | chaos.c:67-87 | Section 1 of RFC 1071: permuting the words leaves the checksum |
| Checksum.PartsFold | chaos.c:67-87 | Section 2(A) of RFC 1071: the sum of a packet is the sum of its parts' sums |
| Checksum.ByteOrderIndependent | chaos.c:67-87 | Section 2(B) of RFC 1071: swapping the bytes of every word swaps the checksum's bytes |
| Checksum.OwnChecksumIsZero | chaos.c:67-87 | Section 4.1 of RFC 1071: data followed by its own checksum checks to 0 |
| Checksum.EvenIsWords | chaos.c:67-87 | Every even-length packet is a sequence of words, so these laws cover them all |

## Left out

- Sockets, serial lines, X11, signals, files and wall-clock time; the disk image, the window and the label's block are arrays or sequences.
- Disassembly, symbol tables and dumps, the mouse, UART, Ethernet and lashup devices, warm starts and saved states: thin, or with no law to state.
- Device registers: reads come from a function given to each cycle, writes are logged, and the interrupt status polled devices leave arrives with each cycle; disk transfers are separate events between cycles.
- Program addresses outside the PROM or control store, and locations past A memory's 1024 words: every cycle of a run must stay inside (`Ready`); the C code reads past its arrays there.
- WriteMem: writes to the disk, display and I/O registers are logged, for the device to act on between cycles; see LastResort for the Unibus.
- LastResort: a store to the Unibus page at a doubled offset of 256 or more, to no known register, leaves the page in C; the model changes nothing.
- The level-2 index is formed from level-1 values below 32, which every write-map keeps.
- RunRefines: the last address of the control store is not fetched in such runs; the program counter then leaves its 14 bits.
- StreamSelects: covers 16-bit mode below 26 bits of location counter, with the fetched word left in MD and the stream's words unchanged; the source is unsure of its own byte mode, of which ByteSelects and CounterSteps state single cycles only.
- StreamCodeRuns: instructions that start a memory cycle or load VMA with one, or write MD or the map, are not told by their fields; runs with those that miss the stream's words are covered by StreamRun itself.
- SubCarry: states when the subtraction carry is the sign; the carry of remainder correction is modelled but nothing depends on it.
- DivisionIsExact: divisors above 2^31 are not covered, since the partial remainder no longer fits a word.
- ReadCopies: needs pages below 16384 that can be created, blocks on the image, and target pages distinct and apart from the command list; outside that the chain overwrites its own commands.
- Disk read-compare, the byte-swapping paths for big-endian hosts, and reading a label from a short file.
- ReadKeyboard: the runs of TakenIsPrefix read the two halves of the scan code as one; the tables from host keys to scan codes are not modelled.
- SendUpdates: sending is copying the rectangle to a window array; writes past the visible screen are drawn but not sent, as in the source.
- OrderIndependent: the laws are for even lengths; odd lengths are computed by ChChecksum as the source does, which adds the last byte unshifted.
- CopyFile: the file map has fewer than 64 entries, its records are on the image and byte_length is within them; a short read leaves old buffer contents in C.
- ReadAfterMake: names of four and labels of sixteen ASCII characters, texts under 32; longer texts overrun their fields in C. NULL brands are empty texts.
- ReadLabl: a label whose entry count runs past its own block is excluded, since C would read past the buffer.
- The contents of frames never written are a parameter, as malloc leaves them.
- The cycle counter, tracing and console output.
