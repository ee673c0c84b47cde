# exbawks in Dafny

A verification project for exbawks, an emulator of the original Xbox. It models
the parts of the emulator where being wrong is easy and silent, and proves what
they promise for all inputs, all states and whole runs:

- **The block compiler.** `DirectEmitter` assembles host bytes for the
  register-only prefix of a guest block. A small x86-64 machine
  (`HostMachine`) decodes and runs those bytes; `EmitterProof.CompilerCorrect`
  shows they do what interpreting the prefix does, flags included, and
  `Tier0Laws.EmittedMatchesTier0` ties them to the interpreter tier. The source
  map is proved to lead every host byte back to its guest instruction.
- **The tier-0 interpreter.** `Tier0` says what each instruction does;
  `Interpreter.Machine` does it in place, and a fault leaves nothing changed.
  `StepLaws`, `MoveLaws`, `ShiftLaws`, `FlowLaws` and `StringLaws` say what whole
  steps leave without the interpreter's own tables: numbers modulo the width,
  each bit of EFLAGS by its place, each bit a shift moves, registers by number,
  bytes at addresses, and where execution goes after a comparison.
- **The instruction cache.** A hit is the fresh decode exactly when its pages can
  still be fetched from; whole runs with any mix of steps, faults, writes, remaps
  and outside changes agree with uncached runs. Every guest write, by every
  modelled instruction, is shown to be counted against the pages it changes.
- **The image loader.** Sorting, merging runs and merging permissions refine a
  page-by-page and byte-by-byte meaning that does not depend on section order.
  It is stated in the image's own terms, file bytes at addresses and permissions
  of pages, and proved to be what the page table and RAM show the guest.
- **The pushbuffer walker.** A program laid out in one memory, jumps, calls and
  returns included, that does not overwrite itself is walked cleanly exactly when
  the budget affords it, and the walk makes exactly its method calls. What any
  clean walk reads is such a program, and only one.
- **Texture addressing**, **dword RAM**, the **PNG encoder**, the **frame
  digest** and the **submission log**, each against an independent reference:
  a bijection, RAM as bytes, a decoder written from the RFCs, injectivity of
  each hash step, and conservation over runs of writes and drains.

Words are bounded integers (`u8` to `u64` in `Words.dfy`); wrap-around and
truncation are written out, and bitwise operations are defined bit by bit in
`Bits.dfy`. State the emulator updates in place is a class with methods proved
against specification functions. `dafny verify dfyconfig.toml` checks everything.

## Where the code and its comments part

- The cache marks an empty slot with the last address, taking it for one where no
  code can start. A one-byte instruction can start there, and so can one that
  goes on at address zero; `EmptySlotHits`
  and `TopIsStale` show both, and the theorems ask for addresses below the top.
- The cache promises to redecode exactly when it must. It does not look at
  permissions (`RevokedPageHits`) and its generations have sixteen bits
  (`GenerationComesRound`). `HitExact` gives the exact condition.
- The PNG encoder writes a file for every width, height and buffer, but the
  format has no zero dimensions and no chunk of 2^31 bytes or more;
  `PngRoundTrip.RoundTrip` says exactly which files a decoder accepts.
- The pushbuffer budget is documented as a bound on the dwords of a submission.
  The last header may overdraw it by 2,047 dwords read, yet applied arguments
  stay below it: `BudgetBounds` and `AppliedWithinBudget`. `MaximumReached`
  attains the exact bound.
- Anonymous mappings are documented as zeroed. They are if and only if the
  physical pages they are given are zero (`ZeroedExactly`). RAM past the
  allocator's cursor starts zero and stays so exactly as long as no write leaves
  another byte there (`FreeKeptExactly`); writes to private pages never do, writes
  through the physical window can, and `WindowThenMap` reaches the failure. A page
  that was freed is scrubbed, but one written through the window while it waits in
  the pool is handed out as it is, although RAM past the cursor is zero.

## Model

| member | source | states |
|---|---|---|
| `DirectEmitter.Emit` | crates/exbawks-jit/src/emit.rs:79-125 | Emission fails exactly on an empty block, on a block ending outside the guest space and on code too long for its metadata, never on its own source map; otherwise it yields the code, exit and source map of the longest register-only prefix, and `SubsetLaws.ClassifyMeans` says which instructions those are. |
| `DirectEmitter.BlockAssembler.RegisterOpCode` | crates/exbawks-jit/src/emit.rs:144-172 | Appends exactly the encoding of the host instructions the operation lowers to. |
| `DirectEmitter.BlockAssembler.MergeFlagsCode` | crates/exbawks-jit/src/emit.rs:201-216 | Appends the encoding of the six instructions that merge pushed host flags into EFLAGS under a mask. |
| `DirectEmitter.BlockAssembler.Epilogue` | crates/exbawks-jit/src/emit.rs:218-227 | Appends the encoding of the store of the exit EIP, the load of the exit code and the return. |
| `DirectEmitter.AluEncodings` | crates/exbawks-jit/src/emit.rs:234-252 | The two opcode tables name the host encodings of the five operations. |
| `DirectEmitter.RangesAccepted` | crates/exbawks-jit/src/emit.rs:97-104 | The ranges the emitter records are always acceptable metadata: non-empty and disjoint. |
| `EmitterProof.DecodeEncode` | crates/exbawks-jit/src/emit.rs:144-227 | The model host decodes every emitted instruction back to itself, whatever bytes follow. |
| `EmitterProof.RunEncoded` | crates/exbawks-jit/src/emit.rs:144-227 | Running encoded instructions executes them in order and then whatever follows. |
| `FlagAgreement.StatusAgrees` | crates/exbawks-cpu/src/interpret.rs:71-115 | For all operands the host ALU gives the oracle's result and every status flag the oracle defines. |
| `FlagAgreement.MergeAgrees` | crates/exbawks-jit/src/emit.rs:254-259 | Masking the pushed host flags into EFLAGS leaves the oracle's defined flags and every other guest flag untouched. |
| `EmitterProof.SimulateOp` | crates/exbawks-jit/src/emit.rs:144-216 | The state lies in memory as the little-endian words of the eight registers in encoding order, EIP and EFLAGS; the code of one operation takes the image of a state to the image of the state the operation leaves, and leaves the rest of memory and the stack alone. |
| `EmitterProof.RunEpilogue` | crates/exbawks-jit/src/emit.rs:218-227 | The epilogue stores the exit EIP, returns the exit code and pops only the return address. |
| `EmitterProof.CompilerCorrect` | crates/exbawks-jit/src/emit.rs:73-125 | For every contiguous block and guest state at its start, given as that forty-byte image: the emitted bytes return with the image of the registers, flags and EIP of interpreting the translated prefix, all other bytes and the host stack kept, and the exit that says successor or first untranslated instruction, which interpretation indeed refuses. |
| `SubsetLaws.ClassifyMeans` | crates/exbawks-cpu/src/subset.rs:55-131 | Exactly NOP without operands, and MOV, ADD, SUB, AND, OR and XOR of a 32-bit register with a 32-bit register or constant, are translated. |
| `EmitterProof.SourceMapTracks` | crates/exbawks-jit/src/emit.rs:97-105 | Every host byte of translated instruction i is covered, and every range covering it names that instruction's guest address and length. |
| `EmitterProof.EpilogueUnmapped` | crates/exbawks-jit/src/emit.rs:108-110 | No source range reaches into the epilogue. |
| `SourceMap.New` | crates/exbawks-debug/src/source_map.rs:71-95 | Accepts exactly non-empty, pairwise disjoint ranges with distinct fault offsets and keeps exactly the entries given; an error names an empty range, a range that overlaps one starting no later, or an offset two fault sites share. |
| `SourceMap.RangesPermute` | crates/exbawks-debug/src/source_map.rs:71-95 | Acceptability depends on the contents, not on the order given. |
| `SourceMap.BlockSourceMap.SourceForHostOffset` | crates/exbawks-debug/src/source_map.rs:111-115 | The binary search finds the one range containing the offset, or there is none. |
| `SourceMap.BlockSourceMap.FaultForHostOffset` | crates/exbawks-debug/src/source_map.rs:119-122 | The binary search finds the one fault site at the offset, or there is none. |
| `AluFlags.AddMeans` | crates/exbawks-cpu/src/exec.rs:1098-1114 | At every width with carry-in: result and carry are the unsigned sum, overflow says the signed sum does not fit, zero and sign describe the result. |
| `AluFlags.SubMeans` | crates/exbawks-cpu/src/exec.rs:1116-1131 | At every width with borrow-in: result and borrow are the unsigned difference, overflow says the signed difference does not fit. |
| `AluFlags.AddNibble` | crates/exbawks-cpu/src/exec.rs:1083-1114 | The auxiliary flag is the carry out of the low nibble, and parity counts the ones of the result's low byte, at every width with carry-in. |
| `AluFlags.SubNibble` | crates/exbawks-cpu/src/exec.rs:1083-1131 | The auxiliary flag is the borrow into the low nibble, at every width with borrow-in. |
| `AluFlags.CompareThenBranch` | crates/exbawks-cpu/src/exec.rs:812-837 | After a comparison at any width each relational condition code is met exactly when the signed or unsigned relation holds. |
| `AluFlags.AddThenAdc` | crates/exbawks-cpu/src/exec.rs:1098-1131 | The low half's carry flag, merged into EFLAGS and read back, makes addition of both halves addition at twice the width, carry out included; `StepLaws.AddThenAdc` has the two instructions. |
| `AluFlags.SubThenSbb` | crates/exbawks-cpu/src/exec.rs:1098-1131 | The same for subtraction and the borrow; `StepLaws.SubThenSbb` has the two instructions. |
| `Rotates.RotateCarryLeft` | crates/exbawks-cpu/src/exec.rs:1481-1491 | The RCL loop equals `count` one-bit rotations of the number carry:value, unreduced. |
| `Rotates.RotateCarryRight` | crates/exbawks-cpu/src/exec.rs:1492-1504 | The RCR loop equals `count` one-bit rotations the other way. |
| `Rotates.CarryRotatesUndo` | crates/exbawks-cpu/src/exec.rs:1481-1504 | RCR by n undoes RCL by n on value and carry, at every width and count. |
| `Rotates.CountReduces` | crates/exbawks-cpu/src/exec.rs:1482 | Only the count modulo the number of bits matters to a rotation. |
| `Rotates.RolIsRotation` | crates/exbawks-cpu/src/exec.rs:1468-1473 | The two-shift ROL expression is that many one-bit rotations. |
| `Rotates.RorIsRotation` | crates/exbawks-cpu/src/exec.rs:1474-1480 | The two-shift ROR expression is that many one-bit rotations. |
| `Rotates.ShiftValue` | crates/exbawks-cpu/src/exec.rs:1445-1505 | Each shift and rotate gives the specified result, carry-out and count-one overflow: products, floor quotients and repeated one-bit rotations. |
| `GuestMemory.CellsDistinct` | crates/exbawks-memory/src/access.rs:72-99 | An access of at most a page never reaches one physical byte twice, whatever the mapping. |
| `GuestMemory.PutGet` | crates/exbawks-memory/src/software.rs:384-404 | A write leaves its bytes in its cells and every other physical byte as it was. |
| `GuestMemory.LoadAfterStore` | crates/exbawks-memory/src/software.rs:293-320 | A range just written reads back as written. |
| `GuestMemory.TranslateMeans` | crates/exbawks-memory/src/access.rs:46-99 | A byte's page answers in order: unmapped, not permitted, a device, reserved, RAM that is not there, or the cell. |
| `GuestMemory.FaultsMean` | crates/exbawks-memory/src/access.rs:46-99 | A range faults as its first byte that does and only where it has one; over the top of the address space it overflows. |
| `GuestMemory.StoreFaults` | crates/exbawks-memory/src/software.rs:384-404 | A store is refused for exactly the faults a write access of its range has. |
| `OperandLaws.RegisterReadBack` | crates/exbawks-cpu/src/exec.rs:984-1012 | A register of any width reads back what was written to it. |
| `OperandLaws.RegisterApart` | crates/exbawks-cpu/src/exec.rs:993-1012 | Writing a register, partial ones included, leaves every register it shares no bits with. |
| `OperandLaws.ReadBack` | crates/exbawks-cpu/src/exec.rs:1028-1055 | A written operand, register or memory, reads back the value cut to its width. |
| `OperandLaws.WriteApart` | crates/exbawks-cpu/src/exec.rs:1041-1055 | Writing one operand leaves separate operands as they were. |
| `StringMemory.MemoryApart` | crates/exbawks-cpu/src/exec.rs:1028-1077 | Writing one memory operand leaves another, of any width, as it was when they share no physical byte. |
| `OperandLaws.MovMoves` | crates/exbawks-cpu/src/exec.rs:1201-1212 | MOV leaves the source's value in the destination. |
| `OperandLaws.XchgSwaps` | crates/exbawks-cpu/src/exec.rs:1248-1263 | XCHG leaves each operand with the other's value. |
| `OperandLaws.XaddAdds` | crates/exbawks-cpu/src/exec.rs:1265-1293 | XADD leaves the sum in the destination, also when both operands are one register, and the old destination in a separate source. |
| `OperandLaws.Cmpxchg8bMeans` | crates/exbawks-cpu/src/exec.rs:1326-1358 | The zero flag says whether memory held EDX:EAX; memory then holds ECX:EBX, or is unchanged with its value in EDX:EAX. |
| `Interpreter.Machine.ExecuteAlu` | crates/exbawks-cpu/src/exec.rs:1153-1199 | ADD to TEST commit the specified state, of which `StepLaws.AluMeans` says what number and flags it holds, or an error with nothing changed. |
| `Interpreter.Machine.ExecuteUnary` | crates/exbawks-cpu/src/exec.rs:1360-1403 | INC, DEC, NEG and NOT commit the specified state, or change nothing. |
| `Interpreter.Machine.ExecuteMov` | crates/exbawks-cpu/src/exec.rs:1201-1212 | MOV commits the specified state, or changes nothing. |
| `Interpreter.Machine.ExecuteWiden` | crates/exbawks-cpu/src/exec.rs:1214-1236 | MOVZX and MOVSX commit the specified state, or change nothing. |
| `Interpreter.Machine.ExecuteLea` | crates/exbawks-cpu/src/exec.rs:1238-1246 | LEA commits the specified state, or changes nothing. |
| `Interpreter.Machine.ExecuteXchg` | crates/exbawks-cpu/src/exec.rs:1248-1263 | Both writes happen or neither. |
| `Interpreter.Machine.ExecuteXadd` | crates/exbawks-cpu/src/exec.rs:1265-1293 | The memory write comes first, so a fault changes nothing; the result is that of the architectural order. |
| `Interpreter.Machine.ExecuteCmpxchg` | crates/exbawks-cpu/src/exec.rs:1295-1324 | Both outcomes write the destination; a fault in either changes nothing. |
| `Interpreter.Machine.ExecuteCmpxchg8b` | crates/exbawks-cpu/src/exec.rs:1326-1358 | Both outcomes write eight bytes at once; a fault in either changes nothing. |
| `Interpreter.Machine.ExecuteShift` | crates/exbawks-cpu/src/exec.rs:1428-1534 | Shifts and rotates, zero counts included, commit the specified state, or change nothing. |
| `Interpreter.Machine.ExecuteBitTest` | crates/exbawks-cpu/src/exec.rs:1801-1857 | BT, BTS, BTR and BTC commit the specified state, or change nothing. |
| `Interpreter.Machine.ExecutePush` | crates/exbawks-cpu/src/exec.rs:435-445 | The stack write precedes the move of ESP, so a fault changes nothing. |
| `Interpreter.Machine.ExecutePop` | crates/exbawks-cpu/src/exec.rs:586-601 | A destination relative to ESP sees the moved stack pointer, and a fault restores it. |
| `Interpreter.Machine.ExecutePushad` | crates/exbawks-cpu/src/exec.rs:602-625 | All eight registers are pushed or none. |
| `Interpreter.Machine.ExecutePopad` | crates/exbawks-cpu/src/exec.rs:626-647 | All registers but ESP are restored from the frame, or nothing changes. |
| `Interpreter.Machine.ExecuteBranch` | crates/exbawks-cpu/src/exec.rs:321-432 | Jumps, calls, returns, conditional branches, LOOP and its conditional forms and JECXZ commit the specified state, of which `FlowLaws` says where it goes and what it leaves, or change nothing. |
| `Interpreter.Machine.ExecuteString` | crates/exbawks-cpu/src/exec.rs:1873-1983 | A string step commits the finished or paused state, of which `StringLaws` and `StringMemory` say what it holds; a fault keeps exactly the completed iterations. |
| `Interpreter.Machine.StepDecoded` | crates/exbawks-cpu/src/exec.rs:204-224 | Fault atomicity: an error of any instruction but a string one leaves CPU state and guest memory exactly as they were; success gives the specified state. |
| `InstructionLaws.UnaryMeans` | crates/exbawks-cpu/src/exec.rs:1360-1403 | INC, DEC, NEG and NOT leave the arithmetic result modulo the width; INC and DEC keep the carry, NEG borrows unless the operand was zero, NOT touches no flag. |
| `InstructionLaws.WidenMeans` | crates/exbawks-cpu/src/exec.rs:1214-1236 | MOVZX leaves the same unsigned number and MOVSX the same signed number at the wider width. |
| `InstructionLaws.CmpxchgMeans` | crates/exbawks-cpu/src/exec.rs:1295-1324 | The zero flag says whether the destination held the accumulator's value; it then holds the source, else it is kept and the accumulator holds it. |
| `InstructionLaws.SetccMeans` | crates/exbawks-cpu/src/exec.rs:742-772 | The destination byte is one exactly when the condition holds. |
| `InstructionLaws.CmovMeans` | crates/exbawks-cpu/src/exec.rs:742-772 | The destination holds the source exactly when the condition holds, else what it held. |
| `InstructionLaws.FrameThenLeave` | crates/exbawks-cpu/src/exec.rs:720-730 | LEAVE undoes a frame: after a push of EBP and a move of ESP to it, ESP and EBP are those before the push, wherever ESP went in between. |
| `InstructionLaws.LoopRuns` | crates/exbawks-cpu/src/exec.rs:352-370 | A LOOP to itself runs ECX times, 2^32 times for zero, stays in place until then and leaves with ECX zero and nothing else changed. |
| `Tier0Laws.PushThenLoad` | crates/exbawks-cpu/src/exec.rs:435-456 | What was pushed is on top of the stack, and popping it restores ESP. |
| `Tier0Laws.CallThenRet` | crates/exbawks-cpu/src/exec.rs:321-392 | A return right after a call resumes behind the call with every register as it was. |
| `Tier0Laws.PushadThenPopad` | crates/exbawks-cpu/src/exec.rs:602-647 | POPAD right after PUSHAD restores all eight registers. |
| `Tier0Laws.LegacyAgrees` | crates/exbawks-cpu/src/interpret.rs:89-115 | At 32 bits without carry-in the width-parametric results and flags are the register-only oracle's. |
| `Tier0Laws.TiersAgree` | crates/exbawks-cpu/src/interpret.rs:21-36 | On every register-only instruction the interpreter does what the oracle does, EIP included, and retires once. |
| `Tier0Laws.EmittedMatchesTier0` | crates/exbawks-jit/src/emit.rs:79-125 | Entering an emitted block on the image of a state leaves the image of the registers, flags and EIP that stepping the interpreter over the prefix leaves. |
| `StepLaws.AluMeans` | crates/exbawks-cpu/src/exec.rs:1133-1199 | A step of ADD, ADC, SUB, SBB, AND, OR or XOR writes to its destination the sum or difference modulo the width, with the carry flag for ADC and SBB, or the bits; CMP and TEST leave registers and memory alone; carry, parity, auxiliary, zero, sign and overflow are bits 0, 2, 4, 6, 7 and 11 and say what they should of that number, logic keeping bit 4; every other flag stays, EIP moves past and one instruction is counted. |
| `StepLaws.LogicBits` | crates/exbawks-cpu/src/exec.rs:1133-1199 | What AND, OR, XOR and TEST compute is the and, or and exclusive or of each bit. |
| `StepLaws.AddThenAdc` | crates/exbawks-cpu/src/exec.rs:1153-1199 | An ADD step and then an ADC step on the upper halves leave the 64-bit sum, carry out included. |
| `StepLaws.SubThenSbb` | crates/exbawks-cpu/src/exec.rs:1153-1199 | A SUB step and then an SBB step on the upper halves leave the 64-bit difference, borrow out included. |
| `StepLaws.ConditionsMean` | crates/exbawks-cpu/src/exec.rs:812-837 | After a CMP step each relational condition is met exactly when the operands are so related; after TEST, equal when they share no bit and sign when both top bits are set; all sixteen conditions ask the status of the instruction before. |
| `MoveLaws.RegistersMean` | crates/exbawks-cpu/src/exec.rs:932-991 | Each register name reads its part of its register, by number: all, the low half, the low byte or the second byte. |
| `MoveLaws.RegisterSets` | crates/exbawks-cpu/src/exec.rs:993-1012 | Writing a 32-bit register sets its slot and no other. |
| `MoveLaws.WidthMeans` | crates/exbawks-cpu/src/exec.rs:1014-1026 | An operand is as wide as its register or as its access to memory; nothing else has a width. |
| `MoveLaws.AddressMeans` | crates/exbawks-cpu/src/exec.rs:879-922 | An effective address is base plus index times scale plus displacement, plus the segment's base where it counts, modulo 2^32. |
| `MoveLaws.AddressRefused` | crates/exbawks-cpu/src/exec.rs:879-930 | An address through a register that is not 32 bits wide is refused. |
| `MoveLaws.ImmediateMeans` | crates/exbawks-cpu/src/exec.rs:841-869 | An immediate operand is its number, sign-extended as its form says, modulo the width. |
| `MoveLaws.MemoryOperandMeans` | crates/exbawks-cpu/src/exec.rs:841-908 | A memory operand lies at its effective address with the segment's base. |
| `MoveLaws.NopMeans` | crates/exbawks-cpu/src/exec.rs:458-470 | NOP moves past and counts. |
| `MoveLaws.MovMeans` | crates/exbawks-cpu/src/exec.rs:1201-1212 | A MOV step writes the source's value to the destination and changes nothing else, flags included. |
| `MoveLaws.WidenSteps` | crates/exbawks-cpu/src/exec.rs:1214-1236 | MOVZX writes the source's number and MOVSX its signed number, modulo the wider width. |
| `MoveLaws.LeaMeans` | crates/exbawks-cpu/src/exec.rs:1238-1246 | LEA writes the address without a segment base. |
| `MoveLaws.XchgMeans` | crates/exbawks-cpu/src/exec.rs:1248-1263 | XCHG writes each operand's value to the other; separate operands read swapped. |
| `MoveLaws.XaddMeans` | crates/exbawks-cpu/src/exec.rs:1265-1293 | XADD writes the old destination to the source and then the sum to the destination, with the flags of the sum. |
| `MoveLaws.CmpxchgSteps` | crates/exbawks-cpu/src/exec.rs:1295-1324 | CMPXCHG writes the source, or the destination back and its value to the accumulator, with the flags of comparing accumulator and destination. |
| `MoveLaws.UnarySteps` | crates/exbawks-cpu/src/exec.rs:1360-1403 | INC, DEC, NEG and NOT write their number; INC and DEC keep the carry and have the other flags of adding or subtracting one, NEG those of subtracting from zero, NOT touches none. |
| `MoveLaws.CompareThenSet` | crates/exbawks-cpu/src/exec.rs:742-772 | After CMP, SETcc writes one exactly when the operands are so related, else zero. |
| `MoveLaws.CompareThenMove` | crates/exbawks-cpu/src/exec.rs:742-772 | After CMP, CMOVcc moves exactly when the operands are so related. |
| `ShiftLaws.ShiftMeans` | crates/exbawks-cpu/src/exec.rs:1416-1534 | A shift or rotate step by the immediate or CL modulo 32 writes the operand with every bit taken from the place the operation says, the carry going along for RCL and RCR; the carry flag is the bit that left, overflow after a count of one says that the sign changed, parity, zero and sign follow the number for shifts and stay for rotates, SHL and SHR by the width or more keep the carry, a count of zero writes the operand back. |
| `ShiftLaws.BitTestMeans` | crates/exbawks-cpu/src/exec.rs:1801-1857 | A bit test step puts the named bit, of a register, of memory or of the bit string around an address, into the carry and keeps every other flag; BTS sets it, BTR clears it, BTC flips it, and no other bit changes. |
| `FlowLaws.JccMeans` | crates/exbawks-cpu/src/exec.rs:376-402 | A conditional jump goes to its target or to the next instruction and changes nothing else. |
| `FlowLaws.CompareThenJump` | crates/exbawks-cpu/src/exec.rs:376-402 | After CMP, Jcc goes to its target if the operands are so related and to the next instruction otherwise. |
| `FlowLaws.TestThenJump` | crates/exbawks-cpu/src/exec.rs:376-402 | After TEST, JE jumps exactly when the operands share no bit and JS exactly when both are negative. |
| `FlowLaws.LoopMeans` | crates/exbawks-cpu/src/exec.rs:352-370 | LOOP counts ECX down modulo 2^32 and jumps while it is not zero, LOOPE and LOOPNE only with the zero flag set or clear. |
| `FlowLaws.CompareThenLoop` | crates/exbawks-cpu/src/exec.rs:352-370 | After CMP, LOOPE jumps while the count lasts and the operands are equal, LOOPNE while they are not. |
| `FlowLaws.JecxzMeans` | crates/exbawks-cpu/src/exec.rs:371-375 | JECXZ jumps exactly when ECX is zero. |
| `FlowLaws.TargetMeans` | crates/exbawks-cpu/src/exec.rs:404-432 | A jump or call goes to its constant, to the value of the 32-bit register it names, or to the four little-endian bytes at its effective address, and to nothing else. |
| `FlowLaws.JmpMeans` | crates/exbawks-cpu/src/exec.rs:329-333 | JMP succeeds exactly where there is such a target, goes there and changes nothing else. |
| `FlowLaws.CallMeans` | crates/exbawks-cpu/src/exec.rs:334-339 | CALL stores the address of the next instruction four bytes below ESP, moves ESP there and goes to its target. |
| `FlowLaws.RetMeans` | crates/exbawks-cpu/src/exec.rs:340-351 | RET goes to the address on top of the stack and releases four bytes and as many more as its operand says. |
| `FlowLaws.CallThenReturn` | crates/exbawks-cpu/src/exec.rs:334-351 | A call and a return that succeeds resume behind the call, with ESP back where it was and the operand's bytes released. |
| `FlowLaws.PushMeans` | crates/exbawks-cpu/src/exec.rs:435-585 | PUSH stores its operand, sign-extended bytes and ESP before the move included, below the stack and moves ESP there. |
| `FlowLaws.PopMeans` | crates/exbawks-cpu/src/exec.rs:586-601 | POP writes the number on top of the stack to the operand found once ESP has moved. |
| `FlowLaws.PushThenPop` | crates/exbawks-cpu/src/exec.rs:569-601 | A PUSH and a POP of one width that succeed write the pushed number to the operand, found with ESP back where it was. |
| `FlowLaws.PushadMeans` | crates/exbawks-cpu/src/exec.rs:602-625 | PUSHAD stores the eight registers below the stack, EDI lowest, ESP as it was before. |
| `FlowLaws.PushadThenPopadSteps` | crates/exbawks-cpu/src/exec.rs:602-647 | PUSHAD and a POPAD that succeeds leave every register as it was. |
| `FlowLaws.LeaveMeans` | crates/exbawks-cpu/src/exec.rs:720-730 | LEAVE takes EBP from where it points and leaves ESP four bytes above that. |
| `StringOps.ChunkRefines` | crates/exbawks-cpu/src/exec.rs:1913-1931 | A chunk of at most n iterations is a prefix of the unbounded repeat, and a pause has made n iterations of progress. |
| `StringOps.UnmovedIsPaused` | crates/exbawks-cpu/src/exec.rs:1913-1983 | After a step that did not fault EIP is unmoved exactly when the repeat paused; ECX has then dropped by 65,536 and the next step plans alike. |
| `StringOps.ChunkingRefines` | crates/exbawks-cpu/src/exec.rs:1873-1983 | Stepping while EIP stays, each step planned anew, gives the registers, flags and memory of the unbounded repeat; a fault leaves the state after the completed iterations with EIP unmoved; only the time-stamp counter differs. |
| `StringOps.SingleElement` | crates/exbawks-cpu/src/exec.rs:1913-1931 | Without a repeat prefix one step is the whole instruction. |
| `Interpreter.Machine.RunStringUntilMoved` | crates/exbawks-cpu/src/exec.rs:1873-1983 | The in-place steps, repeated while EIP stays, end in the state `ChunkingRefines` speaks of. |
| `StringOps.RepTrace` | crates/exbawks-cpu/src/exec.rs:1920-1980 | The repeat leaves the state after exactly k iterations and ends because ECX ran out, the zero flag stopped it, or iteration k+1 faults. |
| `StringOps.PointersMove` | crates/exbawks-cpu/src/exec.rs:1934-1971 | After k iterations the index registers moved k elements in the direction of travel. |
| `StringMemory.StosFills` | crates/exbawks-cpu/src/exec.rs:1947-1951 | After k iterations of STOS, at any width and in either direction, every destination byte so far holds its byte of the accumulator, however pages alias. |
| `StringMemory.MovsCopies` | crates/exbawks-cpu/src/exec.rs:1941-1946 | After k iterations of MOVS that load each byte before it is overwritten, at any width and in either direction, every destination byte so far is the source byte it stands for. |
| `StringOverlap.OverlapCopies` | crates/exbawks-cpu/src/exec.rs:1941-1946 | Overlapping ranges with the destination behind the source in the direction of travel are a true copy. |
| `StringOverlap.MovsRepeats` | crates/exbawks-cpu/src/exec.rs:1941-1946 | With the destination m elements ahead, every destination element j is source element j modulo m: a repeating pattern. |
| `StringMemory.StoresFrame` | crates/exbawks-cpu/src/exec.rs:1941-1951 | A byte of RAM no element so far stores to is as it was. |
| `StringMemory.ScanStops` | crates/exbawks-cpu/src/exec.rs:1957-1980 | A repeated SCAS or CMPS ends at the first element that compares equal under REPNE, unequal under REPE, unless ECX runs out or an element faults first. |
| `StringLaws.PlanMeans` | crates/exbawks-cpu/src/exec.rs:1873-1912 | An instruction is accepted exactly when its operands are the operation's own; operation, width, repeat and source segment are what its fields say, the destination segment is ES. |
| `StringLaws.AddressesMean` | crates/exbawks-cpu/src/exec.rs:1913-1971 | Element j is at the segment's base plus ESI or EDI plus j widths, down when the direction flag is set, modulo 2^32. |
| `StringLaws.IterationCompares` | crates/exbawks-cpu/src/exec.rs:1957-1971 | After iteration j of SCAS or CMPS every flag and relational condition is that of comparing the accumulator or source element j with destination element j. |
| `StringLaws.StringCompares` | crates/exbawks-cpu/src/exec.rs:1957-1983 | So after the whole instruction, stepped until EIP moves, for the last element compared, repeated or not. |
| `StringLaws.LodsLoads` | crates/exbawks-cpu/src/exec.rs:1952-1956 | After iteration k of LODS the accumulator is element k at its width, and the rest of EAX, flags and memory are as they were. |
| `StringLaws.StringLoads` | crates/exbawks-cpu/src/exec.rs:1952-1983 | After the whole instruction EAX holds the last element so loaded. |
| `StringLaws.RegistersMoveOn` | crates/exbawks-cpu/src/exec.rs:1934-1980 | After k iterations ECX is k less, ESI and EDI have moved k elements where the operation uses them, and no other register changed, EAX only by LODS, flags only by comparing, memory only by storing. |
| `StringLaws.SingleIsFirst` | crates/exbawks-cpu/src/exec.rs:1913-1931 | Without a repeat prefix a step is a first iteration that leaves ECX and moves past. |
| `BitStrings.BitStringReads` | crates/exbawks-cpu/src/exec.rs:1801-1857 | With a register index over memory the carry becomes bit `index` of the bit string around the base, negative indexes included, and other flags stay. |
| `BitStrings.BitStringWrites` | crates/exbawks-cpu/src/exec.rs:1801-1857 | BTS, BTR and BTC change exactly that bit: the other seven bits of its byte and every other byte of RAM stay. |
| `BitStrings.FormsAgree` | crates/exbawks-cpu/src/exec.rs:1801-1857 | The 16-bit and 32-bit forms agree on every index both can express. |
| `WriteAccounting.StoreAccounts` | crates/exbawks-memory/src/access.rs:31-44 | A guest store counts a write against every physical page it changes a byte of, through any alias. |
| `WriteAccounting.StepAccounts` | crates/exbawks-cpu/src/exec.rs:296-317 | Every modelled instruction but a string one, whatever its operands, changes memory only by accounted writes and leaves the page table. |
| `WriteAccounting.StringAccounts` | crates/exbawks-cpu/src/exec.rs:1873-1983 | So does a string step, finished, paused or faulted. |
| `InstructionCache.DecodeOne` | crates/exbawks-cpu/src/exec.rs:266-294 | The retry loop fetches to the page end, and past it only when the decoder runs out of bytes; it computes `DecodeAt`. |
| `FetchLaws.DecodeMeans` | crates/exbawks-cpu/src/exec.rs:266-294 | Where fifteen bytes can be fetched an instruction is what the decoder makes of them, wherever the page ends. |
| `FetchLaws.DecodeWithin` | crates/exbawks-cpu/src/exec.rs:266-294 | An instruction decided by the bytes up to the page's end needs nothing past it, and a fault fetching those is the error. |
| `FetchLaws.FailedStep` | crates/exbawks-cpu/src/exec.rs:204-224 | A step that fails on its instruction leaves the machine as it was, but for a repeated string instruction, which keeps exactly the iterations before the one that faults. |
| `InstructionCache.Cache.constructor` | crates/exbawks-cpu/src/cache.rs:64-66 | Every slot starts empty. |
| `InstructionCache.Cache.Get` | crates/exbawks-cpu/src/cache.rs:78-95 | Finds the slot's instruction exactly when the tag matches and every stamped page is the same physical page at the same generation. |
| `InstructionCache.Cache.Put` | crates/exbawks-cpu/src/cache.rs:98-124 | Replaces the slot with the instruction and the stamps of its pages, unless one is not RAM. |
| `CacheTransparency.HitExact` | crates/exbawks-cpu/src/cache.rs:72-95 | For an entry recorded earlier whose own pages were not written a positive multiple of 65,536 times since, and not over the top: the fresh decode gives the cached instruction if and only if its pages can still be fetched from, and never another. |
| `CacheTransparency.CachedDecodeExact` | crates/exbawks-cpu/src/exec.rs:172-180 | Over a whole sound cache the cached decode is the fresh one if and only if the hit is a real entry whose pages can be fetched from. |
| `CacheTransparency.CachedStepSound` | crates/exbawks-cpu/src/exec.rs:166-182 | A cached step, whatever it hits, keeps every slot sound for the memory it was recorded in. |
| `CacheTransparency.CachedStepAgrees` | crates/exbawks-cpu/src/exec.rs:166-182 | A cached step is the uncached step, state and error, when its hit is usable. |
| `CachedRuns.CachedRunAgrees` | crates/exbawks-cpu/src/exec.rs:154-182 | For every interleaving of steps, failed ones included, and outside changes to any register, page or byte: if each hit taken is usable then, the cached run is the uncached run, final state and every outcome. |
| `CachedRuns.RemapsAllowed` | crates/exbawks-cpu/src/exec.rs:154-182 | A remap or protection, with any change to the CPU state, may come between steps and asks nothing by itself. |
| `CachedRuns.DecodingRunAgrees` | crates/exbawks-cpu/src/exec.rs:154-182 | The same asking only that instructions decode afresh, under any remapping. |
| `CachedRuns.CodeKeptRunAgrees` | crates/exbawks-cpu/src/exec.rs:154-182 | The same for runs that may reach code that cannot be fetched or decoded, as long as outside changes revoke no page. |
| `CacheTransparency.NewCacheSound` | crates/exbawks-cpu/src/cache.rs:61-66 | A new cache is sound for any memory. |
| `CacheTransparency.StepCached` | crates/exbawks-cpu/src/exec.rs:166-182 | The in-place cached step leaves machine, cache and result of the specified cached step. |
| `CacheLimits.PutThenGet` | crates/exbawks-cpu/src/cache.rs:98-124 | A decode just recorded is found again. |
| `CacheLimits.MissThenHit` | crates/exbawks-cpu/src/exec.rs:172-180 | A decode that missed is recorded, so that the next lookup in the same memory finds it, if its pages are RAM. |
| `CacheLimits.StoreInvalidates` | crates/exbawks-cpu/src/cache.rs:72-95 | A store of up to 128 MiB through any alias of a stamped page makes the entry miss. |
| `CacheLimits.EmptySlotHits` | crates/exbawks-cpu/src/cache.rs:24-26 | A new cache answers for the last address, and its answer is never the fresh decode. |
| `CacheLimits.RevokedPageHits` | crates/exbawks-cpu/src/cache.rs:87-89 | A page protected against execution after its decode still hits while a fresh decode faults. |
| `CacheLimits.GenerationComesRound` | crates/exbawks-cpu/src/cache.rs:90-92 | After n stores to its byte an overwritten instruction still hits exactly when n is a multiple of 65,536. |
| `CacheLimits.TopIsStale` | crates/exbawks-cpu/src/cache.rs:102-104 | An instruction over the top of the address space is stale after a write to its second page. |
| `AddressSpace.SoftwareAddressSpace.New` | crates/exbawks-memory/src/software.rs:55-79 | Accepts exactly whole pages up to 4 GiB; a new space maps nothing and has all its pages. |
| `AddressSpace.SoftwareAddressSpace.MapAnonymous` | crates/exbawks-memory/src/software.rs:165-181 | Maps the whole run to the next physical pages exactly when enough are left and none of the run is mapped, else changes nothing; the pages show what RAM holds there, so zeros while RAM past the cursor is zero. |
| `AddressSpace.SoftwareAddressSpace.Write` | crates/exbawks-memory/src/software.rs:293-320 | Writes every byte exactly when every touched page is writable, else changes nothing; on private pages exactly the addressed bytes change, and through the window exactly the bytes mapped to the physical bytes written. |
| `AddressSpace.SoftwareAddressSpace.Protect` | crates/exbawks-memory/src/page_table.rs:329-353 | Sets the run's permissions exactly when all of it is mapped; otherwise changes nothing. |
| `AddressSpace.SoftwareAddressSpace.MapPhysicalWindow` | crates/exbawks-memory/src/software.rs:96-100 | The window shows physical byte a at 0x80000000 + a, all of RAM a second time, and disturbs no private page; refused exactly when it does not fit or part of it is mapped. |
| `SpaceView.LoadShows` | crates/exbawks-memory/src/software.rs:293-320 | A read of private pages through the page table gives the bytes of the view, exactly when every touched page allows the access. |
| `SpaceView.StoreShows` | crates/exbawks-memory/src/software.rs:384-404 | A store through the page table to private pages, of any length, changes the view by exactly its bytes. |
| `SpaceView.MapShows` | crates/exbawks-memory/src/page_table.rs:233-270 | Mapping a free run to the next physical pages adds to the view what RAM holds there and keeps every other byte. |
| `SpaceView.ProtectShows` | crates/exbawks-memory/src/page_table.rs:329-353 | Changing descriptors' permissions changes only those in the view. |
| `SpaceView.AliasShows` | crates/exbawks-memory/src/software.rs:96-100 | Aliasing all of RAM keeps every private page's bytes in the view. |
| `SpaceView.WindowStores` | crates/exbawks-memory/src/software.rs:96-100 | A write through the window changes exactly its own run of physical bytes. |
| `SpaceView.ZeroedExactly` | crates/exbawks-memory/src/software.rs:164-181 | A mapping reads as zeros if and only if the physical pages it is given are zero, wherever they come from. |
| `SpaceView.FreeKeptExactly` | crates/exbawks-memory/src/software.rs:384-404 | A write keeps RAM zero past the cursor if and only if the bytes it leaves there are zero. |
| `SpaceView.PrivateKeepsFree` | crates/exbawks-memory/src/software.rs:384-404 | So a write to private pages always does. |
| `SpaceView.WindowWriteShows` | crates/exbawks-memory/src/software.rs:164-181 | In any state, a byte written through the physical window to the page next in line is still there when that page is mapped. |
| `AddressSpace.WindowThenMap` | crates/exbawks-memory/src/software.rs:96-181 | The failure reached: a new space, its window, a one-byte write through it and a mapping show that byte, for every size of RAM that has a window. |
| `XbeLoader.RejectByteOverlap` | crates/exbawks-core/src/emulator.rs:3350-3363 | The check of sorted neighbours accepts exactly pairwise disjoint extents, and names one that overlaps another starting no later. |
| `XbeLoader.ImageExtents` | crates/exbawks-core/src/emulator.rs:3253-3326 | Accepts exactly images whose extents exist and are disjoint and gives them in order, or the first error; `XbeImage.ExtentsMean` and `XbeImage.ErrorsMean` say what that is for the image. |
| `XbeLoader.ExtentsFit` | crates/exbawks-core/src/emulator.rs:3331-3344 | Every accepted extent is non-empty, lies in the guest space and holds no more data than it spans. |
| `XbeImage.ExtentsMean` | crates/exbawks-core/src/emulator.rs:3253-3326 | Extents exist exactly for images whose window lies in the guest space and whose header and sections lie in the window and in the file; they are exactly the header and the sections that take up something, each with its own file bytes and marks, and disjoint exactly when no address belongs to two. |
| `XbeImage.ErrorsMean` | crates/exbawks-core/src/emulator.rs:3253-3326 | A refusal names the window, else the header, else the first section that is not well formed and what is wrong with it. |
| `XbeImage.CoveredMeans` | crates/exbawks-core/src/emulator.rs:3328-3344 | A page is covered exactly when some part has a byte on it. |
| `XbeImage.MergedMeans` | crates/exbawks-core/src/emulator.rs:3403-3424 | A covered page is executable exactly if a section on it is, and writable exactly if one on it is writable and has it as neither marked first nor marked last page. |
| `XbeMapping.CoveredPages` | crates/exbawks-core/src/emulator.rs:3371-3379 | The sorted, deduplicated list holds exactly the covered pages. |
| `XbeMapping.MapCoveredPages` | crates/exbawks-core/src/emulator.rs:3366-3400 | Mapping run by run maps exactly the covered pages, and succeeds exactly when none was mapped and physical pages suffice; a failure leaves some covered pages mapped and all else as it was. |
| `XbeMapping.RunEnd` | crates/exbawks-core/src/emulator.rs:3384-3389 | The run found is consecutive and maximal. |
| `XbeMapping.CopyData` | crates/exbawks-core/src/emulator.rs:3235-3242 | Copies the extents in order exactly when every page their data touches is writable. |
| `XbeMapping.OverlayAt` | crates/exbawks-core/src/emulator.rs:3235-3242 | Copying disjoint extents puts every byte of each at its exact address and touches no other. |
| `XbeMapping.MergePermissions` | crates/exbawks-core/src/emulator.rs:3409-3424 | Each covered page gets the union of its contributors, head and tail suppression included. |
| `XbeMapping.ApplyMergedPermissions` | crates/exbawks-core/src/emulator.rs:3403-3447 | Protecting runs of equal permission gives every covered page its union and changes no other page. |
| `XbeRefinement.MapXbe` | crates/exbawks-core/src/emulator.rs:3227-3245 | Succeeds exactly when the image is well formed, no address belongs to two parts, its pages are free and physical pages suffice. Then each header byte k is at base + k, each raw byte k of a section at its address + k; exactly the pages a part reaches are new, executable if a section on them is and writable if one is that has them as neither marked first nor marked last page; the guest reads and fetches sections accordingly; bytes around the data show the RAM handed out in page order; all else is unchanged. A malformed image is refused for its window, its header or its first bad section; a refused one changes nothing, one without room leaves at most used pages mapped. |
| `XbeRefinement.ZeroAround` | crates/exbawks-core/src/emulator.rs:3227-3245 | Those bytes are zero while RAM past the cursor was. |
| `XbeRefinement.LoadedReadable` | crates/exbawks-core/src/emulator.rs:3227-3245 | In the page table and RAM a load leaves, the guest reads each extent's data at its address, and fetches it where the extent is executable. |
| `XbeRefinement.SectionOrderIrrelevant` | crates/exbawks-core/src/emulator.rs:3227-3447 | Permuting the sections changes neither whether the image loads nor the mapping it leaves. |
| `PhysicalMemory.DwordRam.ReadDword` | crates/exbawks-core/src/emulator.rs:148-162 | At any alignment reads the four little-endian bytes of the flattened RAM, exactly when all four are in it. |
| `PhysicalMemory.DwordRam.WriteDword` | crates/exbawks-core/src/emulator.rs:164-187 | At any alignment replaces exactly those four bytes, or fails and changes nothing. |
| `PhysicalMemory.DwordRam.FillDwords` | crates/exbawks-core/src/emulator.rs:189-202 | An accepted fill equals that many single writes; a misaligned or overlong one does nothing. |
| `PhysicalMemory.StraddledBytes` | crates/exbawks-core/src/emulator.rs:156-161 | The shift-and-or join is the last bytes of one dword and the first of the next. |
| `PhysicalMemory.UnalignedWrite` | crates/exbawks-core/src/emulator.rs:177-186 | An unaligned write replaces four bytes of two dwords and keeps their other four. |
| `PhysicalMemory.SpliceReads` | crates/exbawks-core/src/emulator.rs:148-187 | A write reads back at its address and keeps every byte it does not cover. |
| `Pushbuffer.ControlRoundTrip` | crates/exbawks-gpu/src/nv2a.rs:1271-1309 | Every expressible control word decodes to what it encodes. |
| `Pushbuffer.WordRoundTrip` | crates/exbawks-gpu/src/nv2a.rs:1271-1309 | Every recognized word is the encoding of what it decodes to. |
| `ControlWords.ControlMeans` | crates/exbawks-gpu/src/nv2a.rs:1271-1309 | Which bits make a word an old jump, a jump, a call, the return word 0x00020000 or a header, and which bits are its target, count, subchannel and method. |
| `ControlWords.AlignMeans` | crates/exbawks-gpu/src/nv2a.rs:1245-1246 | GET and PUT lose exactly their two low bits. |
| `ControlWords.BudgetMeans` | crates/exbawks-gpu/src/nv2a.rs:826-828 | A word that jumps to itself is read exactly 4,194,304 times before the walk is abandoned. |
| `Pushbuffer.BudgetBounds` | crates/exbawks-gpu/src/nv2a.rs:1254-1263 | For any memory: headers within the budget, arguments within 2,047 per header, both together within the budget plus one header's arguments, and an unabandoned walk ends on PUT. |
| `Pushbuffer.AppliedWithinBudget` | crates/exbawks-gpu/src/nv2a.rs:826-828 | A submission never applies more than 4,194,302 arguments, although the last charge saturates. |
| `Pushbuffer.PushbufferEngine.ApplyMethods` | crates/exbawks-gpu/src/nv2a.rs:1315-1326 | Applies arguments in order until one cannot be read, counting each. |
| `Pushbuffer.PushbufferEngine.Submit` | crates/exbawks-gpu/src/nv2a.rs:1237-1329 | The walk terminates with the specified engine, GET and counters; it is abandoned exactly once or GET ends on the aligned PUT; applied arguments stay within the budget. |
| `PushbufferPrograms.ArgCallAt` | crates/exbawks-gpu/src/nv2a.rs:1314-1326 | Argument k of a packet goes to the same method or to the method plus 4k, wrapping at 16 bits. |
| `PushbufferPrograms.ProgramRuns` | crates/exbawks-gpu/src/nv2a.rs:1237-1329 | A program of packets, jumps, calls and returns found along the walk, within budget, is walked cleanly and makes exactly its method calls in order, even when methods change memory ahead of the walk. |
| `PushbufferPrograms.WalkReads` | crates/exbawks-gpu/src/nv2a.rs:1237-1329 | What a clean walk reads is such a program: no dword is skipped or read as two things. |
| `PushbufferPrograms.CleanExactly` | crates/exbawks-gpu/src/nv2a.rs:1250-1329 | A walk is clean if and only if some affordable program is found along it from GET to PUT. |
| `PushbufferPrograms.ProgramUnique` | crates/exbawks-gpu/src/nv2a.rs:1271-1326 | Memory reads as at most one program. |
| `PushbufferPrograms.StopsMean` | crates/exbawks-gpu/src/nv2a.rs:1250-1306 | A walk is abandoned at a dword it cannot read, on a word it does not recognize, past a return without a call, and with its budget spent wherever it is. |
| `PushbufferPrograms.BrokenHeader` | crates/exbawks-gpu/src/nv2a.rs:1314-1326 | A header whose arguments break off makes exactly the calls of those before, and the walk is abandoned at the missing one. |
| `PushbufferPrograms.BufferRoundTrip` | crates/exbawks-gpu/src/nv2a.rs:1237-1329 | Packets written one after another, wrapping or not, and submitted whole make exactly their flattened calls, every argument counted, and GET reaches PUT, if none of those calls overwrites the packets. |
| `PushbufferLayout.LayoutLaidOut` | crates/exbawks-gpu/src/nv2a.rs:1271-1329 | Words placed in one memory, with jumps by either encoding, calls and returns between the pieces, are what the walker meets when no call of the run overwrites them. |
| `PushbufferLayout.ItemCalls` | crates/exbawks-gpu/src/nv2a.rs:1271-1329 | The flat program of a layout makes the calls its structure says, subroutines at each call. |
| `PushbufferLayout.LayoutRuns` | crates/exbawks-gpu/src/nv2a.rs:1237-1329 | The round trip with control flow: a layout in one memory none of whose own calls, in the state each is made in, overwrites its words is walked cleanly exactly when the budget affords it, as it does when it has that many dwords, and then makes exactly the calls of its structure and ends on PUT. |
| `PushbufferSemaphore.AnyWordAtRisk` | crates/exbawks-gpu/src/nv2a.rs:1726-1741 | In some state a release overwrites any given word, so that words are kept is asked of a run and never of the methods. |
| `PushbufferSemaphore.ReleasesKeep` | crates/exbawks-gpu/src/nv2a.rs:1726-1741 | On the engine with semaphore releases, a run whose releases store apart from some words leaves those words alone. |
| `PushbufferSemaphore.OffsetThenRelease` | crates/exbawks-gpu/src/nv2a.rs:1726-1741 | Method 0x1D6C and then 0x1D70 store the second argument at the object's base plus the first, and change no other byte. |
| `PushbufferSemaphore.SemaphoreRuns` | crates/exbawks-gpu/src/nv2a.rs:1237-1329 | On that engine such a layout runs in full, and a last release that stores in RAM leaves its value there. |
| `PushbufferLayout.MaximumReached` | crates/exbawks-gpu/src/nv2a.rs:826-828 | The bounds are exact: a stream of full packets applies 4,194,302 arguments, reads 2,047 dwords more than its budget and ends on PUT. |
| `Swizzle.SwizzleIndex` | crates/exbawks-gpu/src/nv2a.rs:554-571 | The loop computes the interleaving of the low bits of both coordinates. |
| `Swizzle.SeparateInterleave` | crates/exbawks-gpu/src/nv2a.rs:554-571 | For all w and h every texel has its own index below 2^(w+h). |
| `Swizzle.InterleaveSeparate` | crates/exbawks-gpu/src/nv2a.rs:554-571 | Every index below 2^(w+h) is some texel's: with the line above, a bijection. |
| `Swizzle.InterleavedBits` | crates/exbawks-gpu/src/nv2a.rs:554-571 | Bit k of a coordinate lands above its own k lower bits and the other's placed before it. |
| `MipChain.LevelsStopAtOne` | crates/exbawks-gpu/src/nv2a.rs:2045-2051 | A chain has one to thirteen levels and never runs past the one-by-one level. |
| `MipChain.BoundMeans` | crates/exbawks-gpu/src/nv2a.rs:2001-2060 | A texture is bound exactly when its format is known, its object is there and its size is nonzero and at most 4,096, with a pitch if linear; base, size and layout are the registers'. |
| `MipChain.TexelBits` | crates/exbawks-gpu/src/nv2a.rs:554-664 | With the level's sizes 2^a and 2^b, bit k of x is bit k + min(k, b) of the texel's index and bit k of y bit k + min(k + 1, a); indexes are dwords from the level's offset, and levels are 4 * 2^(a + b) bytes apart. |
| `MipChain.TexelInSlice` | crates/exbawks-gpu/src/nv2a.rs:594-664 | A texel's four bytes lie in its own level's slice. |
| `MipChain.TexelsDistinct` | crates/exbawks-gpu/src/nv2a.rs:594-664 | Distinct texels of a chain have distinct addresses, even where addresses wrap. |
| `MipChain.TexelBetweenBases` | crates/exbawks-gpu/src/nv2a.rs:594-664 | Without wrapping a texel lies between its level's base and the next. |
| `MipChain.ChainCovered` | crates/exbawks-gpu/src/nv2a.rs:602-630 | Every dword of a chain is some texel. |
| `MipChain.BlockInSlice` | crates/exbawks-gpu/src/nv2a.rs:575-615 | A compressed block lies whole in its level's slice, padded edges included. |
| `MipChain.BlocksFollow` | crates/exbawks-gpu/src/nv2a.rs:575-615 | Blocks of 8 or 16 bytes lie side by side four texels apart, rows of blocks follow one another, and the next level follows the last row. |
| `MipChain.BlocksDisjoint` | crates/exbawks-gpu/src/nv2a.rs:575-615 | Texels of different compressed blocks read disjoint bytes, across levels too. |
| `MipChain.MemoryTexture.MeasureLevels` | crates/exbawks-gpu/src/nv2a.rs:624-630 | Each level's base is the texture base plus the bytes of all earlier levels, wrapping. |
| `MipChain.MemoryTexture.SwizzledAddress` | crates/exbawks-gpu/src/nv2a.rs:659-664 | The address of a texel at the level clamped to the chain, of which `MipChain.TexelBits` says where each bit of the coordinates goes. |
| `MipChain.MemoryTexture.SwizzledTexel` | crates/exbawks-gpu/src/nv2a.rs:633-705 | The texel is the dword at that address if it lies in the texture's object and memory answers, else zero; without an alpha channel it is opaque and keeps its color. |
| `Checksums.Crc32Continue` | crates/exbawks-debug/src/png.rs:95-105 | The bit loop computes the checksum fold between two inversions. |
| `Checksums.CrcChains` | crates/exbawks-debug/src/png.rs:91-94 | Continuing the checksum of a over b is the checksum of a followed by b. |
| `Checksums.CrcByTable` | crates/exbawks-debug/src/png.rs:95-105 | The bitwise checksum is the table-driven one of section 15 of RFC 2083. |
| `Checksums.PolynomialMeans` | crates/exbawks-debug/src/png.rs:95-105 | The constant is the CRC-32 polynomial of section 3.4 of RFC 2083, terms reversed. |
| `Checksums.CrcOfOnes` | crates/exbawks-debug/src/png.rs:95-105 | The register starts at all ones and is complemented at the end: four bytes of ones give all ones. |
| `Checksums.Adler32` | crates/exbawks-debug/src/png.rs:77-84 | Reducing after every byte gives the closed-form sums of section 8.2 of RFC 1950. |
| `Checksums.AdlerNext` | crates/exbawks-debug/src/png.rs:77-84 | One for no data, and one more byte adds to both halves modulo 65,521, as section 8.2 of RFC 1950 has it. |
| `Png.FilterRows` | crates/exbawks-debug/src/png.rs:20-31 | The scanlines are the buffer cut or zero-padded, a zero filter byte before each. |
| `Png.ZlibStored` | crates/exbawks-debug/src/png.rs:44-64 | The block loop writes the header, stored blocks of at most 65,535 bytes with only the last final, and the Adler sum. |
| `Png.WriteChunk` | crates/exbawks-debug/src/png.rs:67-74 | Appends length, type, data and the checksum of type and data. |
| `Png.EncodeRgba` | crates/exbawks-debug/src/png.rs:20-41 | The file is signature, header, one image chunk and end. |
| `PngRoundTrip.ChunkRoundTrip` | crates/exbawks-debug/src/png.rs:67-74 | A written chunk is read back unless longer than the format allows. |
| `PngRoundTrip.ChunkMeans` | crates/exbawks-debug/src/png.rs:67-74 | A chunk is its length and checksum, most significant byte first, around its letters and data, the checksum that of letters and data together. |
| `PngRoundTrip.FileMeans` | crates/exbawks-debug/src/png.rs:20-41 | A file has the PNG signature, an IHDR chunk of 13 bytes with width, height, 8 bits and RGBA, an IDAT chunk with a zlib stream and ends with an empty IEND chunk. |
| `PngRoundTrip.ScanlineMeans` | crates/exbawks-debug/src/png.rs:22-31 | Line r of the picture is a zero byte and then pixel bytes from r times the stride, zeros where there are none. |
| `PngRoundTrip.ZlibRoundTrip` | crates/exbawks-debug/src/png.rs:44-64 | The reference inflater returns the data of every stream, empty and multi-block ones included. |
| `PngRoundTrip.ScanlinesRoundTrip` | crates/exbawks-debug/src/png.rs:22-31 | Removing the filter bytes returns the pixels cut or padded. |
| `PngRoundTrip.StreamLengthIs` | crates/exbawks-debug/src/png.rs:20-64 | The stream is as long as the dimensions say, whatever the pixels. |
| `PngRoundTrip.RoundTrip` | crates/exbawks-debug/src/png.rs:20-41 | For all dimensions whose stream fits 32 bits: the reference decoder returns the pixels cut or padded if neither dimension is zero, both are below 2^31 and the stream is, and refuses the file otherwise. |
| `PngRoundTrip.EmptyRefused` | crates/exbawks-debug/src/png.rs:20-41 | A file of width or height zero is refused. |
| `PngRoundTrip.LargeRefused` | crates/exbawks-debug/src/png.rs:20-41 | A file of 32,768 by 16,384 pixels is refused. |
| `FrameDigest.Digest` | crates/exbawks-debug/src/golden.rs:19-35 | The text is the sixteen digits of FNV-1a over width, height and pixels. |
| `FrameDigest.DigitsMean` | crates/exbawks-debug/src/golden.rs:19-35 | The text is the hash in lower-case hexadecimal, most significant digit first. |
| `FrameDigest.KnownHashes` | crates/exbawks-debug/src/golden.rs:13-25 | The hash gives the published FNV-1a values of nothing and of a zero byte. |
| `FrameDigest.EncodingMeans` | crates/exbawks-debug/src/golden.rs:26-34 | Width comes first, then height, both low byte first, then the pixels. |
| `FrameDigest.ScrambleUndone` | crates/exbawks-debug/src/golden.rs:22-25 | Multiplication by the odd prime is undone by its inverse modulo 2^64. |
| `FrameDigest.AbsorbInjective` | crates/exbawks-debug/src/golden.rs:21-25 | A step is injective in the state and in the byte. |
| `FrameDigest.OneByteChanges` | crates/exbawks-debug/src/golden.rs:19-35 | Changing exactly one absorbed byte always changes the hash. |
| `FrameDigest.DigestSensitive` | crates/exbawks-debug/src/golden.rs:19-35 | Frames whose encodings differ in exactly one byte, of a pixel or a dimension, have different digest text. |
| `FrameDigest.PixelSensitive` | crates/exbawks-debug/src/golden.rs:19-35 | Changing one byte of one pixel changes the digest text. |
| `SubmissionLog.DeviceSpace.Write` | crates/exbawks-core/src/mmio.rs:393-490 | A write reaches the interrupt state, the USB controller, or the latch, with the PUT and mailbox side effects. |
| `SubmissionLog.ValueMeans` | crates/exbawks-core/src/mmio.rs:394-397 | A write of up to four bytes writes the little-endian number they encode; of more only the first four count. |
| `SubmissionLog.HandledWrites` | crates/exbawks-core/src/mmio.rs:398-434 | The four interrupt registers clear, enable or do nothing and the USB window takes writes silently; none of them latches. |
| `SubmissionLog.LatchedWrites` | crates/exbawks-core/src/mmio.rs:435-490 | Every other write latches its value; offset 0x40 of a channel's 64 KiB window also logs the channel, its GET and the value and moves GET, and a communication base makes the page after its region known as a mailbox, once. |
| `SubmissionLog.DeviceSpace.TakeSubmissions` | crates/exbawks-core/src/mmio.rs:530-534 | Hands over everything pending and leaves nothing. |
| `SubmissionLog.GetRegister` | crates/exbawks-core/src/mmio.rs:446-462 | After any run a channel's GET register holds what its last PUT or GET write left. |
| `SubmissionLog.LogConserved` | crates/exbawks-core/src/mmio.rs:441-534 | Over every run of writes and drains: what was drained and then what is pending is what was pending and then every PUT write, once, in order, each with its channel's GET at that moment. |
| `SubmissionLog.SubmissionsChain` | crates/exbawks-core/src/mmio.rs:446-462 | With no write to GET in between, a channel's submission starts at its previous PUT. |

## Left out

- Guest instruction decoding: a parameter, of which `InstructionCache.Faithful` asks that an instruction is decided by the bytes it occupies and that exchanges have a register operand.
- Interpreter instructions outside the model: MUL, IMUL, DIV, IDIV, SHLD, SHRD, BSWAP, BSF, BSR, CPUID, RDTSC, sign extensions of the accumulator, flag and segment instructions, port I/O, x87 and SSE. The model answers `Unsupported` for them.
- EmitterProof.CompilerCorrect: executable memory and the foreign call into it are replaced by the model host, which knows the instructions the emitter uses.
- Interpreter.Machine.StepDecoded: port instructions are not modelled.
- CachedRuns.CachedRunAgrees: a hit on an entry whose pages were written a positive multiple of 65,536 times since, or that reaches over the top of the address space, or whose pages were revoked, is excluded; `CacheLimits` shows that such hits differ.
- CachedRuns.CodeKeptRunAgrees: as above, with revocation excluded beforehand instead of hit by hit.
- CacheLimits.StoreInvalidates: limited to stores of 128 MiB, more than the machine's RAM, so that one store cannot bring a generation round.
- AddressSpace.SoftwareAddressSpace.MapAnonymous: the allocator is its cursor; the pool of freed runs is not modelled.
- OperandLaws.WriteApart: two memory operands are never taken to be apart here; `StringMemory.MemoryApart` has them.
- StringOverlap.MovsRepeats: a destination ahead of the source by part of an element is left to the iteration-by-iteration statement of `RepTrace`.
- Pushbuffer.PushbufferEngine.Submit: what a method does is a parameter; statistics other than submissions, abandonments and applied dwords are left out, and the counters do not wrap.
- PushbufferPrograms.ProgramRuns: speaks, like `WalkReads` and `CleanExactly`, of the program found along the walk, which methods may change; `PushbufferLayout.LayoutRuns` has words placed beforehand.
- PushbufferSemaphore.SemaphoreRuns: the semaphore object is bound beforehand; binding it, clears and drawing, which also store, are not modelled.
- MipChain.MemoryTexture.SwizzledTexel: linear and compressed texels, and block decompression, are left out.
- PhysicalMemory.DwordRam.WriteDword: one thread; the relaxed atomics the emulator uses for rows drawn in parallel are not modelled.
- PngRoundTrip.RoundTrip: nothing is said of streams of 4 GiB or more, whose length field is truncated.
- FrameDigest.DigestSensitive: frames that differ in more than one byte may collide.
- SubmissionLog.DeviceSpace.Write: the USB controller's own state and access statistics are left out.
- Memory watch flags, the hypervisor and Windows address-space backends, kernel exports, threads, the rasterizer, shaders and combiners, the XBE parser, the translated-code cache, command-line tools and diagnostics.
