# SimpleIR amd64 back end, modelled in Dafny

This project models `SIR_AMD64Compile`, the one-pass back end of SimpleIR that
turns SIR functions into amd64 machine code. It also models the SIR data layout
that the back end reads.

The back end compiles each function in one backward pass:

- It resets its per-function tables.
- It walks the operations from last to first.
- Before each operation, it frees that operation's destination location.
- It handles `Ret`, `Add` and `Sub`.
- It moves the arguments into the calling convention's input registers.
- It writes `push rbp; mov rbp, rsp` last, at the lowest address.
- It publishes the cursor as the function's entry.

Bytes are written downwards: a cursor counts down through the caller's
executable memory, so the byte written last sits first in memory. Variables
live in a table of locations. 0 means none, a value above 0 is a register id
(RAX = 1 … R15 = 14), and a value below 0 is the index of a frame slot at
`rbp + 8 * index`. A register allocator (`SIR_AMD64GetVarIntoReg`) picks a
register for a variable in this order:

1. the destination register just freed, if it is free;
2. otherwise the lowest free register;
3. otherwise a round-robin victim, which it spills to a recycled or fresh slot.

Files and modules:

| file | module | contents |
|---|---|---|
| bytes.dfy | `Bytes` | `Option`, bytes and 16/32-bit words, little-endian encoding and decoding |
| sir.dfy | `Sir` | `include/sir.h`: instruction tags, the options byte with its two packed fields, the operand union, the function record, the calling convention, the lowest-set-bit shim |
| encoding.dfy | `Amd64Encoding` | the register table and the byte sequences that `WriteRM`, `WriteMov`, `PushPopReg` and the Add/Sub forms write, as functions of their inputs, in memory order |
| decoding.dfy | `Amd64Decoding` | a decoder for the subset of amd64 the back end writes (ModR/M and REX per sections 2.1.3, 2.1.5 and 2.2.1 of the Intel 64 and IA-32 Architectures Software Developer's Manual, Vol. 2A); the partner of the encoder |
| output.dfy | `Amd64Output` | the output buffer: memory, cursor and a sticky status; `WriteByte`, `Emit`, and the "only grows downwards" relation `Grows` |
| model.dfy | `Amd64Model` | the compile context as a value, and the allocator and driver as functions; layout of the compiled functions |
| compiler.dfy | `Amd64Compiler` | the class `CompileContext` over arrays, with one method per routine of `src/x86_64.c`; each is proved to take `old(Model())` to the state that model.dfy computes |

A failed C `assert` ends the process. The model records it as an aborted
status instead, and after that nothing more is written and no entry is
published. This covers three asserts:

- `WriteByte` when the buffer is exhausted;
- `Ret` when the return variable already has a location;
- an argument beyond the register window.

Three behaviours of `src/x86_64.c` are modelled as the code has them:

- The code pushes no callee-saved registers, although both calling
  conventions require rbx, rbp and r12–r15 (and rdi and rsi on Windows) to be
  preserved. The prologue is only `55 48 89 E5`.
- Tags other than Ret/Add/Sub, including multiply, divide and mod, write
  nothing and fail nothing.
- The allocator does not keep "free registers = registers with no resident
  variable":
  - `Ret` pins RAX without evicting;
  - `CurrentRegsVar` uses 0 both for "empty" and for variable 0.

  The model states only what the code maintains (`Amd64Model.Valid`).

Several of the code's quirks are modelled as written and exhibited by lemmas:

- widths are compared on two scales;
- the variable form writes a register id into the ModR/M reg field and emits
  no REX;
- the word prefix is 0x67, not 0x66;
- the REX literal for push/pop is 0x21;
- an argument with no location is stored to `[rbp+0]`;
- the free-slot cursor outlives the per-function reset.

## Model

| member | source | states |
|---|---|---|
| `Bytes.LeBytes` | src/x86_64.c:59-62 | the little-endian bytes of a value, least significant first, have exactly the requested count |
| `Bytes.LeValue` | src/x86_64.c:59-62 | the unsigned value of a byte string is below 256 to the power of its length |
| `Bytes.SignedValue` | src/x86_64.c:54 | the two's-complement value of a non-empty byte string lies in the signed range of its width |
| `Bytes.LeValueOfLeBytes` | src/x86_64.c:59-62 | reading back the bytes written for `x` gives `x` modulo 256^n (truncation to the written width) |
| `Bytes.SignedRoundTrip` | src/x86_64.c:54-62 | a displacement that fits the signed range of n bytes is read back exactly from its n little-endian bytes |
| `Bytes.UnsignedRoundTrip` | src/x86_64.c:228-235 | the four bytes written for a 32-bit immediate read back as the same immediate |
| `Sir.Code` | include/sir.h:20-61 | every tag's code is below `SIR_Instruction_Count` (34) |
| `Sir.CodeRoundTrip` | include/sir.h:20-61 | decoding the code of a tag gives back that tag |
| `Sir.CodesAreConsecutive` | include/sir.h:20-61 | a byte names a tag exactly when it is below 34, and then it is that tag's code: the tags are numbered 0..33 without gaps |
| `Sir.NamedCodesRoundTrip` | include/sir.h:20-61 | a byte that names a tag is below 34 and is that tag's code |
| `Sir.CodesBelowCountAreNamed` | include/sir.h:20-61 | every byte below 34 names a tag |
| `Sir.WidthIndex` | include/sir.h:73-74 | the unpacked width `(options & 0xF0) >> 4` is below 16 |
| `Sir.OptionsRoundTrip` | include/sir.h:70-80 | packing an operand type and a pre-shifted width and unpacking gives both back, and unpacking then repacking gives back any options byte |
| `Sir.UnpackedWidthScale` | include/sir.h:75-80 | an unpacked width (0..15) never equals `SIR_DWORD`, `SIR_WORD` or `SIR_BYTE`; it equals `SIR_QWORD` exactly when the high nibble is 0; options 0 means exactly a QWORD variable operand |
| `Sir.UnionViews` | include/sir.h:88-94 | `OperandDW2` and the pair `OperandW2`/`OperandW3` are two views of the same four bytes, each determining the other |
| `Sir.ConventionRoundTrip` | include/sir.h:63-68 | the calling-convention selector has exactly the two values 0 (System V) and 1 (Windows), and code and value convert both ways |
| `Sir.Ctz` | include/sir.h:8-12 | for a non-zero mask, the result is a set bit and no set bit is lower |
| `Sir.LowestSetBitFrom` | include/sir.h:8-12 | the result is the lowest set bit at or above the starting index |
| `Amd64Encoding.Enc` | src/x86_64.c:25-27 | the table entry of a register is a three-bit field |
| `Amd64Encoding.HwNum` | src/x86_64.c:6-27 | a register's hardware number (REX extension bit and table entry) is below 16 |
| `Amd64Encoding.RegisterNumbering` | src/x86_64.c:6-27 | register ids map one-to-one onto hardware numbers, never onto rsp or rbp; RAX, RCX, RDX, RBX, RSI and RDI get 0, 1, 2, 3, 6 and 7; R8..R15 get 8..15 |
| `Amd64Encoding.RmBytes` | src/x86_64.c:49-64 | `WriteRM` writes one ModR/M byte plus as many displacement bytes as the mode and width select: none for a register (mod 11); one for mod 01, or for BYTE width under mod 10; otherwise, under mod 10, two for WORD and four for any other width |
| `Amd64Encoding.ModRmByte` | src/x86_64.c:50-53 | the byte holds rm in bits 0-2 and the low three bits of reg in bits 3-5; its top two bits are the mode, except that a reg of 8 or more sets the mode's low bit |
| `Amd64Encoding.DisplacementCount` | src/x86_64.c:55-57 | at most four displacement bytes are written, and none exactly in register mode (11) |
| `Amd64Encoding.MovBytes` | src/x86_64.c:66-81 | a move is at most two prefix and REX bytes, then the load or store opcode of the width, then one ModR/M byte and the displacement bytes its mode and width select |
| `Amd64Encoding.PushPopBytes` | src/x86_64.c:83-93 | push/pop is one byte, or two for R8..R15, and ends with 0x50 (push) or 0x58 (pop) plus the register's table entry |
| `Amd64Encoding.ArithVarBytes` | src/x86_64.c:216-221 | the variable form is opcode 01 (Add) or 2B (Sub), one ModR/M byte and the destination's displacement bytes, with no prefix |
| `Amd64Encoding.ArithImmBytes` | src/x86_64.c:226-250 | the immediate form is one to three prefix, REX and opcode bytes, then one ModR/M byte, the destination's displacement bytes and the immediate bytes of the width |
| `Amd64Encoding.Optional` | src/x86_64.c:75-80 | a conditional prefix is one byte when present and none otherwise |
| `Amd64Encoding.IndexWidthForms` | src/x86_64.c:208-253 | with the unpacked width the driver passes, the immediate is always four bytes, the move opcodes are always 0x8B/0x89, and no Add/Sub immediate form starts with 0x67 |
| `Amd64Decoding.ModRmFields` | src/x86_64.c:50-53 | the ModR/M byte built from mode, reg and rm splits back into the same three fields |
| `Amd64Decoding.RmRoundTrip` | src/x86_64.c:49-64 | the bytes `WriteRM` writes decode to the register operand, or to `[rbp + 8*target]` with the same displacement |
| `Amd64Decoding.RexBits` | src/x86_64.c:72-74 | REX = 0x40 + 8W + 4R + B yields back each of W, R and B |
| `Amd64Decoding.DecodeAfterRex` | src/x86_64.c:72-77 | a leading REX byte is consumed as a prefix, and without one the opcode is read at offset 0 with an empty REX |
| `Amd64Decoding.DecodeRegRm` | src/x86_64.c:66-71 | an 01/2B/88..8B opcode followed by a ModR/M form decodes as a register/memory instruction of that length |
| `Amd64Decoding.DecodeImm32` | src/x86_64.c:226-242 | an 0x81 opcode followed by a ModR/M form and four bytes decodes as an immediate instruction with those bytes as a signed 32-bit immediate |
| `Amd64Decoding.MovRoundTrip` | src/x86_64.c:66-81 | every move `WriteMov` writes, of an unpacked width, decodes to a load (8B) or store (89) between the register and the same register or frame slot, with REX.W exactly for QWORD and nothing more |
| `Amd64Decoding.MovRexBits` | src/x86_64.c:72-74 | the move's REX is a REX byte with W exactly for QWORD, R exactly for a register of R8..R15 and B exactly for an r/m register of R8..R15 |
| `Amd64Decoding.MovModRm` | src/x86_64.c:70 | the ModR/M bytes of a move, with the REX bits, decode to the register's hardware number and the operand's location |
| `Amd64Decoding.MovLayout` | src/x86_64.c:66-81 | in memory a move is: REX unless it is 0x40, then the opcode (8B load or 89 store for an unpacked width), then the ModR/M and displacement bytes |
| `Amd64Decoding.DecodeRegRmForm` | src/x86_64.c:66-81 | an optional REX, an 01/2B/88..8B opcode and ModR/M bytes decode as one register/memory instruction whose length is the bytes' length |
| `Amd64Decoding.ArithImmRoundTrip` | src/x86_64.c:226-250 | every Add/Sub immediate form of an unpacked width decodes to opcode 0x81 with reg field /0 (Add) or /5 (Sub), the destination's location, REX.W exactly for QWORD and the immediate as written |
| `Amd64Decoding.ImmRexBits` | src/x86_64.c:243-244 | the immediate form's REX has W exactly for QWORD and B exactly for a destination of R8..R15 |
| `Amd64Decoding.ImmModRm` | src/x86_64.c:238-240 | the ModR/M bytes of the immediate form decode to the /0 or /5 extension and the destination's location |
| `Amd64Decoding.DecodeImmForm` | src/x86_64.c:231-250 | an optional REX, 0x81, ModR/M bytes and four immediate bytes decode as one immediate instruction of exactly that length |
| `Amd64Decoding.ArithImmLayout` | src/x86_64.c:231-250 | in memory the immediate form of an unpacked width is: REX unless 0x40, 0x81, the ModR/M and displacement bytes, then the four immediate bytes |
| `Amd64Decoding.ImmediateRoundTrip` | src/x86_64.c:228-235 | the four immediate bytes read back, signed, as the 32-bit value reinterpreted as two's complement |
| `Amd64Decoding.ArithVarAsWritten` | src/x86_64.c:211-221 | the variable form decodes to opcode 01 (Add) or 2B (Sub) with no REX and the register *id* of operand 2 in the reg field, not its hardware number |
| `Amd64Decoding.ArithVarNamesWrongRegister` | src/x86_64.c:220 | no register's id equals its hardware number, so the variable form always names a different register than the allocator chose |
| `Amd64Decoding.ArithVarWideIdCounterexample` | src/x86_64.c:220 | with operand 2 in R9 (id 8) and the destination in a slot, the id overflows into the mode bits: the 6 bytes decode as a 2-byte `add ebp, eax` |
| `Amd64Decoding.PushPopRoundTrip` | src/x86_64.c:83-87 | push/pop of a register below R8 is one byte 0x50/0x58 plus its table entry, decoding to push/pop of that register |
| `Amd64Decoding.PushPopExtensionIsNotRex` | src/x86_64.c:88-92 | for R8..R15 the extension byte 0x21 is not a REX prefix, and the sequence does not decode |
| `Amd64Decoding.FrameSequences` | src/x86_64.c:95-98 | the exit bytes decode as `pop rbp; ret`, and the prologue bytes at lines 285-290 decode as `push rbp; mov rbp, rsp` |
| `Amd64Decoding.WordWidthCounterexample` | src/x86_64.c:78-80 | a WORD move starts with 0x67, the address-size prefix, not 0x66, the operand-size prefix; for a disp32 slot it writes two displacement bytes where mod 10 announces four, so the load from slot -17 does not decode |
| `Amd64Output.WriteByte` | src/x86_64.c:42-47 | a byte write steps the cursor down by one, stores the byte at the new cursor and keeps every other cell; at cursor 0 it fails instead; after a failure it does nothing |
| `Amd64Output.Emit` | src/x86_64.c:42-47 | a run of byte writes keeps the buffer's size and a cursor within it |
| `Amd64Output.Fail` | src/x86_64.c:197 | a failed assertion keeps memory and cursor, stops the run, and leaves an earlier failure as it was |
| `Amd64Output.EmitPlacesBytes` | src/x86_64.c:42-47 | writing a run places it, in reverse order of writing, directly below the cursor when it fits; otherwise the top `cursor` bytes are written and the run fails; after a failure nothing changes |
| `Amd64Output.EmitAfterAbort` | src/x86_64.c:45 | nothing is written after a failure |
| `Amd64Output.EmitFits` | src/x86_64.c:42-47 | a run that fits lands exactly below the old cursor, above it nothing changes, and the cursor drops by its length |
| `Amd64Output.EmitFitsPointwise` | src/x86_64.c:42-47 | cell by cell: run byte k lands at `cursor - |run| + k`, and every cell outside that window is unchanged |
| `Amd64Output.EmitOverflows` | src/x86_64.c:44-46 | a run longer than the cursor fails with the buffer exhausted, the cursor at 0 and the top `cursor` bytes written |
| `Amd64Output.EmitConcat` | src/x86_64.c:42-47 | writing run a then run b is writing b ++ a at once (memory order is reverse writing order) |
| `Amd64Output.GrowsReflexive` | src/x86_64.c:42-47 | the buffer's "only grows downwards" relation is reflexive |
| `Amd64Output.GrowsTransitive` | src/x86_64.c:42-47 | the relation is transitive |
| `Amd64Output.EmitGrows` | src/x86_64.c:42-47 | a write does not raise the cursor, keeps the buffer's size, and leaves every cell at and above the old cursor unchanged |
| `Amd64Output.WrittenBytesStay` | src/x86_64.c:42-47 | bytes written at a cursor are still there after any later downward writing, while the run has not failed |
| `Amd64Output.BytesBelowGrows` | src/x86_64.c:42-47 | bytes in place below a position stay in place under later writing |
| `Amd64Output.AboveCursorStays` | src/x86_64.c:42-47 | any window above the cursor is unchanged by later writing |
| `Amd64Model.Preferred` | src/x86_64.c:106-107 | the first candidate is the sentinel 31 or a free register |
| `Amd64Model.NextReg` | src/x86_64.c:114 | advancing the round-robin cursor stays within RAX..R15 |
| `Amd64Model.CyclicDistance` | src/x86_64.c:112-115 | the cyclic distance between two registers is below 14 |
| `Amd64Model.FirstUnmasked` | src/x86_64.c:112-115 | the eviction scan returns a register |
| `Amd64Model.FirstUnmaskedIsFirst` | src/x86_64.c:112-115 | if some register is outside the mask, the scan ends on an unmasked register no farther in cyclic order than any other unmasked one |
| `Amd64Model.NewSlotOffset` | src/x86_64.c:122-123 | a fresh slot offset is a multiple of 8 strictly below the lowest offset allocated so far |
| `Amd64Model.NewSlotIsNextBelow` | src/x86_64.c:122-124 | a fresh slot offset is 8-aligned and lies below the previous one by more than 0 and less than 16 bytes, exactly 8 when the previous one was aligned |
| `Amd64Model.Write` | src/x86_64.c:42-47 | writing changes only the output, which only grows downwards |
| `Amd64Model.WriteConcat` | src/x86_64.c:42-47 | two writes compose as one write of the runs in memory order |
| `Amd64Model.WriteOne` | src/x86_64.c:42-47 | a one-byte write of the context is the buffer's byte write |
| `Amd64Model.Assign` | src/x86_64.c:131-133 | after assignment the variable is in the register, the register's free bit is clear and it holds the variable; nothing else changes |
| `Amd64Model.TakeSlot` | src/x86_64.c:116-126 | a slot index is at or below 0; it is popped from the free-slot stack when that is non-empty, otherwise it is one fresh aligned slot below the last one allocated; only those two fields change |
| `Amd64Model.Evict` | src/x86_64.c:112-128 | the victim is the first register from `ForceOutReg` outside the mask, `ForceOutReg` moves past it, its variable is moved to the taken slot, and the reload move is written |
| `Amd64Model.GetVarIntoReg` | src/x86_64.c:100-140 | a variable already in a register gets that register with no change at all; otherwise it ends in the returned register, whose free bit is clear and which holds it |
| `Amd64Model.GetVarIntoRegChoice` | src/x86_64.c:105-129 | which register is chosen: the freed destination when its bit is set, else the lowest free register without eviction, else the first register from `ForceOutReg` outside the mask in cyclic order, with `ForceOutReg` advanced past it |
| `Amd64Model.EvictionSpills` | src/x86_64.c:112-137 | with no free register the victim's variable moves to the recycled slot, or one fresh slot below; a reload move of the victim is written, then a store from the variable's old slot when it had one |
| `Amd64Model.GetVarIntoRegState` | src/x86_64.c:100-140 | for a variable not in a register: with a free register the result is exactly the assignment plus a store from the old slot when it had one; in every case only the variable and the register's previous holder move, no other register changes owner, exactly the chosen register leaves `FreeRegs`, and the slot stack and `CurrentlyFreed` are kept |
| `Amd64Model.Reset` | src/x86_64.c:159-167 | the reset keeps the context consistent |
| `Amd64Model.ResetState` | src/x86_64.c:159-167 | after the reset the tables are zero, `ForceOutReg` is RAX and `FreeRegs` is exactly RAX..R15 plus bit 31; output, `MemStackAllocated` and `MemFreeStackCursor` carry over |
| `Amd64Model.FreeDestination` | src/x86_64.c:180-187 | the destination's location becomes `CurrentlyFreed`; a slot is pushed onto the free-slot stack (one cell changes), a register's free bit is set, a 0 changes nothing else |
| `Amd64Model.PinReturn` | src/x86_64.c:191-200 | the return variable is pinned to RAX; the run fails when the variable already had a location |
| `Amd64Model.CompileRet` | src/x86_64.c:189-202 | Ret keeps `CurrentlyFreed` and the slot stack, and unless it failed writes exactly `pop rbp; ret` |
| `Amd64Model.StoreIfMoved` | src/x86_64.c:222-224 | a store move from operand 1's register is written exactly when the destination differs from it |
| `Amd64Model.ArithVar` | src/x86_64.c:211-224 | the variable form keeps the context consistent, `CurrentlyFreed`, and never pushes a slot |
| `Amd64Model.ArithImm` | src/x86_64.c:226-254 | the immediate form keeps the context consistent, `CurrentlyFreed`, and never pushes a slot |
| `Amd64Model.CompileAddSub` | src/x86_64.c:204-256 | Add/Sub keeps the context consistent and only grows the output |
| `Amd64Model.OpStep` | src/x86_64.c:179-256 | one operation pushes at most one slot, and a Ret that does not fail writes exactly `pop rbp; ret` |
| `Amd64Model.OpsDownTo` | src/x86_64.c:178-257 | the backward pass over operations from the last down to `j` keeps the context consistent, and pushes at most one slot per operation |
| `Amd64Model.OpsDownToGrows` | src/x86_64.c:178-257 | the output after the pass down to 0 extends the output after the pass down to any `i` |
| `Amd64Model.InputRegisters` | src/x86_64.c:259-260 | the input registers of each convention are registers (RCX, RDX, R8, R9 or RDI, RSI, RDX, RCX, R8, R9) |
| `Amd64Model.ArgumentMoveBytes` | src/x86_64.c:265-274 | with the target register unoccupied the argument move is the plain QWORD store; when occupied it is longer, since save and restore through slot -1 surround it |
| `Amd64Model.ArgumentMoveDecodes` | src/x86_64.c:265-274 | the first instruction of the argument moves decodes as a QWORD store (89, REX.W, no 0x67) from the convention register's hardware number, to slot -1 when the register is occupied and to the argument's location otherwise |
| `Amd64Model.ArgStep` | src/x86_64.c:262-282 | one argument step keeps the context consistent and the slot stack |
| `Amd64Model.ArgStepEffect` | src/x86_64.c:262-282 | an argument beyond the registers only fails the run with the too-many-arguments status; otherwise the argument moves are written exactly when register and location differ, the argument loses its location, its register becomes free and unowned, and nothing else changes |
| `Amd64Model.ArgStepReleases` | src/x86_64.c:262-282 | an argument step releases its own argument and keeps earlier ones released; beyond the registers it fails the run |
| `Amd64Model.ArgsUpTo` | src/x86_64.c:261-283 | the argument loop keeps the context consistent and the slot stack |
| `Amd64Model.ArgsReleased` | src/x86_64.c:261-283 | after the loop over n arguments every argument with a register has no location and its register is free and unowned; with more arguments than registers the run has failed |
| `Amd64Model.PrologueAtCursor` | src/x86_64.c:285-291 | after the prologue, unless the run failed, `55 48 89 E5` sits at the new cursor, at least four bytes below the old one |
| `Amd64Model.PublishOut` | src/x86_64.c:285-291 | an entry is published exactly when the run has not failed; it is the final cursor, with the prologue there |
| `Amd64Model.Publish` | src/x86_64.c:285-291 | the same for the context, which otherwise keeps its slot stack |
| `Amd64Model.CompileFunction` | src/x86_64.c:157-292 | compiling one function only grows the output, publishes the entry with the prologue at it, and leaves `pop rbp; ret` just below the starting cursor, whether inserted or written by a final Ret |
| `Amd64Model.FunctionBody` | src/x86_64.c:159-283 | everything before the prologue leaves `pop rbp; ret` just below the starting cursor |
| `Amd64Model.LastOperationExits` | src/x86_64.c:169-176 | when the last operation is Ret, the first step of the backward pass writes the exit bytes (so no extra exit is inserted) |
| `Amd64Model.ExitThenGrows` | src/x86_64.c:174-202 | exit bytes written first stay in place under all later writing |
| `Amd64Model.LayoutCons` | src/x86_64.c:157-292 | a function compiled in front of others keeps the layout: entries descend, each with its prologue in place |
| `Amd64Model.InPlaceCons` | src/x86_64.c:285-291 | an entry published earlier keeps its prologue bytes under later writing |
| `Amd64Model.DescendCons` | src/x86_64.c:157-292 | each entry lies at least four bytes above every later one |
| `Amd64Model.CompileAll` | src/x86_64.c:157-292 | compiling all functions publishes one entry per function; entries lie between the cursors in descending order, each with the prologue at it; entries are a prefix ending exactly when the run fails |
| `Amd64Model.Initial` | src/x86_64.c:146-148 | the initial context is consistent, with the cursor at the end of the buffer and the two uninitialised fields at 0 |
| `Amd64Model.Compile` | src/x86_64.c:144-295 | the buffer keeps its size, there is one entry per function, and the entries are laid out as `CompileAll` states from the buffer's end |
| `Amd64Model.CodesDiffer` | include/sir.h:20-61 | distinct tags have distinct codes |
| `Amd64Model.UnimplementedTagsWriteNothing` | src/x86_64.c:189-256 | a tag other than Ret, Add and Sub writes no byte and assigns no variable |
| `Amd64Model.DeadArithmeticWritesNothing` | src/x86_64.c:205-207 | Add/Sub whose result has no location changes nothing but `CurrentlyFreed` |
| `Amd64Model.RetPinsRax` | src/x86_64.c:189-202 | Ret with one return value pins it to RAX, failing if it already had a location; either way only `pop rbp; ret` is written |
| `Amd64Model.ArithImmWrites` | src/x86_64.c:226-254 | the immediate form writes, after loading operand 1, the instruction and then a store exactly when the destination differs |
| `Amd64Model.ArithVarWrites` | src/x86_64.c:211-224 | the variable form writes, after loading both operands, the instruction and then a store exactly when the destination differs |
| `Amd64Model.ArithmeticDispatch` | src/x86_64.c:180-204 | Add/Sub frees the destination first, then dispatches on the freed location |
| `Amd64Model.ArithmeticForms` | src/x86_64.c:208-226 | the variable form is taken exactly when the whole options byte is 0 (so it is always QWORD); otherwise the immediate form for operand type 1; otherwise nothing |
| `Amd64Model.StaleFreeSlotIsZero` | src/x86_64.c:118-120 | after a reset the carried-over free-slot cursor pops a zeroed cell: slot index 0, i.e. `[rbp+0]` |
| `Amd64Model.UnusedArgumentOverwritesSavedFrame` | src/x86_64.c:264-270 | an argument with no location is stored to `[rbp+0]`, which holds the saved rbp |
| `Amd64Compiler.LeByteAt` | src/x86_64.c:59-62 | byte `i` of the little-endian bytes is `(x >> 8i) & 0xFF` |
| `Amd64Compiler.ImmBytesSplit` | src/x86_64.c:231-250 | the immediate form is the prefixes and opcode, then the ModR/M, displacement and immediate bytes |
| `Amd64Compiler.Zero` | src/x86_64.c:159-161 | `memset` leaves every cell of the table zero |
| `Amd64Compiler.OpsTraceOf` | src/x86_64.c:178-257 | the states of the backward loop start at the given context and end at `OpsDownTo(c, f, 0)` |
| `Amd64Compiler.ArgsTraceOf` | src/x86_64.c:261-283 | the states of the argument loop exist from any starting context, one argument step apart |
| `Amd64Compiler.ArgsTraceAt` | src/x86_64.c:261-283 | after k arguments the loop's trace is at `ArgsUpTo(c, conv, k)` |
| `Amd64Compiler.OpStepCases` | src/x86_64.c:179-256 | one operation frees the destination, then runs Ret, Add/Sub, or nothing, by tag |
| `Amd64Compiler.CompileContext.constructor` | src/x86_64.c:146-148 | the fresh context is the initial state over the given buffer |
| `Amd64Compiler.CompileContext.WriteByte` | src/x86_64.c:42-47 | the method performs the buffer's byte write in place |
| `Amd64Compiler.CompileContext.Fail` | src/x86_64.c:45 | the method records the failure |
| `Amd64Compiler.CompileContext.WriteLittleEndian` | src/x86_64.c:59-62 | the displacement loop writes the little-endian bytes |
| `Amd64Compiler.CompileContext.WriteRM` | src/x86_64.c:49-64 | `SIR_AMD64WriteRM` writes exactly `RmBytes` |
| `Amd64Compiler.CompileContext.WriteOptional` | src/x86_64.c:75-80 | a conditional prefix is written exactly when present |
| `Amd64Compiler.CompileContext.WriteOpcodePrefixes` | src/x86_64.c:71-80 | opcode, REX unless 0x40, and 0x67 for WORD are written in that order |
| `Amd64Compiler.CompileContext.WriteBytes` | src/x86_64.c:285-290 | a run of byte writes writes the run |
| `Amd64Compiler.CompileContext.WriteMov` | src/x86_64.c:66-81 | `SIR_AMD64WriteMov` writes exactly `MovBytes` |
| `Amd64Compiler.CompileContext.PushPopReg` | src/x86_64.c:83-93 | `SIR_AMD64PushPopReg` writes exactly `PushPopBytes` |
| `Amd64Compiler.CompileContext.WriteExitSequence` | src/x86_64.c:95-98 | `SIR_AMD64WriteExitSequence` writes `pop rbp; ret` |
| `Amd64Compiler.CompileContext.WriteMovIf` | src/x86_64.c:222-224 | a guarded move is written exactly when its guard holds |
| `Amd64Compiler.CompileContext.TakeSlot` | src/x86_64.c:117-126 | the slot allocation in place computes `Amd64Model.TakeSlot` |
| `Amd64Compiler.CompileContext.NextVictim` | src/x86_64.c:112-115 | the do-while loop returns the first unmasked register from `ForceOutReg` and leaves `ForceOutReg` just past it, changing nothing else |
| `Amd64Compiler.CompileContext.Evict` | src/x86_64.c:112-128 | eviction in place computes `Amd64Model.Evict` |
| `Amd64Compiler.CompileContext.Spill` | src/x86_64.c:116-127 | the victim's variable is moved to the taken slot |
| `Amd64Compiler.CompileContext.Assign` | src/x86_64.c:131-133 | assignment in place computes `Amd64Model.Assign` |
| `Amd64Compiler.CompileContext.GetVarIntoReg` | src/x86_64.c:100-140 | `SIR_AMD64GetVarIntoReg` in place computes `Amd64Model.GetVarIntoReg` |
| `Amd64Compiler.CompileContext.Reset` | src/x86_64.c:159-167 | the reset in place computes `Amd64Model.Reset` |
| `Amd64Compiler.CompileContext.FreeDestination` | src/x86_64.c:180-187 | freeing the destination in place computes `Amd64Model.FreeDestination` |
| `Amd64Compiler.CompileContext.CompileRet` | src/x86_64.c:189-202 | Ret in place computes `Amd64Model.CompileRet` |
| `Amd64Compiler.CompileContext.ArithVar` | src/x86_64.c:211-224 | the variable form in place computes `Amd64Model.ArithVar` |
| `Amd64Compiler.CompileContext.WriteArithImm` | src/x86_64.c:231-250 | the immediate instruction written is exactly `ArithImmBytes` |
| `Amd64Compiler.CompileContext.ArithImm` | src/x86_64.c:226-254 | the immediate form in place computes `Amd64Model.ArithImm` |
| `Amd64Compiler.CompileContext.CompileAddSub` | src/x86_64.c:204-256 | Add/Sub in place computes `Amd64Model.CompileAddSub` |
| `Amd64Compiler.CompileContext.OpStep` | src/x86_64.c:179-256 | one operation in place computes `Amd64Model.OpStep` |
| `Amd64Compiler.CompileContext.MoveArgument` | src/x86_64.c:265-274 | the argument move writes the save, the move and the restore through slot -1, the outer two only when the target is occupied |
| `Amd64Compiler.CompileContext.ArgStep` | src/x86_64.c:262-282 | one argument in place computes `Amd64Model.ArgStep` |
| `Amd64Compiler.CompileContext.ReleaseArgument` | src/x86_64.c:276-278 | the argument's location becomes 0 and its register free and unowned, nothing else changing |
| `Amd64Compiler.CompileContext.ArgumentAt` | src/x86_64.c:262-282 | one iteration moves the context one state along the argument loop's trace |
| `Amd64Compiler.CompileContext.CompileOperations` | src/x86_64.c:178-257 | the backward loop over operations in place computes `OpsDownTo(c, f, 0)` |
| `Amd64Compiler.CompileContext.OperationAt` | src/x86_64.c:179-256 | one iteration moves the context one state down the backward loop's trace |
| `Amd64Compiler.CompileContext.CompileArguments` | src/x86_64.c:261-283 | the argument loop in place computes `ArgsUpTo` |
| `Amd64Compiler.CompileContext.WritePrologue` | src/x86_64.c:285-291 | the prologue in place computes `Publish`: its entry, when published, has the prologue at it |
| `Amd64Compiler.CompileContext.CompileFunctionAt` | src/x86_64.c:158-291 | one iteration of the loop over functions moves one state down its trace and yields that function's entry |
| `Amd64Compiler.CompileContext.CompileFunction` | src/x86_64.c:158-291 | one function in place computes `Amd64Model.CompileFunction` |
| `Amd64Compiler.CompileTraceOf` | src/x86_64.c:157-292 | the states and entries of the loop over functions exist from any starting context |
| `Amd64Compiler.TraceIsCompileAll` | src/x86_64.c:157-292 | the loop's trace ends where `CompileAll` ends, with the same entries |
| `Amd64Compiler.Compile` | src/x86_64.c:144-295 | `SIR_AMD64Compile` leaves in the buffer the memory `Amd64Model.Compile` computes and returns its entries, so `CompileAll`'s layout holds of the real buffer |

## Left out

- The meaning of the emitted code (that it computes a sum, a difference, or
  returns the right value) is not modelled: that needs an amd64 execution
  semantics. The model states byte sequences, decodes them against a decoder,
  and states the allocator's state.
- The decoder covers only the forms the back end writes: the 0x67 prefix,
  REX, ModR/M with mod 01, 10 and 11, and opcodes 01, 2B, 50–5F, 80, 81,
  88–8B and C3. It rejects anything else, including mod 00, a SIB byte and
  the 0x21 byte.
- Amd64Compiler.CompileContext.CompileArguments: states the bytes and state
  updates of the argument loop (`Amd64Model.ArgStepEffect`,
  `Amd64Model.ArgsReleased`), not that the moves preserve argument values.
  The moves share slot -1 and can overwrite each other, so that would not hold.
- Amd64Model.WellFormed: requires operand indices below 4096 of every Add/Sub,
  including a dead one whose destination has no location and whose operands
  the code never reads (lines 205-207). So `Amd64Model.Compile` excludes such
  inputs, which the C accepts.
- Amd64Compiler.Compile: the store of `&ExecutableMemory[cursor]` through
  `FunctionPointerToOverride` is modelled as returning the entry's index.
- The unused parameters `OutputReadOnlyMemory`, `OutputReadOnlyMemorySize` and
  `Constants` are not modelled.
- The MSVC `_BitScanForward` wrapper and `_Thread_local` macro are
  compiler-specific. `Sir.Ctz` stands for `__builtin_ctz`.
- `int16_t` and `int32_t` storage of the tables and `MemStackAllocated`, and
  the `ptrdiff_t` cursor, are modelled as unbounded integers. A location below
  -4096 would wrap in C. Only the preconditions (operand indices below 4096)
  are kept.
- `uint32_t` masks (`FreeRegs`, `DoNotForceOutThisMask`) are modelled as sets
  of bit indices below 32, not as bit-vectors.
- Amd64Model.Initial: `MemStackAllocated` and `MemFreeStackCursor` are never
  initialised in the code. The model starts both at 0.
- Amd64Model.Preferred: `1 << CurrentlyFreed` with a negative `CurrentlyFreed`
  is undefined in C. The model reads it as "the freed location is not a free
  register".
- Amd64Model.FreeDestination: the push onto `MemFreeStack` is unchecked in the
  code. The model requires room for it, and requires a function's operations
  to fit what is left of the 4096-cell stack.
- Amd64Model.FirstUnmasked: the eviction do-while never ends when the mask
  covers every register. The model scans at most 13 steps past the first
  register and requires some register outside the mask (`Evictable`); the
  driver always passes the empty mask.
- An aborted run stops writing and publishes no entry. The C assert instead
  ends the process, so what the model's tables do after that point is not
  observable.
- Amd64Decoding.ArithVarAsWritten: decodes only when operand 2's register id
  is below 8. Larger ids overflow the reg field into the mode bits, which
  `ArithVarWideIdCounterexample` exhibits for one input.
- Amd64Decoding.MovRoundTrip: holds for the unpacked widths (below 16) that
  the driver passes, and for slots whose offset fits a signed 32-bit
  displacement. A pre-shifted WORD width writes 0x67 and a short
  displacement, which `WordWidthCounterexample` exhibits.
- Amd64Decoding.PushPopRoundTrip: holds only for registers below R8. For
  R8..R15 the 0x21 byte is not a REX prefix (`PushPopExtensionIsNotRex`).
  `PushPopReg` is never called by the driver.
