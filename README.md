# Scratch registers and chain elements of a return-oriented obfuscator

This project models two building blocks of ropfuscator's return-oriented
obfuscation pass and proves properties of the model.

- **`LivenessAnalysis` (liveness_analysis.dfy)** models `ScratchRegTracker`.
  When it is constructed over a machine basic block, the tracker seeds LLVM's
  live-register state with the block's live-ins. It then walks the
  instructions from first to last. Before each instruction it appends every
  GR32 register that the state reports available to that instruction's list,
  in class order and converted to capstone's numbering. It then steps the
  state forward over the instruction. The queries `FindRegs`, `GetReg`,
  `GetRegs` and `Count` read the resulting map. The class keeps the map as a
  `map` field. `AddReg` and the analysis change it in place. The queries are
  functions that read it. The constructor's postcondition gives the whole map
  in closed form as `Analysis(backend, mbb)`: instruction `k` is bound to
  `FreeBefore(backend, mbb, k)` whenever that list is non-empty, and no other
  instruction has an entry. LLVM's `LivePhysRegs` calls, the GR32 class and
  `convertToCapstoneReg` are not modelled. They are the uninterpreted fields
  of a `Backend` value: a state type `S`, functions over it, a register
  sequence and a conversion function. The conversion is not assumed to be
  injective.
- **`Chain` (chain_elem.dfy)** models `ChainElem`. It is a datatype with one
  constructor per tag, one factory per tag and `operator==` as `Equal`.
  `Equal` keeps the source's loose rule: tags must match, GADGET compares the
  gadget pointer, and every other tag compares only `value`. `debugPrint` is
  `DebugPrint`, which returns the text it would write. The function-static
  ESP_PUSH counter is the field of an `EspIdCounter` object.
- **`Decimal` (decimal.dfy)** is decimal rendering of integers, as `fmt`
  prints them, with its inverse. **`Wrappers` (wrappers.dfy)** holds `Option`.

Where the source and its comments disagree, the model follows the code. The
comment at LivenessAnalysis.cpp:101-103 speaks of a backward scan, but the
loop at lines 104-114 runs forward and calls `stepForward`.

The factories for GADGET, JMP_BLOCK, JMP_FALLTHROUGH and ESP_PUSH never set
`value`, which C++ leaves indeterminate. Here they take that value as an
explicit argument named `indeterminate`. `EqualityReadsIndeterminateValue`
shows what follows: equality of two such elements depends only on those
unset values.

In the source the inner register-class loop (lines 107-111) sits inside the
block loop. Here it is the method `RecordAvailable`, which
`PerformLivenessAnalysis` calls once per instruction.

Instructions are values of a type parameter `I` that compares by identity.
The constructor requires the block's instructions to be pairwise distinct,
because a MachineInstr occurs in its block only once.

## Model

| member | source | states |
|---|---|---|
| `LivenessAnalysis.ScratchRegTracker.constructor` | LivenessAnalysis.cpp:21-23 | building the tracker runs the analysis; the map is exactly `Analysis(backend, mbb)`, so two trackers over the same block hold the same map |
| `LivenessAnalysis.ScratchRegTracker.AddReg` | LivenessAnalysis.cpp:25-36 | the converted register is appended to the end of the instruction's list, or becomes a one-element list when there was no entry; every other entry is unchanged |
| `LivenessAnalysis.ScratchRegTracker.FindRegs` | LivenessAnalysis.cpp:38-47 | nothing when the instruction has no entry or an empty one; otherwise the stored list, unchanged and non-empty |
| `LivenessAnalysis.ScratchRegTracker.GetReg` | LivenessAnalysis.cpp:49-54 | the last element of the list FindRegs returns, or `X86_REG_INVALID` when FindRegs returns nothing |
| `LivenessAnalysis.ScratchRegTracker.GetRegs` | LivenessAnalysis.cpp:56-61 | exactly what FindRegs returns |
| `LivenessAnalysis.ScratchRegTracker.Count` | LivenessAnalysis.cpp:87-92 | the length of the instruction's list (0 without an entry), and 0 exactly when FindRegs returns nothing |
| `LivenessAnalysis.ScratchRegTracker.RecordAvailable` | LivenessAnalysis.cpp:107-111 | appends to the instruction's list the GR32 registers available in the given state, in class order, converted; no other entry changes; no list becomes empty |
| `LivenessAnalysis.ScratchRegTracker.PerformLivenessAnalysis` | LivenessAnalysis.cpp:94-114 | each block instruction's list gains the free list computed from the live-ins stepped over the instructions before it; entries of instructions outside the block do not change |
| `LivenessAnalysis.FreeInIsConvertedAvailable` | LivenessAnalysis.cpp:107-111 | a free list is the available class registers in class order, each converted |
| `LivenessAnalysis.FreeInComplete` | LivenessAnalysis.cpp:107-110 | every class register the state reports available appears, converted, in the free list |
| `LivenessAnalysis.FreeInSound` | LivenessAnalysis.cpp:107-110 | every entry of a free list is the conversion of a class register the state reports available |
| `LivenessAnalysis.FreeInLength` | LivenessAnalysis.cpp:107-111 | a free list is no longer than the class, and exactly as long when every class register is available |
| `LivenessAnalysis.AnalysisLookup` | LivenessAnalysis.cpp:98-114 | in the analysis map no list is empty, only block instructions have entries, and instruction k's list is the free list of the state before k |
| `LivenessAnalysis.AnalysisCharacterized` | LivenessAnalysis.cpp:94-114 | any map with no empty list that agrees with those free lists and has no other entry is the analysis map |
| `LivenessAnalysis.FreeBeforeIgnoresOwnEffects` | LivenessAnalysis.cpp:107-113 | availability is tested before the instruction is stepped over, so an instruction's own reads, writes and clobbers never affect its list |
| `LivenessAnalysis.FreeBeforeNext` | LivenessAnalysis.cpp:112-113 | the next instruction's list is taken from the state after stepping forward over this one |
| `LivenessAnalysis.OneInstructionAllAvailable` | LivenessAnalysis.cpp:98-111 | a one-instruction block over a three-register class, whose entry state reports every class register available, maps its instruction to all three registers converted, whatever it reads or writes |
| `LivenessAnalysis.QueriesAfterAnalysis` | LivenessAnalysis.cpp:38-92 | after the analysis, FindRegs and Count of a block instruction give its free list and that list's length; an instruction outside the block has no list, count 0 and the sentinel register |
| `LivenessAnalysis.GetRegInvalidIffCountZero` | LivenessAnalysis.cpp:49-54 | when no recorded register converts to capstone's invalid register, GetReg returns the sentinel exactly when Count is 0 |
| `LivenessAnalysis.SentinelDespiteRegisters` | LivenessAnalysis.cpp:25-54 | when the conversion maps a class register to capstone's invalid register, GetReg can answer the sentinel while Count is 3, so the sentinel-iff-zero rule needs its precondition |
| `Chain.FromGadget` | Ropfuscator/ChainElem.h:42-49 | a GADGET element pointing to the given gadget |
| `Chain.FromImmediate` | Ropfuscator/ChainElem.h:52-59 | an IMM_VALUE element holding the given value |
| `Chain.FromGlobal` | Ropfuscator/ChainElem.h:62-70 | an IMM_GLOBAL element holding the given global and the offset as its value |
| `Chain.FromJmpTarget` | Ropfuscator/ChainElem.h:73-80 | a JMP_BLOCK element pointing to the given block |
| `Chain.CreateJmpFallthrough` | Ropfuscator/ChainElem.h:83-89 | a JMP_FALLTHROUGH element |
| `Chain.CreateStackPointerOffset` | Ropfuscator/ChainElem.h:103-111 | an ESP_OFFSET element holding the given value and id |
| `Chain.EspIdCounter.constructor` | Ropfuscator/ChainElem.h:93 | the counter starts at 0 |
| `Chain.EspIdCounter.CreateStackPointerPush` | Ropfuscator/ChainElem.h:92-100 | the counter is pre-incremented, and the new ESP_PUSH element carries the new counter value; the 32-bit range is not exceeded |
| `Chain.CreateStackPointerPushes` | Ropfuscator/ChainElem.h:92-100 | n pushes in a row carry the ids that follow the counter, one by one, so they are strictly increasing and pairwise distinct; from a fresh counter they are 1, 2, 3, … |
| `Chain.Equal` | Ropfuscator/ChainElem.h:113-121 | equal elements have the same type |
| `Chain.EqualReflexive` | Ropfuscator/ChainElem.h:113-121 | every element equals itself |
| `Chain.EqualSymmetric` | Ropfuscator/ChainElem.h:113-121 | equality is symmetric |
| `Chain.EqualTransitive` | Ropfuscator/ChainElem.h:113-121 | equality is transitive, because every `value` field is a determined argument here |
| `Chain.DifferentTypesNeverEqual` | Ropfuscator/ChainElem.h:113-115 | elements of different types are never equal |
| `Chain.GadgetEqualIffSamePointer` | Ropfuscator/ChainElem.h:117-118 | two GADGET elements are equal exactly when their gadget pointers are identical |
| `Chain.NonGadgetEqualIffSameValue` | Ropfuscator/ChainElem.h:120 | two elements of one non-GADGET tag are equal exactly when their `value` fields are |
| `Chain.ImmediateEqualIffSameValue` | Ropfuscator/ChainElem.h:52-59 | two immediates are equal exactly when their values are, and no immediate equals a JMP_FALLTHROUGH element |
| `Chain.ImmediateExamples` | Ropfuscator/ChainElem.h:113-120 | 42 equals 42, 42 differs from 43, and 42 differs from any JMP_FALLTHROUGH element, in both orders |
| `Chain.GlobalEqualityIgnoresSymbol` | Ropfuscator/ChainElem.h:62-70 | IMM_GLOBAL elements with different globals and the same offset are equal |
| `Chain.OffsetEqualityIgnoresId` | Ropfuscator/ChainElem.h:103-111 | ESP_OFFSET elements with the same value and different ids are equal; with one id they are equal exactly when their values are |
| `Chain.EqualityReadsIndeterminateValue` | Ropfuscator/ChainElem.h:72-100 | JMP_BLOCK, JMP_FALLTHROUGH and ESP_PUSH elements compare only by the value their factories leave unset; targets and ids play no part |
| `Chain.DebugPrint` | Ropfuscator/ChainElem.h:123-147 | each rendering starts with its tag's fixed text (`"IMM_GLOBAL:\t:"` keeps its extra colon) and ends with a newline; a JMP_FALLTHROUGH element renders as exactly `"JMP_FALLTHROUGH\n"` |
| `Chain.PrefixesDistinguish` | Ropfuscator/ChainElem.h:123-147 | no tag's fixed text is a prefix of another tag's |
| `Chain.DebugPrintDeterminesType` | Ropfuscator/ChainElem.h:123-147 | elements of different types never render alike |
| `Chain.ImmValueRenderingLossless` | Ropfuscator/ChainElem.h:128-130 | distinct immediate values render differently |
| `Chain.EspPushRenderingLossless` | Ropfuscator/ChainElem.h:140-142 | ESP_PUSH elements with distinct ids render differently |
| `Chain.EspOffsetRenderingLossless` | Ropfuscator/ChainElem.h:143-145 | two ESP_OFFSET elements that render alike have the same value and the same id |
| `Decimal.NatToDec` | Ropfuscator/ChainElem.h:129 | a number renders as a non-empty string of digits with no leading zero |
| `Decimal.IntToDec` | Ropfuscator/ChainElem.h:129 | a value renders with a leading minus sign exactly when it is negative, and holds nothing but the sign and digits |
| `Decimal.NatRoundTrip` | Ropfuscator/ChainElem.h:129 | reading back the digits of a number gives the number |
| `Decimal.IntRoundTrip` | Ropfuscator/ChainElem.h:129 | reading back the rendering of an integer gives the integer |
| `Decimal.IntToDecInjective` | Ropfuscator/ChainElem.h:129 | distinct integers render differently |

## Left out

- src/X86AssembleHelper.h is not part of this model. It is a thin layer over LLVM's instruction builder, symbol creation and global creation.
- LLVM's live-register tracking (`addLiveIns`, `available`, `stepForward`) and the GR32 class are not modelled. Their code is not available, so they are uninterpreted fields of `Backend`. Agreement with true liveness (no false positives or negatives) rests on that code and is not proved.
- `convertToCapstoneReg` is a foreign mapping. It is an uninterpreted function, not assumed injective.
- The debug message written to `dbgs()` after the analysis (LivenessAnalysis.cpp:116-117) is I/O and is left out.
- The commented-out `popReg` variants (LivenessAnalysis.cpp:63-86) are dead code.
- LivenessAnalysis.ScratchRegTracker.FindRegs: returns the list by value. The C++ returns a pointer into the map, through which a caller could change the stored list.
- LivenessAnalysis.ScratchRegTracker.Count: does not model the conversion of the vector's `size_t` length to `int`. A list holds at most one entry per GR32 register, far below the `int` range.
- The tracker keeps no link to later changes of the block. A block changed after construction leaves a stale map, as in the source.
- In `DebugPrint`, the formatting of `microgadget->asmInstr`, `*global` and `jmptarget->getNumber()`, and the `fmt::format_to` stream, are functions passed in a `Pointees` value.
- The raw union storage of `ChainElem` is left out. Only the payload of the element's own tag is stored, which is all that equality and rendering read.
- Chain.EspIdCounter.CreateStackPointerPush: requires the counter to be below `INT_MAX`, because signed overflow is undefined in C++. Concurrent use of the shared counter is not modelled.
- LivenessAnalysis.GetRegInvalidIffCountZero: the sentinel-iff-zero rule holds only when no recorded register converts to `X86_REG_INVALID`. The source does not exclude that, and `SentinelDespiteRegisters` shows a tracker where it fails.
